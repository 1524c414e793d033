/**
 The typing game of game/src/typing: falling letters on a pooled list (effect.c), advanced by the
 ticks of the main loop (game.c).  Every position the game reaches is a multiple of 0.5 below 200,
 which the C code's float holds exactly, so positions are reals here.
 */
module Typing {
  import opened LinkList
  import opened Sequences

  const SIZE: nat := 1000
  const SCR_WIDTH: nat := 320
  const SCR_HEIGHT: real := 200.0
  const HZ: nat := 100
  const CHARACTER_PER_SECOND: nat := 3
  /** Clock ticks between two new letters. */
  const PERIOD: nat := 33

  /** The scan codes of the keys from a to z. */
  const LETTER_CODE: seq<int> := [
    30, 48, 46, 32, 18, 33, 34, 35, 23, 36,
    37, 38, 50, 49, 24, 25, 16, 19, 31, 20,
    22, 47, 17, 45, 21, 44
  ]

  datatype Fly = Fly(x: real, y: int, text: int, v: real)

  /** What the player sees: the letters, the newest first, the counters, the keys and the clock. */
  datatype World = World(letters: seq<Fly>, hit: nat, miss: nat, pressed: set<int>, now: nat)

  /**
   A key interrupt with its scan code, one pass of the main loop over the pressed keys, or one tick
   with three random numbers.
   */
  datatype Event = Press(code: int) | Strike | Tick(ry: nat, rv: nat, rt: nat)

  /* ---- letters ---- */

  /** The assignments of create_new_letter; (rand() % 1000) / 2000 is an integer division. */
  function NewLetter(ry: nat, rv: nat, rt: nat): Fly {
    Fly(0.0, ry % (SCR_WIDTH / 8 - 2) * 8 + 8, rt % 26, (rv % 1000 / 2000) as real + 0.5)
  }

  /** a and b leave the same remainder when divided by m. */
  ghost predicate SameRemainder(a: int, b: int, m: int) {
    exists k: int :: a - b == k * m
  }

  /** What create_new_letter is meant to put at the top: any of 26 letters in any of 38 columns, at one speed. */
  ghost predicate AtTop(f: Fly, ry: nat, rt: nat) {
    && f.x == 0.0 && f.v == 0.5
    && 0 <= f.text < 26 && SameRemainder(rt, f.text, 26)
    && 8 <= f.y <= 304 && f.y % 8 == 0 && SameRemainder(ry, (f.y - 8) / 8, 38)
  }

  lemma NewLetterAtTop(ry: nat, rv: nat, rt: nat)
    ensures AtTop(NewLetter(ry, rv, rt), ry, rt)
  {
    assert rt - rt % 26 == (rt / 26) * 26;
    assert ry - ry % 38 == (ry / 38) * 38;
  }

  /** Every letter comes up in every column, for some random numbers, and nothing else does. */
  lemma EveryLetterComes(text: int, y: int)
    ensures 0 <= text < 26 && y % 8 == 0 && 8 <= y <= 304
            <==> exists ry: nat, rv: nat, rt: nat ::
                   NewLetter(ry, rv, rt).text == text && NewLetter(ry, rv, rt).y == y
  {
    if 0 <= text < 26 && y % 8 == 0 && 8 <= y <= 304 {
      var ry: nat := (y - 8) / 8;
      assert NewLetter(ry, 0, text).text == text && NewLetter(ry, 0, text).y == y;
    }
  }

  function Moved(f: Fly): Fly {
    f.(x := f.x + f.v)
  }

  predicate Gone(f: Fly) {
    f.x < 0.0 || f.x + 7.9 > SCR_HEIGHT
  }

  /** The letters still on the screen after a move, in the same order. */
  function Survivors(s: seq<Fly>): seq<Fly> {
    if s == [] then []
    else (if Gone(Moved(s[0])) then [] else [Moved(s[0])]) + Survivors(s[1..])
  }

  /** The letters that a move takes off the screen at the top, and at the bottom. */
  function Hits(s: seq<Fly>): nat {
    if s == [] then 0 else (if Moved(s[0]).x < 0.0 then 1 else 0) + Hits(s[1..])
  }

  function Misses(s: seq<Fly>): nat {
    if s == [] then 0
    else (if Moved(s[0]).x >= 0.0 && Gone(Moved(s[0])) then 1 else 0) + Misses(s[1..])
  }

  lemma {:induction false} MoveConserves(s: seq<Fly>)
    ensures |Survivors(s)| + Hits(s) + Misses(s) == |s|
  {
    if s != [] {
      MoveConserves(s[1..]);
    }
  }

  /** A falling letter whose key is pressed. */
  predicate Eligible(f: Fly, pressed: set<int>) {
    f.v > 0.0 && f.x > -100.0 && f.text in pressed
  }

  /** Among the first n letters, the eligible one nearest to the bottom, or NIL. */
  function Lowest(s: seq<Fly>, pressed: set<int>, n: nat): (t: int)
    requires n <= |s|
    ensures t == NIL || 0 <= t < n
  {
    if n == 0 then NIL
    else
      var t := Lowest(s, pressed, n - 1);
      if Eligible(s[n - 1], pressed) && (t == NIL || s[n - 1].x > s[t].x) then n - 1 else t
  }

  lemma {:induction false} LowestIs(s: seq<Fly>, pressed: set<int>, n: nat)
    requires n <= |s|
    ensures var t := Lowest(s, pressed, n);
            && (t == NIL <==> forall i :: 0 <= i < n ==> !Eligible(s[i], pressed))
            && (t != NIL ==> && Eligible(s[t], pressed)
                             && forall i :: 0 <= i < n && Eligible(s[i], pressed) ==> s[i].x <= s[t].x)
  {
    if n > 0 {
      LowestIs(s, pressed, n - 1);
    }
  }

  function Falling(s: seq<Fly>): nat {
    if s == [] then 0 else (if s[0].v > 0.0 then 1 else 0) + Falling(s[1..])
  }

  lemma {:induction false} StruckFalls(s: seq<Fly>, t: nat)
    requires t < |s| && s[t].v > 0.0
    ensures Falling(s[t := s[t].(v := -3.0)]) == Falling(s) - 1
  {
    var s' := s[t := s[t].(v := -3.0)];
    if t == 0 {
      assert s'[1..] == s[1..];
    } else {
      assert s'[1..] == s[1..][t - 1 := s[t].(v := -3.0)];
      StruckFalls(s[1..], t - 1);
    }
  }

  /** One call of update_keypress. */
  function StrikeOne(s: seq<Fly>, pressed: set<int>): (seq<Fly>, set<int>) {
    var t := Lowest(s, pressed, |s|);
    if t == NIL then (s, pressed) else (s[t := s[t].(v := -3.0)], pressed - {s[t].text})
  }

  /** Calls of update_keypress until one finds nothing. */
  function StrikeAll(s: seq<Fly>, pressed: set<int>): (seq<Fly>, set<int>)
    decreases Falling(s)
  {
    var t := Lowest(s, pressed, |s|);
    if t == NIL then (s, pressed)
    else
      LowestIs(s, pressed, |s|);
      StruckFalls(s, t);
      StrikeAll(StrikeOne(s, pressed).0, StrikeOne(s, pressed).1)
  }

  /** The keys that hit something: each is released, all others stay pressed, and nothing is left to hit. */
  lemma {:induction false} StrikeAllKeys(s: seq<Fly>, pressed: set<int>)
    ensures var r := StrikeAll(s, pressed);
            && r.1 == pressed - (set f | f in s && Eligible(f, pressed) :: f.text)
            && (forall f :: f in r.0 ==> !Eligible(f, r.1))
    decreases Falling(s)
  {
    var t := Lowest(s, pressed, |s|);
    LowestIs(s, pressed, |s|);
    if t != NIL {
      StruckFalls(s, t);
      var r := StrikeOne(s, pressed);
      StrikeAllKeys(r.0, r.1);
      StruckKeys(s, pressed, t);
    }
  }

  /** Letters have only been turned upwards, and only falling ones whose key was pressed. */
  ghost predicate OnlyTurned(s: seq<Fly>, pressed: set<int>, r: seq<Fly>) {
    && |r| == |s|
    && forall i :: 0 <= i < |s| ==> r[i] == s[i] || (Eligible(s[i], pressed) && r[i] == s[i].(v := -3.0))
  }

  /** Letter i was turned although letter j, with the same key, could have been. */
  predicate Preferred(s: seq<Fly>, pressed: set<int>, r: seq<Fly>, i: nat, j: nat) {
    && i < |s| == |r| && j < |s| && r[i] != s[i]
    && Eligible(s[j], pressed) && s[i].text == s[j].text
  }

  /** Of the letters with one key the lowest was turned, and no other. */
  ghost predicate LowestOnce(s: seq<Fly>, pressed: set<int>, r: seq<Fly>) {
    forall i: nat, j: nat :: Preferred(s, pressed, r, i, j) ==> s[j].x <= s[i].x && (i != j ==> r[j] == s[j])
  }

  /** Some letter was turned for every key that could hit one. */
  ghost predicate EveryKey(s: seq<Fly>, pressed: set<int>, r: seq<Fly>) {
    forall j: nat :: j < |s| && Eligible(s[j], pressed) ==> exists i: nat :: Preferred(s, pressed, r, i, j)
  }

  /** The letters that are hit: for each key that was pressed the lowest one, and no others. */
  lemma {:induction false} StrikeAllLetters(s: seq<Fly>, pressed: set<int>)
    ensures var r := StrikeAll(s, pressed).0;
            OnlyTurned(s, pressed, r) && LowestOnce(s, pressed, r) && EveryKey(s, pressed, r)
    decreases Falling(s)
  {
    var t := Lowest(s, pressed, |s|);
    LowestIs(s, pressed, |s|);
    if t != NIL {
      StruckFalls(s, t);
      var s', pressed' := StrikeOne(s, pressed).0, StrikeOne(s, pressed).1;
      StrikeAllLetters(s', pressed');
      TurnedNext(s, pressed, StrikeAll(s', pressed').0, t, s', pressed');
    }
  }

  lemma TurnedNext(s: seq<Fly>, pressed: set<int>, r: seq<Fly>, t: nat, s': seq<Fly>, pressed': set<int>)
    requires t < |s| && Eligible(s[t], pressed) && s' == s[t := s[t].(v := -3.0)] && pressed' == pressed - {s[t].text}
    requires forall i :: 0 <= i < |s| && Eligible(s[i], pressed) ==> s[i].x <= s[t].x
    requires OnlyTurned(s', pressed', r) && LowestOnce(s', pressed', r) && EveryKey(s', pressed', r)
    ensures OnlyTurned(s, pressed, r) && LowestOnce(s, pressed, r) && EveryKey(s, pressed, r)
  {
    assert r[t] == s'[t] != s[t];
    forall i: nat, j: nat | Preferred(s, pressed, r, i, j)
      ensures s[j].x <= s[i].x && (i != j ==> r[j] == s[j])
    {
      if i != t {
        assert Preferred(s', pressed', r, i, j);
      }
    }
    forall j: nat | j < |s| && Eligible(s[j], pressed)
      ensures exists i: nat :: Preferred(s, pressed, r, i, j)
    {
      if s[j].text == s[t].text {
        assert Preferred(s, pressed, r, t, j);
      } else {
        assert Eligible(s'[j], pressed');
        var i: nat :| Preferred(s', pressed', r, i, j);
        assert Preferred(s, pressed, r, i, j);
      }
    }
  }

  lemma StruckKeys(s: seq<Fly>, pressed: set<int>, t: nat)
    requires t < |s| && Eligible(s[t], pressed)
    ensures var s', pressed' := s[t := s[t].(v := -3.0)], pressed - {s[t].text};
            (set f | f in s && Eligible(f, pressed) :: f.text)
            == {s[t].text} + (set f | f in s' && Eligible(f, pressed') :: f.text)
  {
    var s', pressed' := s[t := s[t].(v := -3.0)], pressed - {s[t].text};
    forall f | f in s && Eligible(f, pressed) && f.text != s[t].text
      ensures f in s' && Eligible(f, pressed')
    {
      var i :| 0 <= i < |s| && s[i] == f;
      assert s'[i] == f;
    }
  }

  /* ---- runs ---- */

  function KeysOf(code: int): set<int> {
    set key | 0 <= key < 26 && LETTER_CODE[key] == code
  }

  /** No two keys have one scan code. */
  lemma OneKeyPerCode(key: int, key': int, code: int)
    requires key in KeysOf(code) && key' in KeysOf(code)
    ensures key == key'
  {
  }

  function Created(w: World, ry: nat, rv: nat, rt: nat): World {
    var f := NewLetter(ry, rv, rt);
    w.(letters := [f] + w.letters, pressed := w.pressed - {f.text})
  }

  function Advanced(w: World): World {
    w.(letters := Survivors(w.letters), hit := w.hit + Hits(w.letters), miss := w.miss + Misses(w.letters))
  }

  /** The move of the letter at position i alone. */
  function AdvancedAt(w: World, i: nat): World
    requires i < |w.letters|
  {
    var f := Moved(w.letters[i]);
    if !Gone(f) then w.(letters := w.letters[i := f])
    else if f.x < 0.0 then w.(letters := Without(w.letters, i), hit := w.hit + 1)
    else w.(letters := Without(w.letters, i), miss := w.miss + 1)
  }

  function Step(w: World, e: Event): World {
    match e
    case Press(code) => w.(pressed := w.pressed + KeysOf(code))
    case Strike => var r := StrikeAll(w.letters, w.pressed); w.(letters := r.0, pressed := r.1)
    case Tick(ry, rv, rt) =>
      Advanced(if w.now % PERIOD == 0 then Created(w, ry, rv, rt) else w).(now := w.now + 1)
  }

  function Steps(w: World, events: seq<Event>): World
    decreases |events|
  {
    if events == [] then w else Steps(Step(w, events[0]), events[1..])
  }

  const START: World := World([], 0, 0, {}, 0)

  /** A letter of this age: still falling, or struck on its way down and rising since. */
  predicate AgeOk(f: Fly, age: int) {
    || (f.v == 0.5 && f.x == 0.5 * age as real && 0 <= age <= 384)
    || (f.v == -3.0 && 0.0 <= f.x <= 192.0 && age as real <= 384.0 + (192.0 - f.x) / 3.0)
  }

  /** births are the ticks at which the letters were created, the newest first, all before limit. */
  predicate Aged(s: seq<Fly>, births: seq<nat>, now: nat, limit: nat) {
    && |births| == |s|
    && (s == []
        || (&& births[0] % PERIOD == 0 && births[0] < limit && births[0] <= now
            && AgeOk(s[0], now - births[0]) && Aged(s[1..], births[1..], now, births[0])))
  }

  /** No letter lives longer than 448 ticks, so at most 14 are on the screen. */
  lemma {:induction false} AgedFew(s: seq<Fly>, births: seq<nat>, now: nat, limit: nat)
    requires Aged(s, births, now, limit)
    ensures s != [] ==> now - births[0] + PERIOD * (|s| - 1) <= 448
    ensures |s| <= 14
  {
    if s != [] {
      AgedFew(s[1..], births[1..], now, births[0]);
    }
  }

  lemma AgedLimit(s: seq<Fly>, births: seq<nat>, now: nat, limit: nat, limit': nat)
    requires Aged(s, births, now, limit) && limit <= limit'
    ensures Aged(s, births, now, limit')
  {
  }

  lemma MovedAge(f: Fly, age: int)
    requires AgeOk(f, age) && !Gone(Moved(f))
    ensures AgeOk(Moved(f), age + 1)
  {
  }

  /** A tick ages the letters that stay. */
  lemma {:induction false} AgedMove(s: seq<Fly>, births: seq<nat>, now: nat, limit: nat) returns (births': seq<nat>)
    requires Aged(s, births, now, limit)
    ensures Aged(Survivors(s), births', now + 1, limit)
  {
    if s == [] {
      births' := [];
    } else {
      births' := AgedMove(s[1..], births[1..], now, births[0]);
      if Gone(Moved(s[0])) {
        assert Survivors(s) == Survivors(s[1..]);
        AgedLimit(Survivors(s), births', now + 1, births[0], limit);
      } else {
        MovedAge(s[0], now - births[0]);
        births' := [births[0]] + births';
        assert Survivors(s)[1..] == Survivors(s[1..]);
        assert births'[1..] == births'[1..];
      }
    }
  }

  /** A struck letter is no older than it was. */
  lemma {:induction false} AgedStruck(s: seq<Fly>, births: seq<nat>, now: nat, limit: nat, t: nat)
    requires Aged(s, births, now, limit) && t < |s| && s[t].v > 0.0
    ensures Aged(s[t := s[t].(v := -3.0)], births, now, limit)
  {
    var s' := s[t := s[t].(v := -3.0)];
    if t == 0 {
      assert s'[1..] == s[1..];
    } else {
      assert s'[1..] == s[1..][t - 1 := s[t].(v := -3.0)];
      AgedStruck(s[1..], births[1..], now, births[0], t - 1);
    }
  }

  lemma {:induction false} AgedStruckAll(s: seq<Fly>, pressed: set<int>, births: seq<nat>, now: nat, limit: nat)
    requires Aged(s, births, now, limit)
    ensures Aged(StrikeAll(s, pressed).0, births, now, limit) && |StrikeAll(s, pressed).0| == |s|
    decreases Falling(s)
  {
    var t := Lowest(s, pressed, |s|);
    if t != NIL {
      LowestIs(s, pressed, |s|);
      StruckFalls(s, t);
      AgedStruck(s, births, now, limit, t);
      AgedStruckAll(StrikeOne(s, pressed).0, StrikeOne(s, pressed).1, births, now, limit);
    }
  }

  /** Every letter created so far is on the screen, hit, or missed. */
  predicate Conserved(w: World) {
    |w.letters| + w.hit + w.miss == (w.now + PERIOD - 1) / PERIOD
  }

  lemma CreatedBy(now: nat)
    ensures (now + 1 + PERIOD - 1) / PERIOD == (now + PERIOD - 1) / PERIOD + if now % PERIOD == 0 then 1 else 0
  {
  }

  /** The part of a tick before the letters move. */
  lemma CreateAged(w: World, births: seq<nat>, ry: nat, rv: nat, rt: nat)
    requires Aged(w.letters, births, w.now, w.now) && w.now % PERIOD == 0
    ensures Aged(Created(w, ry, rv, rt).letters, [w.now] + births, w.now, w.now + 1)
  {
    assert ([w.now] + births)[1..] == births;
    assert Created(w, ry, rv, rt).letters[1..] == w.letters;
  }

  lemma TickAged(w: World, e: Event, births: seq<nat>) returns (births': seq<nat>)
    requires e.Tick? && Aged(w.letters, births, w.now, w.now) && Conserved(w)
    ensures Aged(Step(w, e).letters, births', w.now + 1, w.now + 1) && Conserved(Step(w, e))
  {
    var w', b := w, births;
    if w.now % PERIOD == 0 {
      w', b := Created(w, e.ry, e.rv, e.rt), [w.now] + births;
      CreateAged(w, births, e.ry, e.rv, e.rt);
    } else {
      AgedLimit(w.letters, births, w.now, w.now, w.now + 1);
    }
    births' := AgedMove(w'.letters, b, w.now, w.now + 1);
    TickConserves(w, e);
  }

  lemma TickConserves(w: World, e: Event)
    requires e.Tick? && Conserved(w)
    ensures Conserved(Step(w, e))
  {
    MoveConserves(if w.now % PERIOD == 0 then Created(w, e.ry, e.rv, e.rt).letters else w.letters);
    CreatedBy(w.now);
  }

  lemma StepAged(w: World, e: Event, births: seq<nat>) returns (births': seq<nat>)
    requires Aged(w.letters, births, w.now, w.now) && Conserved(w)
    ensures Aged(Step(w, e).letters, births', Step(w, e).now, Step(w, e).now) && Conserved(Step(w, e))
  {
    births' := births;
    if e.Strike? {
      AgedStruckAll(w.letters, w.pressed, births, w.now, w.now);
    } else if e.Tick? {
      births' := TickAged(w, e, births);
    }
  }

  lemma {:induction false} RunAged(w: World, events: seq<Event>, births: seq<nat>) returns (births': seq<nat>)
    requires Aged(w.letters, births, w.now, w.now) && Conserved(w)
    ensures var w' := Steps(w, events); Aged(w'.letters, births', w'.now, w'.now) && Conserved(w')
    decreases |events|
  {
    births' := births;
    if events != [] {
      births' := StepAged(w, events[0], births);
      births' := RunAged(Step(w, events[0]), events[1..], births');
    }
  }

  /** Whatever is typed, and whatever the random numbers: never more than 14 letters, and none lost. */
  lemma AnyRun(events: seq<Event>)
    ensures var w := Steps(START, events);
            |w.letters| <= 14 && |w.letters| + w.hit + w.miss == (w.now + PERIOD - 1) / PERIOD
  {
    var births := RunAged(START, events, []);
    var w := Steps(START, events);
    AgedFew(w.letters, births, w.now, w.now);
  }

  /* ---- the game on the pool ---- */

  /** The letters in the nodes s. */
  ghost function Letters(pool: seq<Node<Fly>>, s: seq<nat>): (letters: seq<Fly>)
    requires forall p :: p in s ==> p < |pool|
    ensures |letters| == |s| && forall i :: 0 <= i < |s| ==> s[i] in s && letters[i] == pool[s[i]].data
  {
    seq(|s|, i requires 0 <= i < |s| => assert s[i] in s; pool[s[i]].data)
  }

  /** Each of the nodes that can be handed out is live or free, and not both. */
  ghost predicate Partition(size: nat, live: seq<nat>, idle: seq<nat>) {
    && |live| + |idle| == size
    && (forall p :: p in live ==> p < size && p !in idle)
    && forall p: nat :: p < size ==> p in live || p in idle
  }

  lemma {:induction false} StepsNext(w: World, events: seq<Event>, e: Event)
    ensures Steps(w, events + [e]) == Step(Steps(w, events), e)
    decreases |events|
  {
    if events == [] {
      assert [e][1..] == [];
      assert events + [e] == [e];
    } else {
      assert (events + [e])[1..] == events[1..] + [e];
      StepsNext(Step(w, events[0]), events[1..], e);
    }
  }

  /** The letters before position i have moved already; start is the world before the moves. */
  ghost predicate Moving(start: World, w: World, i: nat) {
    && i <= |w.letters| && w.pressed == start.pressed && w.now == start.now
    && w.letters[..i] + Survivors(w.letters[i..]) == Survivors(start.letters)
    && w.hit + Hits(w.letters[i..]) == start.hit + Hits(start.letters)
    && w.miss + Misses(w.letters[i..]) == start.miss + Misses(start.letters)
  }

  lemma MovedAll(start: World, w: World)
    requires Moving(start, w, |w.letters|)
    ensures w == Advanced(start)
  {
    assert w.letters[|w.letters|..] == [] && w.letters[..|w.letters|] == w.letters;
  }

  lemma MovingNext(start: World, w: World, i: nat, w': World)
    requires Moving(start, w, i) && i < |w.letters| && w' == AdvancedAt(w, i)
    ensures Moving(start, w', if Gone(Moved(w.letters[i])) then i else i + 1)
  {
    var rest := w.letters[i..];
    assert rest[1..] == w.letters[i + 1..];
    if Gone(Moved(w.letters[i])) {
      assert w'.letters[i..] == rest[1..] && w'.letters[..i] == w.letters[..i];
    } else {
      assert w'.letters[i + 1..] == rest[1..] && w'.letters[..i + 1] == w.letters[..i] + [Moved(rest[0])];
    }
  }

  lemma LettersWithout(pool: seq<Node<Fly>>, pool': seq<Node<Fly>>, live: seq<nat>, i: nat, rest: seq<nat>)
    requires SameData(pool, pool') && i < |live| && forall p :: p in live ==> p < |pool|
    requires rest == Without(live, i) && forall p :: p in rest ==> p < |pool'|
    ensures Letters(pool', rest) == Without(Letters(pool, live), i)
  {
  }

  lemma DropPartition(live: seq<nat>, idle: seq<nat>, i: nat)
    requires Partition(SIZE, live, idle) && i < |live| && live[i] !in Without(live, i)
    ensures Partition(SIZE, Without(live, i), [live[i]] + idle)
  {
    var rest := Without(live, i);
    WithoutElements(live, i);
    forall p: nat | p < SIZE
      ensures p in rest || p in [live[i]] + idle
    {
      assert p in live || p in idle;
    }
    assert forall p :: p in rest ==> p in live && p != live[i];
  }

  class Game {
    const flies: Pool<Fly>
    var head: int
    var hit: int
    var miss: int
    var pressed: set<int>
    var now: nat
    /** The interrupt flag of the processor. */
    var enabled: bool
    /** The nodes of the list, in order. */
    ghost var live: seq<nat>

    ghost predicate Valid()
      reads this, flies, flies.pool
    {
      && flies.Valid() && flies.size == SIZE && hit >= 0 && miss >= 0
      && Chain(flies.pool[..], head, NIL, live) && Partition(SIZE, live, flies.idle)
      && (live != [] ==> flies.freeHead != NIL)
    }

    ghost function View(): World
      requires Valid()
      reads this, flies, flies.pool
    {
      World(Letters(flies.pool[..], live), hit, miss, pressed, now)
    }

    constructor ()
      ensures Valid() && fresh(flies) && fresh(flies.pool) && View() == START
    {
      flies := new Pool<Fly>(SIZE, Fly(0.0, 0, 0, 0.0));
      head, hit, miss, pressed, now, enabled := NIL, 0, 0, {}, 0, true;
      live := [];
      new;
      forall p: nat | p < SIZE
        ensures p in flies.idle
      {
        assert flies.idle[p] == p;
      }
    }

    /** The list part of create_new_letter: a new node in front of the list. */
    method PushNode()
      requires Valid() && flies.idle != []
      modifies this`head, this`live, flies, flies.pool
      ensures Valid() && |live| == |old(live)| + 1 && live[1..] == old(live)
      ensures Letters(flies.pool[..], live)[1..] == old(View()).letters && 0 <= head < SIZE
    {
      ghost var idle := flies.idle;
      if head == NIL {
        head := flies.New();
        live := [head];
      } else {
        ghost var before := flies.pool[..];
        var fly := flies.New();
        ChainKept(before, flies.pool[..], head, NIL, live);
        flies.Insert(NIL, head, fly, head, live, 0);
        head := fly;
        live := [fly] + live;
      }
    }

    /** Overwriting the letter at position i of the list. */
    method SetLetter(it: nat, f: Fly, ghost i: nat)
      requires Valid() && i < |live| && it == live[i]
      modifies flies.pool
      ensures Valid() && View() == old(View()).(letters := old(View()).letters[i := f])
    {
      assert live[i] in live;
      ghost var before := flies.pool[..];
      ChainNodes(before, head, NIL, live);
      flies.pool[it] := flies.pool[it].(data := f);
      ChainKept(before, flies.pool[..], head, NIL, live);
      FreeChainKept(before, flies.pool[..], flies.freeHead, flies.idle);
      assert Letters(flies.pool[..], live) == Letters(before, live)[i := f];
    }

    /** create_new_letter */
    method CreateNewLetter(ry: nat, rv: nat, rt: nat)
      requires Valid() && flies.idle != []
      modifies this`head, this`live, this`pressed, flies, flies.pool
      ensures Valid() && View() == Created(old(View()), ry, rv, rt)
      ensures |live| == |old(live)| + 1 && View().letters[1..] == old(View()).letters
      ensures AtTop(View().letters[0], ry, rt) && pressed == old(pressed) - {View().letters[0].text}
    {
      ghost var letters := View().letters;
      PushNode();
      NewLetterAtTop(ry, rv, rt);
      var f := Fly(0.0, ry % (SCR_WIDTH / 8 - 2) * 8 + 8, rt % 26, (rv % 1000 / 2000) as real + 0.5);
      SetLetter(head, f, 0);
      assert View().letters == [f] + letters;
      pressed := pressed - {f.text};
    }

    /** A letter leaves the list, and its node goes back to the pool. */
    method Drop(it: nat, next: int, ghost i: nat)
      requires Valid() && i < |live| && it == live[i] && next == At(live, i + 1)
      modifies this`head, this`live, flies, flies.pool
      ensures Valid() && live == Without(old(live), i)
      ensures View() == old(View()).(letters := Without(old(View()).letters, i))
    {
      ghost var before := flies.pool[..];
      ChainNodes(before, head, NIL, live);
      assert live[i] in live;
      flies.Remove(it, head, live, i);
      ghost var removed := flies.pool[..];
      flies.Free(it);
      ChainKept(removed, flies.pool[..], if i == 0 then At(live, 1) else head, NIL, Without(live, i));
      DropPartition(live, flies.idle[1..], i);
      if it == head {
        head := next;
      }
      WithoutElements(live, i);
      LettersWithout(before, flies.pool[..], live, i, Without(live, i));
      live := Without(live, i);
    }

    /** One round of the loop of update_letter_pos. */
    method Advance(it: nat, ghost i: nat) returns (next: int, ghost stays: bool)
      requires Valid() && i < |live| && it == live[i]
      modifies this`head, this`live, this`hit, this`miss, flies, flies.pool
      ensures Valid() && stays == !Gone(Moved(old(View()).letters[i]))
      ensures live == if stays then old(live) else Without(old(live), i)
      ensures next == At(old(live), i + 1)
      ensures View() == AdvancedAt(old(View()), i)
      ensures var f, letters := old(View()).letters[i], old(View()).letters;
              if f.x + f.v < 0.0 then
                !stays && View() == old(View()).(letters := Without(letters, i), hit := old(hit) + 1)
              else if f.x + f.v + 7.9 > 200.0 then
                !stays && View() == old(View()).(letters := Without(letters, i), miss := old(miss) + 1)
              else
                stays && View() == old(View()).(letters := letters[i := Fly(f.x + f.v, f.y, f.text, f.v)])
    {
      ChainLink(flies.pool[..], head, NIL, live, i);
      next := flies.pool[it].next;
      var f := flies.pool[it].data;
      f := f.(x := f.x + f.v);
      SetLetter(it, f, i);
      stays := true;
      if f.x < 0.0 || f.x + 7.9 > SCR_HEIGHT {
        stays := false;
        ghost var letters := old(View()).letters;
        assert Without(letters[i := f], i) == Without(letters, i);
        if f.x < 0.0 {
          hit := hit + 1;
        } else {
          miss := miss + 1;
        }
        Drop(it, next, i);
      }
    }

    /** update_letter_pos */
    method UpdateLetterPos()
      requires Valid()
      modifies this`head, this`live, this`hit, this`miss, flies, flies.pool
      ensures Valid() && View() == Advanced(old(View()))
    {
      var it := head;
      ghost var i, start := 0, View();
      while it != NIL
        invariant Valid() && i <= |live| && it == At(live, i) && Moving(start, View(), i)
        decreases |live| - i
      {
        ghost var stays, before := true, View();
        it, stays := Advance(it, i);
        MovingNext(start, before, i, View());
        if stays {
          i := i + 1;
        }
      }
      MovedAll(start, View());
    }

    /** The search of update_keypress; i is the position of the node found. */
    method FindTarget() returns (target: int, ghost i: int)
      requires Valid()
      ensures i == Lowest(View().letters, pressed, |live|) && target == At(live, i)
      ensures target == At(live, Lowest(View().letters, pressed, |live|))
    {
      var it, min := head, -100.0;
      ghost var k := 0;
      target, i := NIL, NIL;
      while it != NIL
        invariant k <= |live| && it == At(live, k)
        invariant i == Lowest(View().letters, pressed, k) && target == At(live, i)
        invariant min == if i == NIL then -100.0 else View().letters[i].x
        decreases |live| - k
      {
        ChainLink(flies.pool[..], head, NIL, live, k);
        LowestIs(View().letters, pressed, k);
        var f := flies.pool[it].data;
        if f.v > 0.0 && f.x > min && f.text in pressed {
          min := f.x;
          target, i := it, k;
        }
        it := flies.pool[it].next;
        k := k + 1;
      }
    }

    /**
     update_keypress: the lowest falling letter whose key is pressed turns upwards, and its key is
     released.  Interrupts stay disabled if there was one.
     */
    method UpdateKeypress() returns (found: bool)
      requires Valid()
      modifies this`pressed, this`enabled, flies.pool
      ensures Valid() && enabled == !found && found == (Lowest(old(View()).letters, old(pressed), |live|) != NIL)
      ensures var r := StrikeOne(old(View()).letters, old(pressed));
              View() == old(View()).(letters := r.0, pressed := r.1)
      ensures !found ==> View() == old(View())
      ensures found ==> var s, t := old(View()).letters, Lowest(old(View()).letters, old(pressed), |live|);
                        && pressed == old(pressed) - {s[t].text}
                        && View().letters == s[t := Fly(s[t].x, s[t].y, s[t].text, -3.0)]
    {
      enabled := false;
      var target, i := FindTarget();
      if target != NIL {
        var f := flies.pool[target].data;
        pressed := pressed - {f.text};
        SetLetter(target, f.(v := -3.0), i);
        return true;
      }
      enabled := true;
      return false;
    }

    /**
     The loop at the start of each round of the main loop; each call leaves one letter fewer falling,
     and the last one enables interrupts again.
     */
    method StrikePressed()
      requires Valid()
      modifies this`pressed, this`enabled, flies.pool
      ensures Valid() && enabled && View() == Step(old(View()), Strike)
    {
      ghost var goal := StrikeAll(View().letters, pressed);
      var again := true;
      while again
        invariant Valid() && StrikeAll(View().letters, pressed) == goal
        invariant View() == old(View()).(letters := View().letters, pressed := pressed)
        invariant !again ==> enabled && goal == (View().letters, pressed)
        decreases Falling(View().letters), again
      {
        ghost var w := View();
        LowestIs(w.letters, pressed, |live|);
        again := UpdateKeypress();
        if again {
          StruckFalls(w.letters, Lowest(w.letters, w.pressed, |live|));
        }
      }
    }

    /** One clock tick of the main loop. */
    method ClockTick(ry: nat, rv: nat, rt: nat)
      requires Valid() && (now % PERIOD == 0 ==> flies.idle != [])
      modifies this, flies, flies.pool
      ensures Valid() && View() == Step(old(View()), Tick(ry, rv, rt))
    {
      if now % (HZ / CHARACTER_PER_SECOND) == 0 {
        CreateNewLetter(ry, rv, rt);
      }
      UpdateLetterPos();
      now := now + 1;
    }

    /** press_key: the key of this scan code is pressed from now on, and the others as before. */
    method PressKey(code: int)
      requires Valid()
      modifies this`pressed
      ensures Valid() && View() == Step(old(View()), Press(code))
      ensures forall key :: key in pressed <==> key in old(pressed) || (0 <= key < 26 && LETTER_CODE[key] == code)
    {
      for i := 0 to 26
        invariant Valid() && View() == old(View()).(pressed := pressed)
        invariant pressed == old(pressed) + set key | 0 <= key < i && LETTER_CODE[key] == code
      {
        if LETTER_CODE[i] == code {
          pressed := pressed + {i};
        }
      }
    }

    /** One event; with few letters on the screen new finds a free node. */
    method Execute(e: Event)
      requires Valid() && |View().letters| < SIZE
      modifies this, flies, flies.pool
      ensures Valid() && View() == Step(old(View()), e)
    {
      match e {
        case Press(code) =>
          PressKey(code);
        case Strike =>
          StrikePressed();
        case Tick(ry, rv, rt) =>
          ClockTick(ry, rv, rt);
      }
    }

    /** The whole game, from its start, under any events: the pool never runs out. */
    method Run(events: seq<Event>)
      requires Valid() && View() == START
      modifies this, flies, flies.pool
      ensures Valid() && View() == Steps(START, events)
      ensures |live| <= 14 && |live| + hit + miss == (now + PERIOD - 1) / PERIOD
      ensures flies.linked <= 1
    {
      AnyRun([]);
      var n := 0;
      while n < |events|
        invariant Valid() && n <= |events| && View() == Steps(START, events[..n]) && |live| <= 14
      {
        Execute(events[n]);
        StepsNext(START, events[..n], events[n]);
        n := n + 1;
        assert events[..n] == events[..n - 1] + [events[n - 1]];
        AnyRun(events[..n]);
      }
      assert events[..n] == events;
      AnyRun(events);
    }
  }
}

# NEMU: what its arithmetic, debugger, memory and games compute

A Dafny model of six parts of an x86 emulator, its kernel and one of its games, with proofs that
each part does what it is meant to do, or exactly when it does.

- **The floating-point unit** (`Binary32`, `Ieee754`, `FpuNormalize`, `Fpu`, `FpuDivide`, `FpuLaws`,
  `FpuStack`). `Binary32.Round` is roundTiesToEven of IEEE 754-2008 (section 4.3.1) on exact integers
  in units of 2^-149, defined by distances and knowing nothing of significands or guard bits;
  `Ieee754` defines the operations on it. Addition and subtraction are proved correctly rounded for
  all operands that are not NaNs. Multiplication is proved correctly rounded exactly when its
  operands are not `Misread`: a product that enters normalisation with exponent 0 and fewer than 28
  bits is read at twice its value. Division is proved correctly rounded exactly when its operands
  are not `Misrounded`: a remainder is dropped and what is left of the quotient is a tie above an
  even number, as for 1.5 / (1 + 2^-23). Products and quotients, wrong ones included, have the sign
  of the product of their operands' exact values.
- **The debugger's expressions** (`ExprOperators`, `ExprTree`, `Parentheses`, `ExprScan`,
  `ExprEval`). The recursive evaluator over the token array is proved against trees with the
  precedence levels of ISO/IEC 9899:2011 (sections 6.5.3 and 6.5.5 to 6.5.14). A list of tokens has
  at most one such tree (`ExprEval.TreesAreUnique`), and joining two trees by an operator, or putting
  one in front, always gives one (`ExprTree.JoinedTree`, `ExprTree.PrefixedTree`). On the tokens of a
  well-formed tree, with anything behind them in the token array, the evaluator succeeds if and only
  if the searches understand the tree in front of the next token (`Understood`) and all operands and
  loads are valid. In front of a token that is no operator these are the `GroupFree` trees: no left
  operand is an operator expression that ends in a parenthesis. The answer is then the tree's value,
  with the operators kept by `Kept` in chains of different unary operators, and the C value if no
  chain mixes operators. `ExprTree.Yields` says what these values are without computing them, by the
  integers that the words stand for and by their bits (`ExprOperators.Means`).
- **Breakpoints** (`Breakpoints`). The two chains of the pool, the bytes patched with INT3, and runs
  of arbitrary commands refined to an abstract session.
- **The pooled list and the typing game** (`LinkList`, `Typing`). Every run of the game, under any
  keys and random numbers, keeps at most 14 letters, so the pool of 1000 is never exhausted, and
  loses none.
- **Paged memory** (`PagedMemory`). Reads and writes of 1, 2 or 4 bytes equal the access byte by
  byte through an arbitrary page-to-frame map, each byte at an address that is written out
  (`PagedMemory.Lies`).
- **The integer unit** (`Alu`). All flags of addition and subtraction at three widths, the ten
  conditions, chains over numbers of many limbs, and the shift loops.
- **Page tables** (`PageTables`). What the processor's walk (Intel SDM volume 3A, section 4.3) finds
  in the tables that the kernel builds, for every virtual address.

`PowersOfTwo`, `Bits`, `Words`, `Sequences` and `Wrappers` hold what these share: arithmetic lemmas,
binary digits, the C integer types, sequences of nodes, and options.

Methods follow the C functions statement by statement: loops are loops, the linked structures are
arrays of nodes named by index (NIL for NULL), and the `goto` of the normalisation is a loop with a
bound of two rounds. The following come in from outside as parameters or fields: the values of the
debugger's operands and what an undefined C operation yields (`ExprOperators.Env`), the frame that a page
translates to (`PagedMemory.Mapping`), the value of a watchpoint's expression, and the game's keys
and random numbers.

Where the code departs from its comments or from an obvious reading, the model follows the code:

- A new letter's speed is meant to be random, but `(rand() % 1000) / 2000` is an integer division
  and the speed is always 0.5 (`game/src/typing/effect.c:47`). Positions are therefore multiples of
  0.5 below 200, which `float` holds exactly, and they are reals here.
- In `set_OF_sub` and `set_OF_sbb` the test for the least number compares a sign-extended operand
  with 0x80 or 0x8000 and is never met at 8 and 16 bits. The overflow flag is right all the same
  (`Alu.InvalidComplement`, `Alu.DifferenceOverflow`).
- The overflow flag of a right shift by one is the operand's top bit at 32 bits and always 0 at 8
  and 16 bits; that of an arithmetic right shift compares CF with the sign of the result. The
  contracts of `Alu.Cpu.Shr` and `Alu.Cpu.Sar` say what the code sets.
- `find_specific_last_op` skips a group that ends its range and then compares the token behind the
  range; that is why `GroupFree` is needed (`ExprEval.InfixDominant`), and why "(1)*(1)+1" fails
  (`ExprEval.GroupBeforeOperatorFails`).
- The range test of a load, `value2 + 4 >= MEM_SIZE_B`, wraps around: the last word of memory is
  refused, and the last four addresses below 2^32 pass (`ExprOperators.LoadRange`).
- `expr` clears the token array after an evaluation, but not when `make_token` fails
  (`nemu/src/monitor/expr.c:784-788`). Operators that such an input leaves behind can make the next
  one fail: after "(1+2+12345678901", whose last token is too long, "!(1)" meets the old "+"
  (`ExprEval.StaleOperatorMisleads`).
- `check_valid_parentheses` only compares counts, and what passes it can keep `find_specific_last_op`
  from ending. Its loop leaves such a range if and only if every group that it skips closes, where the
  token behind a skipped group is compared and never itself skipped (`Parentheses.SearchEndsIfPaired`).
  On ")(" the loop repeats one state for ever (`Parentheses.RepeatsForEver`); ")(1)(" is left
  (`Parentheses.LeavesBehindGroup`). Without groups side by side the balanced ranges are left and no
  others (`Parentheses.SeparatedWalks`).
- An infinity plus a NaN other than the two in the tables is that infinity (`Fpu.SurfacesNaN`).
- The page table of the video mapping is physical frame 0, of which only 16 entries are written.
  Whatever else the frame holds is read as page-table entries (`PageTables.Kernel.CreateVideoMapping`).
- Setting a breakpoint on an address that is armed already fetches INT3 as the original byte.
  `Breakpoints.Manager.SetBreakpoint` gives the exact condition, and `Breakpoints.DeleteAllRestores`
  says when deleting everything still restores the program. After two breakpoints on one address it
  leaves INT3 there (`Breakpoints.SetTwiceThenDeleteAll`).

## Model

| member | source | states |
|---|---|---|
| Binary32.Round | nemu/src/cpu/fpu.c:91-118 | There is a magnitude nearest to every nonnegative rational, ties going to the even one and everything from the last midpoint on to infinity; it is the rounding that the unit is judged by |
| Binary32.RoundIs | nemu/src/cpu/fpu.c:91-118 | That magnitude is unique: lying between the two midpoints around a magnitude decides the rounding |
| Binary32.RoundMonotone | nemu/src/cpu/fpu.c:91-118 | A larger number is never rounded to a smaller magnitude |
| Binary32.RoundOfMagnitude | nemu/src/cpu/fpu.c:91-118 | A number that is representable is rounded to itself |
| Binary32.JamRound | nemu/src/cpu/fpu.c:21-34 | Right shifts that keep lost bits in a sticky bit never change the correctly rounded result, at any scale at which the shifted significand keeps 26 bits or lies below the denormals |
| Binary32.RoundGrs | nemu/src/cpu/fpu.c:95-117 | The three guard, round and sticky bits alone decide between the two neighbouring magnitudes, normal or denormal, with ties going to the even one |
| Binary32.RoundOverflow | nemu/src/cpu/fpu.c:36-42 | A significand whose exponent has reached 255 stands for a number that rounds to infinity |
| Binary32.RoundUnderflow | nemu/src/cpu/fpu.c:53-59 | A significand of at most 4 at a negative exponent stands for a number that rounds to zero |
| FpuNormalize.NormalizeRight | nemu/src/cpu/fpu.c:17-60 | The right-shifting branch ends in position for rounding, or at infinity or zero, without changing the correctly rounded value |
| FpuNormalize.NormalizeLeft | nemu/src/cpu/fpu.c:61-83 | The left-shifting branch ends normal, or denormal after its extra sticky shift, without changing the correctly rounded value |
| FpuNormalize.NormalizePass | nemu/src/cpu/fpu.c:14-89 | One pass over all branches keeps the rounded value, and leaves a significand that is already in position alone |
| FpuNormalize.Normalize | nemu/src/cpu/fpu.c:9-126 | The result is the sign and the correctly rounded magnitude of sig * 2^(exp-153), or of sig * 2^(1-153) for exponent 0 with fewer than 28 bits; the goto is taken at most once, as its count says |
| Fpu.FindCorner | nemu/src/cpu/fpu.c:143-150 | The table search returns a rule for exactly these operands if there is one |
| Fpu.Align | nemu/src/cpu/fpu.c:211-224 | Aligning the smaller operand shifts it right by the given distance with the lost bits jammed into the lowest |
| Fpu.AddSigned | nemu/src/cpu/fpu.c:226-246 | Two's-complement addition of two signed significands gives sign and absolute value of their exact sum |
| Fpu.AlignedSum | nemu/src/cpu/fpu.c:211-246 | The sum of one significand and one jammed before the signed addition rounds to the same magnitude as the exact sum, for any signs |
| Fpu.FloatAdd | nemu/src/cpu/fpu.c:143-250 | For all operands that are not NaNs the sum is correctly rounded, with denormals, overflow, infinities and the sign of zero as IEEE 754-2008 has them; a NaN operand gives a NaN unless it is the second, not in the tables, and the first is infinite |
| Fpu.FloatSub | nemu/src/cpu/fpu.c:264-281 | For all operands that are not NaNs the difference is correctly rounded; a NaN operand gives a NaN with the same exception |
| Fpu.MulSignificands | nemu/src/cpu/fpu.c:312-339 | Past the special cases the result is the rounded exact product, or the rounded double of it for misread operands |
| Fpu.MisreadDiffers | nemu/src/cpu/fpu.c:84-89 | A product that is read at twice its value is always rounded to a wrong magnitude |
| Fpu.MultipliedIsProduct | nemu/src/cpu/fpu.c:295-339 | Multiplication is wrong for all misread operands and for no others |
| Ieee754.ProductSigned | nemu/src/cpu/fpu.c:309 | A product that is a number is negative if and only if one operand is negative and the other is not; for operands that are not zero, if and only if the product of their exact values is |
| Ieee754.QuotientSigned | nemu/src/cpu/fpu.c:389 | The same for quotients |
| Fpu.MultipliedSigned | nemu/src/cpu/fpu.c:309 | What multiplication returns has the sign of the product of the exact values, misread operands included |
| FpuDivide.DividedSigned | nemu/src/cpu/fpu.c:389 | What division returns has it too, misrounded operands included |
| Fpu.FloatMul | nemu/src/cpu/fpu.c:295-339 | For operands that are not NaNs the result is the correctly rounded product if and only if they are not misread, gradual underflow, flush to signed zero and overflow included; a number among the results is negative if and only if the operands' signs differ |
| FpuDivide.Widen | nemu/src/cpu/fpu.c:399-410 | The two loops end with the dividend's top bit at 63 and an odd divisor, each scaled by a power of two, and count their shifts |
| FpuDivide.DivSignificands | nemu/src/cpu/fpu.c:388-420 | Past the special cases the result is the correct rounding of the truncated quotient of the widened significands |
| FpuDivide.TruncationRounds | nemu/src/cpu/fpu.c:412-419 | Rounding a truncated quotient of at least 40 bits agrees with rounding the exact quotient if and only if nothing was cut off or what is left is not a tie above an even magnitude |
| FpuDivide.QuotientCorrect | nemu/src/cpu/fpu.c:356-420 | For nonzero finite operands division is correctly rounded if and only if they are not misrounded |
| FpuDivide.FloatDiv | nemu/src/cpu/fpu.c:356-420 | For operands that are not NaNs the result is the correctly rounded quotient if and only if they are not misrounded, and otherwise the rounding of the truncated quotient; a number among the results is negative if and only if the operands' signs differ |
| FpuDivide.TieBitsAreHalfway | nemu/src/cpu/fpu.c:412-419 | A quotient of at least 40 bits lies halfway above an even magnitude if and only if its dropped bits are 100...0, its last kept bit is 0 and the result is finite |
| FpuDivide.MisroundedTest | nemu/src/cpu/fpu.c:356-420 | Whether operands are misrounded can be told before the call, from one remainder and the bits of one quotient |
| FpuLaws.MultiplicationMisreads | nemu/src/cpu/fpu.c:84-89 | A concrete product, 2^-149 * 2^19, that is representable and comes back doubled |
| FpuLaws.MultiplicationCommutes | nemu/src/cpu/fpu.c:295-339 | What multiplication returns does not depend on the order of its operands, misread products included |
| Ieee754.SumCommutes | nemu/src/cpu/fpu.c:143-250 | What addition returns does not depend on the order of its operands, bit for bit |
| FpuLaws.SubtractionAntisymmetric | nemu/src/cpu/fpu.c:264-281 | For finite operands of different value, b - a is a - b with the other sign |
| FpuLaws.OrderIsOrderOfValues | nemu/src/cpu/fpu.c:143-250 | The order of encodings, signs considered, is the order of their exact values |
| FpuLaws.AdditionMonotone | nemu/src/cpu/fpu.c:143-250 | Addition is monotone in each argument, infinities included, wherever it gives no NaN |
| FpuLaws.RepresentableSumIsExact | nemu/src/cpu/fpu.c:143-250 | A sum that is a binary32 number is returned without error |
| FpuLaws.CloseSubtractionIsExact | nemu/src/cpu/fpu.c:264-281 | Subtracting numbers of one sign within a factor of two of each other is exact |
| FpuLaws.RepresentableQuotientIsExact | nemu/src/cpu/fpu.c:356-420 | A quotient that is a binary32 number is never misrounded, and times the divisor it is the dividend, signs included |
| FpuLaws.RepresentableProductIsExact | nemu/src/cpu/fpu.c:295-339 | A product that is a binary32 number is exact, signs included, and is what multiplication returns if and only if the operands are not misread |
| FpuLaws.DivisionMisrounds | nemu/src/cpu/fpu.c:412-419 | A concrete division, 1.5 / (1 + 2^-23), whose result is not the correctly rounded quotient |
| FpuLaws.TieAbove | nemu/src/cpu/fpu.c:412-419 | A whole family of truncated quotients that look like ties above an even magnitude, at every normal scale |
| FpuStack.Registers.Load | nemu/src/cpu/fpu.c:422-426 | A load pushes its value in front of the other registers, the last of which is lost |
| FpuStack.Registers.Store | nemu/src/cpu/fpu.c:428-433 | A store returns ST(0) and rotates the registers |
| FpuStack.Registers.Peek | nemu/src/cpu/fpu.c:435-439 | A peek returns ST(0) and changes nothing |
| FpuStack.Registers.Add | nemu/src/cpu/fpu.c:441-451 | ST(0) becomes the correctly rounded sum with the operand, the other registers stay; NaN operands surface as in the addition |
| FpuStack.Registers.AddIdx | nemu/src/cpu/fpu.c:453-465 | The chosen register becomes the correctly rounded sum of ST(0) and ST(idx), the others stay; NaN operands surface as in the addition |
| FpuStack.Registers.Sub | nemu/src/cpu/fpu.c:467-478 | ST(0) becomes the correctly rounded difference ST(0) - operand, the other registers stay; NaN operands surface as in the addition |
| FpuStack.Registers.Mul | nemu/src/cpu/fpu.c:480-490 | ST(0) becomes its product with the operand as multiplication returns it, the other registers stay; canonical NaNs give a NaN |
| FpuStack.Registers.MulIdx | nemu/src/cpu/fpu.c:492-504 | The chosen register becomes the product of ST(0) and ST(idx) as multiplication returns it, the others stay; canonical NaNs give a NaN |
| FpuStack.Registers.Div | nemu/src/cpu/fpu.c:506-517 | ST(0) becomes the quotient ST(0) / operand as division returns it, the other registers stay; canonical NaNs give a NaN |
| FpuStack.Registers.Exchange | nemu/src/cpu/fpu.c:519-525 | ST(0) and ST(idx) change places, the other registers stay |
| FpuStack.Registers.Copy | nemu/src/cpu/fpu.c:527-531 | ST(idx) becomes ST(0), the other registers stay |
| FpuStack.PushedValuesComeBack | nemu/src/cpu/fpu.c:422-433 | After up to eight loads the registers hold the loaded values, last in first, with the older registers behind them |
| FpuStack.PopUndoesPush | nemu/src/cpu/fpu.c:422-433 | A store after a load returns the value and restores all registers but the last |
| ExprScan.CheckValidParentheses | nemu/src/monitor/expr.c:212-238 | The range is accepted if and only if it opens as many parentheses as it closes, counted modulo 2^32 though the depth is |
| ExprScan.SkipParentheses | nemu/src/monitor/expr.c:240-268 | From an opening parenthesis the scan stops behind the one that closes it, or fails if the range has none |
| ExprScan.CheckPairParentheses | nemu/src/monitor/expr.c:270-285 | A range is a pair if and only if its first token opens a group that ends at its last |
| Parentheses.SearchEnds | nemu/src/monitor/expr.c:240-308 | From any index, the loop of a search with skip_parentheses in it leaves the range after some number of rounds if and only if every group that it skips closes, or nothing opens behind the first token of the array |
| Parentheses.SearchEndsIfPaired | nemu/src/monitor/expr.c:212-308 | On a range that passes check_valid_parentheses the loop ends if and only if every group that it skips closes |
| Parentheses.SeparatedWalks | nemu/src/monitor/expr.c:212-308 | If no group directly follows another, these ranges are exactly those that never close more than they opened |
| Parentheses.RepeatsForEver | nemu/src/monitor/expr.c:240-308 | On ")(" skip_parentheses fails and answers 0, and the search comes back to index 1 for ever |
| Parentheses.LeavesBehindGroup | nemu/src/monitor/expr.c:240-308 | ")(1)(" passes the check and is not balanced, yet the search leaves it, as it compares the last parenthesis instead of skipping it |
| ExprScan.ComparesVisible | nemu/src/monitor/expr.c:288-331 | On balanced ranges without groups side by side the searches compare exactly the tokens outside all groups, and the one behind the range if a group ends it |
| ExprScan.FindSpecificLastOp | nemu/src/monitor/expr.c:288-308 | On every range that the search leaves, the result is the last of the tokens it compares that is the one sought; without such a token nothing is found |
| ExprScan.FindSpecificFirstOp | nemu/src/monitor/expr.c:310-331 | On every range that the search leaves or in which it meets the token, the result is the first such occurrence |
| ExprScan.FindLevel | nemu/src/monitor/expr.c:345-436 | Over one precedence level, the result is the last operator of that level that the searches compare, on every range that they leave |
| ExprScan.FindUnary | nemu/src/monitor/expr.c:437-444 | The result is the rightmost among the places at which the three unary operators are first compared; it fails only if none is |
| ExprScan.FindDomOp | nemu/src/monitor/expr.c:345-449 | On every range that the searches leave, the dominant operator is the last of the loosest-binding binary operators compared, or failing any the unary head; the search fails if and only if no operator is compared |
| ExprEval.OperandsSearchable | nemu/src/monitor/expr.c:643-700 | If the searches leave a range, they leave both operand ranges of whatever token was found in it, so the recursive calls never meet a search that does not end |
| ExprEval.PrintedBalanced | nemu/src/monitor/expr.c:212-285 | The tokens of any tree are balanced and never close more than they open |
| ExprEval.InfixDominant | nemu/src/monitor/expr.c:288-436 | In the tokens of a binary tree the dominant operator is the root's, unless its right operand ends in a group and a binary operator behind it binds no tighter |
| ExprEval.PrefixDominant | nemu/src/monitor/expr.c:437-444 | In the tokens of a unary chain the dominant operator is the chain's head, unless the operand is a group with a binary operator behind it, or a unary one that the chain does not have |
| ExprEval.EvalTokens | nemu/src/monitor/expr.c:586-779 | On any range, for whatever tree its tokens print: success exactly if the searches understand the tree and its value exists, and then that value; the range shrinks with every recursive call |
| ExprEval.EvalOperator | nemu/src/monitor/expr.c:643-779 | The same for a range that is split at its dominant operator |
| ExprEval.UnderstoodIsGroupFree | nemu/src/monitor/expr.c:288-449 | With no operator behind them, the trees that the searches understand are exactly those in which no left operand is an operator tree ending in a group; with a unary operator behind them, those of them whose last chain has it |
| ExprEval.PlainAndFullyGroupedAreGroupFree | nemu/src/monitor/expr.c:345-449 | Trees printed without parentheses, and trees with parentheses around every operator operand, are among them |
| ExprEval.EvalPrinted | nemu/src/monitor/expr.c:781-798 | Whatever stands behind the tokens of a tree, evaluating them succeeds if and only if the searches understand the tree in front of it and its value exists; the answer is the debugger's reading, and the C value if no chain mixes unary operators, each given by the meaning of its operators on integers and bits |
| ExprEval.StaleOperatorMisleads | nemu/src/monitor/expr.c:784-788 | "!(1)" has a value and is group-free, and fails in front of any binary operator and of "~", but not of "!" |
| ExprEval.GroupBeforeOperatorFails | nemu/src/monitor/expr.c:299-301 | "(1)*(1)+1" has a value in C and is never understood |
| ExprEval.TreesAreUnique | nemu/src/monitor/expr.c:345-449 | A list of tokens is printed by at most one tree of the C grammar |
| ExprTree.PrecedenceOfC | nemu/src/monitor/expr.c:345-436 | The levels bind in the order of the C grammar |
| ExprTree.JoinedTree | nemu/src/monitor/expr.c:345-436 | The tokens of two trees with any binary operator between them are printed by a tree |
| ExprTree.PrefixedTree | nemu/src/monitor/expr.c:437-444 | The tokens of a tree with any unary operator in front are printed by a tree |
| ExprOperators.ApplyMeans | nemu/src/monitor/expr.c:701-760 | The result of each of the eighteen binary operators is the one word that its meaning admits: congruent modulo 2^32 to sum, difference and product, quotient and rest with the rest below the divisor, shifts as multiples and floors by powers of two, one order for the comparisons, bits put together bit by bit |
| ExprOperators.UnaryApplyMeans | nemu/src/monitor/expr.c:748-768 | Complement adds up to 2^32 - 1 with its operand, negation is 1 exactly at 0, and a load fails exactly from 0x7fffffc up to 0xfffffffb |
| ExprOperators.LoadRange | nemu/src/monitor/expr.c:762 | The range test of the load on integers, its wrap-around included |
| ExprOperators.OneOrder | nemu/src/monitor/expr.c:715-757 | The six comparisons belong to one total order |
| ExprTree.ValueYields | nemu/src/monitor/expr.c:643-768 | The values of a tree, in C and as read by the debugger, are exactly those that the meanings of its operators give |
| ExprTree.KeptWhole | nemu/src/monitor/expr.c:437-444 | A chain of unary operators is read whole if and only if its operators are all the same |
| ExprTree.ReadsWhatIsKept | nemu/src/monitor/expr.c:437-444 | The debugger's reading is the C value of the tree without the operators it drops, and it drops none if and only if no chain mixes operators |
| ExprTree.UniformReadsAsC | nemu/src/monitor/expr.c:437-444 | Without mixed chains the debugger's reading of a tree has its C value |
| ExprTree.MixedChainMisread | nemu/src/monitor/expr.c:437-444 | A concrete mixed chain, "!~0", that the debugger evaluates to 0xffffffff instead of 0 |
| Breakpoints.Manager.InitBpList | nemu/src/monitor/breakpoint.c:13-26 | All 32 nodes are free, in the order of their numbers, and nothing is patched |
| Breakpoints.Manager.NewBp | nemu/src/monitor/breakpoint.c:28-36 | The first free node leaves the free chain marked as used; nothing else changes |
| Breakpoints.Manager.FreeBp | nemu/src/monitor/breakpoint.c:38-49 | A node goes to the front of the free chain, and the byte it replaced is back in memory if it was a breakpoint |
| Breakpoints.Manager.SetBreakpoint | nemu/src/monitor/breakpoint.c:51-64 | The first free node becomes the head with address, original byte and INT3 in place; the program can still be restored if and only if the address was not armed or holds INT3 anyway |
| Breakpoints.Manager.SetWatchpoint | nemu/src/monitor/breakpoint.c:66-84 | An expression without a value changes nothing and gives -1; otherwise the first free node becomes the head with expression and value |
| Breakpoints.Manager.FindNumber | nemu/src/monitor/breakpoint.c:86-95 | The search finds the live node of this number with its predecessor, or the end of the chain |
| Breakpoints.Manager.DeleteBreakpoint | nemu/src/monitor/breakpoint.c:86-112 | Exactly the node of this number leaves the live chain, the others keep order and contents, its patch is undone; without such a node nothing changes |
| Breakpoints.Manager.DeleteAllRecursively | nemu/src/monitor/breakpoint.c:114-122 | The chain is freed from its end: it stands in front of the free chain in its own order, and its bytes are written back with that of the first node last |
| Breakpoints.Manager.DeleteAllBreakpoint | nemu/src/monitor/breakpoint.c:124-128 | Every node is free again, and memory is the loaded program if every breakpoint remembered it |
| Breakpoints.Manager.FindBreakpoint | nemu/src/monitor/breakpoint.c:153-166 | The breakpoint set last at this address, or none |
| Breakpoints.Manager.MaskBreakpoints | nemu/src/monitor/breakpoint.c:182-193 | Every live breakpoint's byte is written back, that of the oldest last; memory is then the loaded program if every breakpoint remembers it |
| Breakpoints.Manager.ResumeBreakpoints | nemu/src/monitor/breakpoint.c:168-180 | INT3 stands at exactly the addresses of all live breakpoints, and the rest of memory is unchanged |
| Breakpoints.Manager.Execute | nemu/src/monitor/breakpoint.c:51-193 | Every command that is allowed does to chains, numbers and armed addresses what it is meant to do, and memory stays the loaded program under INT3 at the armed addresses |
| Breakpoints.Manager.Run | nemu/src/monitor/breakpoint.c:51-193 | So does any run of commands up to the first that is not allowed; unless masked, the armed addresses are those of all live breakpoints |
| Breakpoints.RunArmed | nemu/src/monitor/breakpoint.c:51-193 | Along any run of allowed commands live addresses stay distinct, armed addresses belong to live breakpoints, and to all of them unless the last command of its kind was to mask |
| Breakpoints.FindListed | nemu/src/monitor/breakpoint.c:153-166 | A breakpoint is found at an address if and only if a live one has it |
| Breakpoints.UndoneAt | nemu/src/monitor/breakpoint.c:114-122 | Where several breakpoints replaced one byte, undoing a chain leaves the byte of the one that is found there |
| Breakpoints.MaskThenResume | nemu/src/monitor/breakpoint.c:168-193 | Masking and then resuming restores memory if and only if INT3 stood at every live breakpoint before |
| Breakpoints.DeleteAllRestores | nemu/src/monitor/breakpoint.c:114-128 | Deleting all restores the program if and only if at every address the breakpoint set last remembers the program's byte |
| Breakpoints.FirstByteStays | nemu/src/monitor/breakpoint.c:114-122 | What deleting a chain leaves is the program with the byte of the breakpoint set last written over its address, if the older ones remember the program at all other addresses |
| Breakpoints.SetTwiceThenDeleteAll | nemu/src/monitor/breakpoint.c:51-128 | From any session, two breakpoints on one address and then deleting all leave the program with INT3 at that address: it is lost if and only if it had another byte there |
| Breakpoints.UndoneOverlaid | nemu/src/monitor/breakpoint.c:38-49 | Undoing any breakpoints that remember the program disarms their addresses and no others |
| LinkList.Pool.New | game/include/adt/linklist.h:45-66 | The first node of the free list is handed out without links; the pool is linked at most once, as the free head is never NULL afterwards, and live nodes are not touched; a count of the linkings is kept |
| LinkList.Pool.Insert | game/include/adt/linklist.h:77-86 | Inserting between two neighbours gives a list linked both ways with the node in that place |
| LinkList.Pool.Remove | game/include/adt/linklist.h:87-95 | Removing a node gives a list linked both ways of the other nodes in their order |
| LinkList.Pool.Free | game/include/adt/linklist.h:96-100 | The node is the next to be handed out; the free list still ends at the sentinel |
| Typing.Game.CreateNewLetter | game/src/typing/effect.c:32-50 | A new letter is the first of the list, in front of the old ones, which are unchanged: at the top, at speed 0.5, one of 26 letters in one of 38 columns as the random numbers leave remainders; its key counts as released, and every other key as before |
| Typing.Game.PressKey | game/src/typing/keyboard.c:12-22 | The search over the scan codes marks the key of this code as pressed, and no other |
| Typing.OneKeyPerCode | game/src/typing/keyboard.c:5-8 | A scan code belongs to at most one key |
| Typing.EveryLetterComes | game/src/typing/effect.c:45-49 | Every letter can come in every column, and nothing else can |
| Typing.Game.Advance | game/src/typing/effect.c:56-71 | One letter moves by its speed and keeps all else, or leaves the list at the top as a hit or at the bottom as a miss, while the traversal goes on at its old successor |
| Typing.Game.UpdateLetterPos | game/src/typing/effect.c:53-73 | All letters move at once; those off the screen are counted as hit or missed and removed, the others keep their order |
| Typing.Game.UpdateKeypress | game/src/typing/effect.c:76-102 | The lowest falling letter whose key is pressed turns upwards and keeps all else, and its key is released; false, nothing changed and interrupts enabled, if there is none |
| Typing.Game.StrikePressed | game/src/typing/game.c:56-57 | The loop over update_keypress ends, as each call leaves one letter fewer falling, and leaves interrupts enabled |
| Typing.Game.ClockTick | game/src/typing/game.c:62-92 | One tick of the main loop: a new letter every 33 ticks, then all letters move |
| Typing.Game.Run | game/src/typing/game.c:42-100 | Under any events the list follows the abstract game, new always finds a free node, at most 14 letters live, created letters are on the screen, hit or missed, and the pool has been linked at most once |
| Typing.LowestIs | game/src/typing/effect.c:82-91 | The target is an eligible letter that no eligible letter is below, and there is none if and only if no letter is eligible |
| Typing.MoveConserves | game/src/typing/effect.c:53-73 | A move loses no letter: each survives, or is a hit, or is a miss |
| Typing.StrikeAllLetters | game/src/typing/game.c:56-57 | The loop turns, for each pressed key that some falling letter has, the lowest such letter and no other |
| Typing.StrikeAllKeys | game/src/typing/game.c:56-57 | After the loop exactly the keys of falling letters have been released, and no falling letter's key is still pressed |
| Typing.AgedFew | game/src/typing/effect.c:53-73 | No letter lives longer than 448 ticks, so with one letter every 33 ticks at most 14 are alive |
| Typing.AnyRun | game/src/typing/game.c:42-100 | After any events at most 14 letters are alive, and letters, hits and misses add up to the letters created |
| PagedMemory.MaskByte | nemu/src/memory/memory.c:10-28 | For 1 to 3 bytes, the low bytes of the word |
| PagedMemory.Machine.HwMemRead | nemu/src/memory/memory.c:30-35 | The bytes at consecutive physical addresses, the lowest first |
| PagedMemory.Machine.HwMemWrite | nemu/src/memory/memory.c:37-40 | The low bytes of the word at consecutive physical addresses, and no other byte changed |
| PagedMemory.Machine.LaddrRead | nemu/src/memory/memory.c:82-124 | At any address and under any frame map, page crossed or not, byte i of the result is the byte of memory in the frame of its page at its offset in the page, or at its own address without paging |
| PagedMemory.Machine.LaddrWrite | nemu/src/memory/memory.c:126-164 | Byte i of the word is stored at that address, page crossed or not, and no other byte changes |
| PagedMemory.LiesAt | nemu/src/memory/memory.c:99-117 | That address exists for every byte and is the one that translation gives |
| PagedMemory.ReadAt | nemu/src/memory/memory.c:82-124 | The bytes of a word that has been read, one by one |
| PagedMemory.WrittenAt | nemu/src/memory/memory.c:126-164 | The bytes of memory after a write, one by one |
| PagedMemory.PhysInjective | nemu/src/memory/memory.c:126-164 | The bytes of one access never share a physical address, even if two pages share a frame |
| PagedMemory.ReadBack | nemu/src/memory/memory.c:82-164 | What was written is read back, also through another linear address that leads to the same bytes |
| PagedMemory.LastWriteWins | nemu/src/memory/memory.c:30-40 | After any writes, each byte of memory is that of the last write whose translated bytes include it, else the initial one |
| PagedMemory.Machine.WriteAllThenRead | nemu/src/memory/memory.c:82-164 | A read after any run of writes returns the bytes of the memory so described, aliased frames included |
| Alu.SignExtIs | nemu/include/cpu/alu.h:44-56 | Sign extension keeps the low bits and adds ones above if and only if the top one of them is set |
| Alu.SignExtMonotone | nemu/src/cpu/alu.c:26-30 | Sign-extended operands compare as 32-bit unsigned words like the unsigned operands themselves |
| Alu.Cpu.SetPF | nemu/src/cpu/alu.c:14-24 | PF says whether the number of places below 8 at which the result has a one is even |
| Alu.CountOnes | nemu/src/cpu/alu.c:14-24 | The loop counts these places |
| Alu.Cpu.SetCFAdd | nemu/src/cpu/alu.c:26-30 | CF is the unsigned comparison of result and operand at the operand size |
| Alu.Cpu.SetOFAdd | nemu/src/cpu/alu.c:32-57 | OF is set if and only if both operands have one sign and the result the other |
| Alu.SumOverflow | nemu/src/cpu/alu.c:26-95 | The comparisons with and without carry are exactly the carry out of the sum, and the sign rule is exactly its signed overflow |
| Alu.Cpu.Add | nemu/src/cpu/alu.c:59-71 | Sum, carry, signed overflow, zero, sign and parity at each width |
| Alu.Cpu.Adc | nemu/src/cpu/alu.c:82-95 | The same with the old carry added |
| Alu.InvalidComplement | nemu/src/cpu/alu.c:106-132 | The test for the least number succeeds for it at 32 bits and never at 8 or 16 |
| Alu.DifferenceOverflow | nemu/src/cpu/alu.c:106-256 | The comparisons with and without borrow are exactly the borrow, and the rule on the negated operand is exactly signed overflow, the least number included |
| Alu.Cpu.SetOFSbb | nemu/src/cpu/alu.c:188-256 | OF is set if and only if the signed difference, less the borrow, does not fit |
| Alu.Cpu.Sub | nemu/src/cpu/alu.c:161-174 | Difference, borrow, signed overflow, zero, sign and parity at each width |
| Alu.Cpu.Sbb | nemu/src/cpu/alu.c:258-271 | The same with the old carry subtracted |
| Alu.Comparisons | nemu/include/cpu/instr_helper.h:169-218 | After a subtraction each of the ten conditions holds if and only if the comparison it is named for does, unsigned or signed |
| Alu.AddLimbs | nemu/src/cpu/alu.c:59-95 | An add followed by adc on the further limbs adds numbers of any length, and the final carry is the carry out |
| Alu.SubLimbs | nemu/src/cpu/alu.c:161-271 | A sub followed by sbb on the further limbs subtracts them, and the final carry is set if and only if the subtrahend is larger |
| Alu.Cpu.Shl | nemu/src/cpu/alu.c:417-438 | For any count, the product with a power of two at the operand size, and in CF the last bit shifted out |
| Alu.Cpu.Shr | nemu/src/cpu/alu.c:441-463 | For any count, the unsigned quotient rounded down, and in CF the last bit shifted out |
| Alu.Cpu.Sar | nemu/src/cpu/alu.c:466-491 | For any count, the signed quotient rounded down, and in CF the last bit shifted out |
| Alu.Cpu.Sal | nemu/src/cpu/alu.c:494-515 | The same as a logical left shift |
| Alu.ShiftLeftTwice | nemu/src/cpu/alu.c:417-515 | The two left shifts agree on result and all flags |
| Alu.LeftShiftNext | nemu/src/cpu/alu.c:423-428 | One round of the shift loop: the top bit that leaves is the next bit of the shifted number |
| PageTables.Kernel.InitPage | kernel/src/memory/kvm.c:12-45 | A walk maps every address below 128 MByte to itself, every address from 0xC0000000 to 0xC8000000 to its offset, and nothing else; paging is on with this directory |
| PageTables.Kernel.FillTable | kernel/src/memory/kvm.c:34-39 | The inner loop fills one table with the next 1024 frames, and no other word changes |
| PageTables.Kernel.EnterTable | kernel/src/memory/kvm.c:30-40 | One round of the outer loop enters one more table twice and fills it, leaving the earlier ones |
| PageTables.KernelWalk | kernel/src/memory/kvm.c:12-45 | The finished tables lead every address where the kernel map says |
| PageTables.Kernel.InitMm | kernel/src/memory/mm.c:25-37 | The user's directory walks like the kernel's from 0xC0000000 on and maps nothing below |
| PageTables.Kernel.CreateVideoMapping | kernel/src/memory/vmem.c:11-43 | The 16 pages of the screen map to themselves; any other page below 4 MByte is mapped as frame 0 happens to say |
| PageTables.OtherWalk | kernel/src/memory/vmem.c:26-43 | No walk that avoids the first user entry and frame 0 is changed by the video mapping |
| PageTables.Kernel.SetUp | kernel/src/memory/vmem.c:11-43 | After all three, the kernel's map is whole and the user finds the kernel above, the screen, the words of frame 0 below 4 MByte, and nothing else |

## Left out

- Fpu.FloatAdd: which NaN is returned is not stated, and payloads are not modelled.
- Fpu.FloatSub: which NaN is returned is not stated.
- Fpu.FloatMul: promises a NaN for canonical NaN operands only.
- FpuDivide.FloatDiv: promises a NaN for canonical NaN operands only.
- FpuNormalize.Normalize: says nothing about exponents from 255 on with significands below 2^27; no caller produces them.
- ExprEval.EvalTokens: leaves out the ranges on which the C search does not end, which `Parentheses.SearchEndsIfPaired` describes exactly, and token arrays that start with a binary operator or are empty, for which the C code takes the index before the array; the token array must hold one token behind the range. Nothing is said about the value of tokens that print no tree.
- ExprEval.EvalOperator: leaves out the same ranges, and those that eval_tokens does not split.
- ExprTree.UniformReadsAsC: both operands of && and || are evaluated, as the debugger does, so an invalid load in one that C would not evaluate counts as a failure; a division by zero and a shift by 32 or more yield an arbitrary value, and the trap that the host may take is not modelled.
- Breakpoints.Manager.SetBreakpoint: assumes that the address is in memory and a node is free; the C code stops otherwise. Memory is a flat array, as seen through the debugger's virtual addresses.
- Breakpoints.Manager.SetWatchpoint: the value of the expression comes in from outside; strings are not allocated or freed.
- LinkList.Pool.New: assumes a free node that is followed by another, as the C code asserts.
- Typing.Game.Advance: the counters do not overflow.
- PagedMemory.Machine.LaddrRead: assumes room for the bytes that the C code fetches behind the end of a frame before masking them.
- PagedMemory.Machine.WriteAllThenRead: assumes the same room for its read.
- Alu.Cpu.Shr: the overflow flag is stated as the code sets it, not as the processor would.
- Alu.Cpu.Sar: the overflow flag is stated as the code sets it, not as the processor would; the flags at count 0 are those of the code, too.
- PageTables.Kernel.SetUp: pages that the loader allocates for the user between the steps are not modelled; the static tables are assumed to lie in memory, apart from each other and not in frame 0.
- fpu_cmp and fpu_cmpi, which compare host floats.
- make_token: the tokens are the start of the model; regular expressions and number parsing are host library calls.
- scan_watchpoint and list_breakpoint, which evaluate and print.
- Cache, TLB, memory-mapped devices and segmentation in front of laddr_read and laddr_write.
- page_translate beyond an arbitrary map from pages to frames.
- alu_mul, alu_imul, the divisions and the bitwise operations of the integer unit, which would add single-expression members or, for the flags of alu_imul, a claim that does not hold.
- mm_brk and mm_malloc; mm_malloc is not part of this model.
- Drawing, frame statistics and the interrupt handlers of the game.

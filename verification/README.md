# Verified models of INET's `common/` algorithms

INET is a model library for the OMNeT++ network simulator. Its `common/` directory holds the
self-contained algorithms that the rest of the library builds on. This project models the ones with
deep invariants in Dafny and proves what they promise. One module (or a small group) stands for one
source file, and code that updates objects in place is modelled by classes whose methods do the same
updates in the same order.

- **Interval tree** (`IntervalNodes.dfy`, `IntervalQueries.dfy`, `IntervalTree.dfy`, `IntervalRuns.dfy`): an augmented
  red-black tree with parent pointers, a shared `nil` and a sentinel root, on the heap. Insertion,
  deletion by node and by interval, rotations, the upkeep of `max_high`, the successor, and the
  overlap query with its explicit, growing stack. The algorithms are those of Cormen, Leiserson and
  Rivest, *Introduction to Algorithms*. A node of the linked structure is tied to a mathematical tree
  and a path (`Tree`, `Ctx`), and every pointer move refines a move of that pair. Instead of reasoning
  about disjoint sets of nodes, each node carries a ghost rank (a real number) that increases from
  left to right.
- **Int128** (`Powers.dfy`, `Words.dfy`, `Int128.dfy`): a signed 128-bit number in two machine words,
  against mathematical integers modulo 2^128. Words are integers with explicit wrap-around; signed
  overflow is taken to wrap, and `>>` on negative words to extend the sign.
- **Macho** (`Macho.dfy`): the hierarchical state machine engine. The state tree is a datatype value;
  what user actions ask for comes from a script that may hold any requests; entry, exit, init and
  handler calls are recorded in a trace.
- **PatternMatcher** (`PatternMatcher.dfy`, `PatternTexts.dfy`): the glob tokenizer and the backtracking
  matcher, and the texts that the tokenizer reads as given elements.
- **Message dispatching** (`MessageDispatcher.dfy`): registration of services and protocols through a
  network of dispatcher objects, and the table lookups that route packets.
- **Memory streams** (`MemoryStreams.dfy`): the bit writer and the bit reader.
- **Init stages** (`InitStageRegistry.dfy`), **UtilizationFilter** (`UtilizationFilter.dfy`, over
  `real`), **IntrusivePtr** (`IntrusivePtr.dfy`) and **n_choose_k** (`InetMath.dfy`, over `real`).

`dafny verify dfyconfig.toml` checks everything.

## Where the code does not meet its promise

Each of these is stated exactly, with the condition under which the promise holds.

- `IntervalTree::query` prunes a right subtree on the strength of `nil`'s `max_high`. For a query whose
  lower end is the smallest time it can miss intervals: `SearchFromMinimum` gives the condition,
  `BlindSpot` a tree of two nodes.
- `Int128::operator<` is wrong exactly when two negative numbers have equal high words and low words on
  different sides of 2^63 (`LessExactly`).
- `Int128::div` of the most negative number returns quotient 0 and that number as the remainder;
  printing it gives `-0`, so printing and reading back fails for this value alone (`TextParses`).
- `Int128::set` takes one letter too many as a digit: `a` in decimal and `g` in hexadecimal, in either case
  (`DigitTable`). `Int128::toString` accepts radix 37, where the largest digit prints as `[`
  (`DigitsArePlaces`).
- The documentation of `PatternMatcher` says that a backslash takes away the special meaning of the next
  character. An escaped `[` still starts a number range. `EscapeSpecialsMatches` says exactly when a text
  with its special characters escaped matches itself: when none of its brackets begins what reads as a
  range. With every character escaped the promise always holds (`EscapedMatches`).
- `MemoryOutputStream::writeByte` puts a byte in its place for every value only at whole and half bytes
  (`WriteByteExactly`).
- `n_choose_k` yields 1 for negative `k` not above `n` (`NChooseK`).

## Model

| member | source | states |
|---|---|---|
| IntervalTrees.IntervalTree.LeftRotateAt | common/IntervalTree.cc:110-132 | the pointer updates turn the subtree into its left rotation, keep every parent link and leave the rest of the heap's tree alone |
| IntervalTrees.IntervalTree.RightRotateAt | common/IntervalTree.cc:134-155 | the mirror image |
| IntervalNodes.RotLKeeps | common/IntervalTree.cc:110-132 | a left rotation keeps the in-order sequence and the exact `max_high` of the subtree |
| IntervalNodes.RotRKeeps | common/IntervalTree.cc:134-155 | a right rotation keeps both too |
| IntervalNodes.Base.RotLRep | common/IntervalTree.cc:110-132 | the nine field updates of a left rotation carry the linked form of a tree to that of the rotated tree, for any surrounding tree |
| IntervalTrees.IntervalTree.RecursiveInsert | common/IntervalTree.cc:158-178 | the new node becomes a leaf at a place where its key fits between all nodes before and after it |
| IntervalNodes.InsertedSorted | common/IntervalTree.cc:158-178 | filling such a place adds exactly one node to the in-order sequence and keeps the keys sorted |
| IntervalTrees.IntervalTree.FixupMaxHigh | common/IntervalTree.cc:180-186 | every `max_high` on the path to the sentinel becomes the maximum of the node and its subtrees; nothing else changes |
| IntervalNodes.RefitExact | common/IntervalTree.cc:180-186 | after that walk the whole tree's `max_high` fields are exact |
| IntervalTrees.IntervalTree.Insert | common/IntervalTree.cc:188-240 | adds one new node, holding the interval, to the in-order sequence and the interval to the stored ones; the tree stays sorted, balanced in the red-black sense, with a black root, consistent parent links and exact `max_high` |
| IntervalTrees.IntervalTree.InsertFixup | common/IntervalTree.cc:199-238 | the colour repair loop ends in a red-black tree with the same in-order sequence |
| IntervalNodes.RecolourKeeps | common/IntervalTree.cc:201-208 | the recolouring case moves the red violation up and keeps black heights |
| IntervalNodes.TurnRKeeps | common/IntervalTree.cc:209-217 | the rotation case ends the violation and keeps order, black heights and `max_high` |
| IntervalNodes.TurnLKeeps | common/IntervalTree.cc:227-235 | the mirror image |
| IntervalNodes.InsertDone | common/IntervalTree.cc:199-238 | with no red parent left, blackening the root gives a red-black tree |
| IntervalNodes.HeightBound | common/IntervalTree.cc:188-240 | a red-black tree of n nodes has a height h with 2^h at most (n+1)^2 |
| IntervalTrees.IntervalTree.GetMinimum | common/IntervalTree.cc:242-247 | the leftmost node of a subtree |
| IntervalTrees.IntervalTree.GetSuccessor | common/IntervalTree.cc:256-270 | the next node in order; after the last one, the sentinel root |
| IntervalTrees.IntervalTree.DeleteFixup | common/IntervalTree.cc:324-384 | the loop repairs one missing black anywhere in the tree, although the node taken to be the root is read once before rotations replace it; the in-order sequence stays |
| IntervalNodes.Case1Left | common/IntervalTree.cc:332-337 | a red sibling is turned into a black one with the deficit kept where it was |
| IntervalNodes.Case2 | common/IntervalTree.cc:338-341 | a sibling with black children turns red and the deficit moves to the parent |
| IntervalNodes.Case3Left | common/IntervalTree.cc:343-348 | the inner red child of the sibling is rotated outside |
| IntervalNodes.Case4Left | common/IntervalTree.cc:349-353 | the last rotation removes the deficit |
| IntervalNodes.DeficitDone | common/IntervalTree.cc:329-383 | blackening the node at the end of the loop gives a red-black tree |
| IntervalTrees.IntervalTree.SpliceAt | common/IntervalTree.cc:416-428 | splicing out a node with at most one child puts that child in its place and sets its parent, also when the child is `nil` |
| IntervalTrees.IntervalTree.TakePlaceAt | common/IntervalTree.cc:432-441 | the spliced-out successor takes the place of the deleted node with all links |
| IntervalNodes.SuccessorRemoves | common/IntervalTree.cc:416-457 | moving the successor into the place of the node removes exactly that node from the in-order sequence |
| IntervalNodes.SuccessorHole | common/IntervalTree.cc:443-449 | what is left of the black heights and `max_high` fields after that move is one deficit at the successor's old place |
| IntervalTrees.IntervalTree.DeleteNode | common/IntervalTree.cc:410-460 | removes exactly the given node, and its interval from the stored ones; order, colours, black heights, black root, parent links and `max_high` stay right; returns the interval |
| IntervalTrees.IntervalTree.RecursiveSearch | common/IntervalTree.cc:393-408 | a node that stores the interval, or `nil` if there is none |
| IntervalTrees.IntervalTree.DeleteInterval | common/IntervalTree.cc:386-391 | removes one node that stores the interval, or changes nothing if there is none; the multiset of stored intervals loses it once |
| IntervalQueries.InsertedStored | common/IntervalTree.cc:188-240 | one more node in order is one more stored interval at its place |
| IntervalQueries.RemovedStored | common/IntervalTree.cc:410-460 | one node less in order is one stored interval less |
| IntervalRuns.Run | common/IntervalTree.cc:188-514 | after any list of insertions, deletions by interval or by node, and queries, the tree holds what was inserted and not deleted; each query was answered with exactly the overlapping intervals that were stored then (for a lower end above the smallest time, and intervals with low not above high); the height is at most 2 * log2(n + 1) for the n stored intervals |
| IntervalNodes.Base.RankOrder | common/IntervalTree.cc:188-240 | no node occurs twice in a linked tree |
| IntervalTrees.IntervalTree.Query | common/IntervalTree.cc:473-514 | for a lower end above the smallest time and stored intervals with low not above high, the result holds each overlapping interval exactly as often as it is stored and nothing else; for any arguments nothing else; the tree and the stack level are back as before, and the stack grows to at most twice the height |
| IntervalTrees.IntervalTree.Collect | common/IntervalTree.cc:473-514 | the stack loop yields what the recursive search with the same pruning yields, in the same order |
| IntervalTrees.IntervalTree.Backtrack | common/IntervalTree.cc:503-511 | popping frames without a hit loses no answer |
| IntervalQueries.SearchComplete | common/IntervalTree.cc:482-511 | the pruned search equals the full search although a right subtree is visited only after a hit on its left |
| IntervalQueries.PrunedRight | common/IntervalTree.cc:486-501 | no hit on the left, where `max_high` reaches the query, means no hit on the right |
| IntervalQueries.SearchAnswers | common/IntervalTree.cc:463-514 | the search compared, as multisets, with a linear scan of the stored intervals |
| IntervalQueries.ScanExact | common/IntervalTree.cc:463-471 | a linear scan for a proper query keeps each proper interval as often as it is stored if some point of time lies in both, and never otherwise |
| IntervalQueries.SearchFromMinimum | common/IntervalTree.cc:486-511 | for a query from the smallest time: it finds everything if and only if no node without a left child hides an answer on its right |
| IntervalQueries.BlindSpot | common/IntervalTree.cc:486-511 | two nodes for which such a query misses an answer |
| Int128Arithmetic.Int128.AddAssign | common/Int128.cc:202-212 | addition modulo 2^128, also of a number to itself |
| Int128Arithmetic.JoinAdd | common/Int128.cc:202-212 | adding the words with the carry is addition modulo 2^128 |
| Int128Arithmetic.Int128.Negated | common/Int128.cc:160-166 | negation modulo 2^128 |
| Int128Arithmetic.Int128.SubAssign | common/Int128.h:128-131 | subtraction modulo 2^128 |
| Int128Arithmetic.Int128.ShiftLeft | common/Int128.cc:350-378 | multiplication by 2^n modulo 2^128 for every n |
| Int128Arithmetic.JoinShiftLeft | common/Int128.cc:361-375 | the masks and shifts of the two words multiply their joint value |
| Int128Arithmetic.Int128.ShiftRight | common/Int128.cc:319-348 | floor division by 2^n, extending the sign, for every n |
| Int128Arithmetic.JoinShiftRight | common/Int128.cc:332-345 | the masks and shifts of the two words divide their joint value |
| Int128Arithmetic.Int128.MulAssign | common/Int128.cc:214-235 | the product modulo 2^128 of any two signed numbers, also of a number with itself |
| Int128Arithmetic.PartialStep | common/Int128.cc:227-232 | one round adds the product with one more bit of the factor |
| Int128Arithmetic.Int128.Div | common/Int128.cc:237-287 | for any divisor but 0 and the most negative number: quotient and remainder round toward zero if and only if the dividend is not the most negative number, and for that one the quotient is 0 and the remainder the dividend; the remainder may be the dividend or the divisor object |
| Int128Arithmetic.Int128.AlignDivisor | common/Int128.cc:256-262 | the first loop ends, at the highest bit where the divisor fits, without leaving the range, although its counter wraps below zero |
| Int128Arithmetic.Int128.DivideMagnitudes | common/Int128.cc:264-276 | the second loop ends with the quotient and remainder of the magnitudes |
| Int128Arithmetic.DivisionBit | common/Int128.cc:265-271 | the partial remainder never exceeds the dividend's bits read so far, so the shift never reaches the sign bit |
| Int128Arithmetic.DivisionFits | common/Int128.cc:272-275 | subtracting and setting a quotient bit that is still clear keeps dividend = quotient * divisor + rest |
| Int128Arithmetic.TruncatedUnique | common/Int128.cc:237-287 | quotient and remainder are determined by dividend = q * d + r, the size of r and its sign |
| Int128Arithmetic.Int128.DivAssign | common/Int128.h:133-138 | the truncated quotient; 0 for the most negative number |
| Int128Arithmetic.Int128.ModAssign | common/Int128.h:140-144 | the truncated remainder, written over the dividend itself; the most negative number stays as it is |
| Int128Arithmetic.Int128.HasBit | common/Int128.cc:289-298 | bit n of the two's complement number, the sign from bit 128 on |
| Int128Arithmetic.Int128.SetBit | common/Int128.cc:300-317 | the number with bit n replaced |
| Int128Arithmetic.ReplacedBits | common/Int128.cc:300-317 | that number differs in no other bit |
| Int128Arithmetic.LessExactly | common/Int128.cc:380-389 | the comparison is right exactly outside one family of negative pairs |
| Int128Arithmetic.Int128.ToString | common/Int128.cc:37-62 | sign and digits for every radix from 2 to 37, `0`, the error text otherwise, and `-0` for the most negative number |
| Int128Arithmetic.Int128.PrintDigits | common/Int128.cc:52-56 | the digit loop ends because the number is used up: at least half of the buffer stays free |
| Int128Arithmetic.Int128.Set | common/Int128.cc:64-107 | the parsed number modulo 2^128 for every text; what texts mean is stated by `DigitsRead` |
| Int128Arithmetic.ParseWraps | common/Int128.cc:88-102 | wrapping in every round gives the same as wrapping once |
| Int128Arithmetic.DigitTable | common/Int128.cc:90-99 | which characters are digits, and of what value, in radix 8, 10 and 16: those of two written-out tables, one for each case |
| Int128Arithmetic.DigitsRead | common/Int128.cc:72-106 | a sign, the prefix of the radix and digits in either case, mixed too, are read as the positional sum of the digits; the first character that is no digit of the radix ends the number |
| Int128Arithmetic.AnyCaseParses | common/Int128.cc:72-106 | the printed digits of a number, each turned to lower case or not, read back as that number |
| Int128Arithmetic.DigitsArePlaces | common/Int128.cc:52-56 | each printed digit is the table entry of one place of positional notation |
| Int128Arithmetic.PlacesSum | common/Int128.cc:52-56 | the places of a number sum up to it, for every radix from 2 to 37 |
| Int128Arithmetic.NotationParses | common/Int128.cc:64-107 | sign, radix prefix and digits of any number in radix 8, 10 or 16 read back as the number |
| Int128Arithmetic.TextParses | common/Int128.cc:37-107 | `set` undoes `toString` in radix 10 for a number if and only if it is not the most negative one |
| Words.OrDisjoint | common/Int128.cc:342 | operands without a common bit are added by `\|` |
| Words.AndHigh | common/Int128.cc:366-369 | the mask of the upper bits clears the lower ones |
| Words.AndNotPow | common/Int128.cc:312-315 | the complement of one bit clears that bit |
| Macho.LeftIsPivot | common/Macho.cc:156-173 | the exits stop at the deepest superstate that properly contains the new state |
| Macho.SamePivot | common/Macho.cc:139-173 | entries start where exits stopped |
| Macho.TransitionExactly | common/Macho.cc:139-173 | which states a transition exits and which it enters: for self, ancestor, descendant and cross transitions alike |
| Macho.RunDisciplined | common/Macho.cc:139-187 | the stack discipline of a trace, judged by counting entries and exits only: the traces accepted are those in which a state is entered from the innermost state, its superstate, is exited as the innermost one, and init and handlers run in the innermost one; what is entered once more than exited is then a path |
| Macho.Machine.CurrentPathOpen | common/Macho.cc:339-402 | whenever the machine is between calls its whole trace is disciplined, and each state has been entered once more than exited if it is on the path to the current state, and else as often |
| Macho.Machine.Enter | common/Macho.cc:139-154 | entries outermost first, ending with the path to the state entered, and a box made for exactly the states entered that have one |
| Macho.Machine.Leave | common/Macho.cc:156-173 | exits innermost first, deleting exactly the boxes of the states left that are not persistent |
| Macho.Machine.SaveHistory | common/Macho.h:276-298 | bubbling history up sets every superstate that keeps history and no other |
| Macho.SavedStep | common/Macho.h:685-689 | one step of the bubbling, for each strategy |
| Macho.Machine.SetHistorySuper | common/Macho.h:733-739 | right after a state is left, each shallow superstate holds its child on the path to it and each deep one holds the state |
| Macho.SavedIsOk | common/Macho.h:727-739 | so every history stays a proper substate of its owner |
| Macho.Machine.InitState | common/Macho.cc:175-187 | goes to the history if asked and there is one, else runs the init action; the history of the state is cleared |
| Macho.Machine.Transit | common/Macho.cc:345-393 | one transition does exactly what the step relation `Turns` says: its trace, boxes, the history saved, and what is pending: the saved history if asked for, or what the init action asked for; the check "proper substates" fails only for a request of the user's init action |
| Macho.TurnsUnique | common/Macho.cc:339-402 | that relation leaves a machine no choice: from every point at most one next point |
| Macho.Machine.Settle | common/Macho.cc:347-393 | the inner loop is a run of transitions, each into the state that the last initializer asked for or the history saved then, up to one that asks for nothing; it ends because it goes down the tree |
| Macho.Machine.RattleOn | common/Macho.cc:339-402 | performs a run of transitions and events that ends with nothing pending or with a fault; wanted states go before events, and what each handler asked for is done next |
| Macho.LeadsUnique | common/Macho.cc:339-402 | where such a run ends is determined by where it starts |
| Macho.InitGoesOn | common/Macho.cc:347-393 | an init action that asks for a substate is followed by the transition into it, and the machine ends there |
| Macho.HistoryGoesBack | common/Macho.cc:175-187 | a transition to the history of a state ends in the substate saved when it was left |
| Macho.Machine.Start | common/Macho.cc:248-266 | the run from Root with the start state wanted, with all invariants |
| Macho.Machine.Shutdown | common/Macho.cc:268-278 | the run to Root: exits exactly the states on the current path, innermost first, and leaves nothing entered |
| Macho.Machine.Dispatch | common/Macho.h:1906-1916 | the handler of the current state comes first, then the run for what it asked for and posted; all invariants are kept |
| Macho.Machine.ClearHistory | common/Macho.h:2109-2114 | forgets one history |
| Macho.Machine.ClearHistoryDeep | common/Macho.cc:298-306 | forgets exactly the histories of a state and its substates |
| Macho.Machine.GetInstance | common/Macho.h:2084-2094 | makes the instances of a state and its superstates and no others |
| PatternMatcher.PatternMatcher.DoMatch | common/PatternMatcher.cc:241-336 | true exactly when the line splits into pieces matched by the elements in order |
| PatternMatcher.PatternMatcher.Matches | common/PatternMatcher.cc:338-362 | the same for the whole pattern, with the check of the last two characters |
| PatternMatcher.LastTwo | common/PatternMatcher.cc:348-358 | that check refuses only lines that do not match |
| PatternMatcher.TrailingAnyLiteral | common/PatternMatcher.cc:303-304 | for `**` and a last literal it is enough that the line ends in the literal |
| PatternMatcher.TrailingAny | common/PatternMatcher.cc:301-302 | a last `**` takes everything |
| PatternMatcher.StepSequence | common/PatternMatcher.cc:306-324 | trying lengths one by one is complete |
| PatternMatcher.NumRangeLength | common/PatternMatcher.cc:287-295 | a number takes the maximal run of digits and nothing else |
| PatternMatcher.AcceptsFirst | common/PatternMatcher.cc:241-336 | a line splits exactly when its first piece and the rest do |
| PatternMatcher.PatternMatcher.SetPattern | common/PatternMatcher.cc:32-93 | ends for every pattern and dialect, although a literal may stop without using up its `[`; stores the compiled elements, which `PatternTexts.ShowParses` and `PatternTexts.WriteParses` describe, or reports what is wrong |
| PatternMatcher.PatternMatcher.ParseNumRange | common/PatternMatcher.cc:147-174 | finds a range exactly where two dots between optional digits and the closing character stand; then yields the two numbers, -1 for none, and the place of the closing character |
| PatternMatcher.PatternMatcher.ParseLiteralString | common/PatternMatcher.cc:131-145 | the text with escapes resolved, up to a wildcard or just after a `[` that starts a range |
| PatternMatcher.PatternMatcher.ParseSet | common/PatternMatcher.cc:95-129 | a set ends at the first closing brace behind its first character; without one the error is reported |
| PatternTexts.SetReads | common/PatternMatcher.cc:95-129 | the characters and ranges written between braces are read back as they are, a `}` as the first, a `-` as the last of them |
| PatternTexts.ShowsRange | common/PatternMatcher.cc:147-174 | two decimal numbers, or none, written around dots are read back |
| PatternTexts.ShowParses | common/PatternMatcher.cc:32-93 | the tokenizer reads the escaped notation of any list of elements that has one as that list, in both dialects and both modes |
| PatternTexts.WriteParses | common/PatternMatcher.cc:32-93 | it reads the notation without escapes too: literals stand for themselves, and `[lo..up]` at the beginning, after any element or in a literal is a literal up to the bracket, the range, and a literal from the closing bracket on |
| PatternTexts.BracketedNumber | common/PatternMatcher.h:34 | the pattern `[lo..up]` matches exactly the numbers in the range between brackets, with either bound left out or not |
| PatternTexts.MatchWritten | common/PatternMatcher.cc:338-362 | setting a pattern from either notation and matching a line tells whether the line splits into pieces matched by the elements |
| PatternMatcher.RunsOver | common/PatternMatcher.cc:131-145 | the scan passes the end of a pattern only if its last character is a backslash |
| PatternMatcher.PlainMatches | common/PatternMatcher.cc:390-395 | a pattern without wildcards matches exactly itself, in both dialects |
| PatternMatcher.PlainOccurs | common/PatternMatcher.cc:81-89 | in substring mode it matches exactly the lines that contain it |
| PatternMatcher.WidenedAccepts | common/PatternMatcher.cc:81-89 | in substring mode a line matches exactly when the elements match from some place on with anything left over |
| PatternTexts.EscapedMatches | common/PatternMatcher.h:31 | with every character escaped a pattern matches exactly the text |
| PatternTexts.EscapeSpecialsMatches | common/PatternMatcher.cc:131-145 | a pattern made by escaping the special characters of any text compiles, and matches that text if and only if none of its brackets begins what reads as a number range; then it matches nothing else |
| PatternTexts.SpecialsLiteral | common/PatternMatcher.cc:137-143 | a literal of escaped text goes on to its end or stops at the first bracket that begins a range, escaped or not |
| PatternTexts.EscapedBracket | common/PatternMatcher.cc:137-143 | the same for a text of which only the bracket at its beginning is special |
| MessageDispatching.MessageDispatcher.HandleRegister | common/MessageDispatcher.cc:289-395 | in any network the flood ends, entries never change and only the key is added; in a tree of idle dispatchers that do not know the key it succeeds and binds the key exactly in the dispatchers that forwarding ones connect with this one, to the gate toward the registrant; a dispatcher that does not forward writes its own table only; with the key already bound nothing changes and the call succeeds exactly for the same gate; a busy dispatcher ignores the reflected registration |
| MessageDispatching.MessageDispatcher.Bind | common/MessageDispatcher.cc:298-315 | the entry of one dispatcher and, if it forwards, what is reached beyond all its gates |
| MessageDispatching.MessageDispatcher.PassOn | common/MessageDispatcher.cc:310-312 | the loop does what is reached beyond all gates, in order |
| MessageDispatching.MessageDispatcher.Register | common/IProtocolRegistrationListener.cc:14-22 | one step to the neighbour does what is reached beyond that gate, or nothing |
| MessageDispatching.Net.BeyondGate | common/IProtocolRegistrationListener.cc:83-91 | the dispatchers beyond a gate are those that reach the origin through the neighbour at it |
| MessageDispatching.Net.ReachedKid | common/MessageDispatcher.cc:307-313 | what a forwarding dispatcher gets to beyond a gate is what the neighbour there gets to |
| MessageDispatching.PartlyKid | common/MessageDispatcher.cc:310-312 | flooding the subtree of one more gate completes the part of the tree done so far |
| MessageDispatching.ReadyKid | common/MessageDispatcher.cc:310-312 | the subtree beyond the next gate is untouched by the floods before it |
| MessageDispatching.FloodedHere | common/MessageDispatcher.cc:307-313 | a dispatcher that does not forward gets to itself only |
| MessageDispatching.LookUpExactly | common/MessageDispatcher.cc:150-166 | a packet has a gate exactly if there is an entry for its protocol or for any protocol, and the former goes first |
| MessageDispatching.FloodRoutes | common/MessageDispatcher.cc:150-166 | after the flood the lookups send packets for the protocol, or for any protocol, to the gate toward the registrant |
| MessageDispatching.HopCloser | common/MessageDispatcher.cc:150-186 | following that gate comes one hop closer each time |
| MessageDispatching.PacketsArrive | common/MessageDispatcher.cc:150-186 | from every dispatcher that the flood reached packets get to the registrant's dispatcher in as many hops as it is away |
| MessageDispatching.Announce | common/MessageDispatcher.cc:289-395 | end to end: in a tree where no dispatcher is busy the first registration of a key succeeds and binds it exactly in the dispatchers that forwarding ones connect with the registrant; packets it serves then get from all of these to the registrant in as many hops as the distance, and the others have no gate for them but by entries of their own |
| MessageDispatching.ForwardingTree | common/MessageDispatcher.cc:289-395 | where all dispatchers forward these are all dispatchers |
| MemoryStreams.MemoryOutputStream.WriteBit | common/MemoryOutputStream.h:92-101 | appends the bit |
| MemoryStreams.MemoryOutputStream.WriteByte | common/MemoryOutputStream.h:127-137 | appends the eight bits at whole and half bytes; at any other place, exactly which bytes are stored |
| MemoryStreams.WriteByteExactly | common/MemoryOutputStream.h:131-134 | inside a byte the two parts are in their place for every value if and only if half of it is used |
| MemoryStreams.MemoryOutputStream.WriteBytes | common/MemoryOutputStream.h:152-160 | appends the bits of all bytes |
| MemoryStreams.MemoryOutputStream.WriteUint2 | common/MemoryOutputStream.h:179-182 | appends the two low bits |
| MemoryStreams.MemoryOutputStream.WriteUint4 | common/MemoryOutputStream.h:188-193 | appends the four low bits |
| MemoryStreams.MemoryOutputStream.WriteUintBe | common/MemoryOutputStream.h:207-302 | appends the low bytes of a number, most significant first, at whole and half bytes; at any other place, exactly which bytes are stored |
| MemoryStreams.MemoryOutputStream.WriteUintLe | common/MemoryOutputStream.h:216-317 | the same, least significant first |
| MemoryStreams.MemoryOutputStream.WriteString | common/MemoryOutputStream.h:354-357 | appends the bytes and a zero |
| MemoryStreams.MemoryOutputStream.WriteNBits | common/MemoryOutputStream.h:363-371 | appends the n low bits, or reports the error |
| MemoryStreams.MemoryInputStream.ReadBit | common/MemoryInputStream.h:138-152 | the next bit, or false and the mark of reading beyond the end |
| MemoryStreams.MemoryInputStream.ReadByte | common/MemoryInputStream.h:184-203 | the next eight bits at any offset, or the mark and a move to the end |
| MemoryStreams.Straddle | common/MemoryInputStream.h:195-198 | the shifted halves of two bytes make the byte between them |
| MemoryStreams.MemoryInputStream.ReadUint2 | common/MemoryInputStream.h:257-262 | the next two bits, with zeros for those behind the end, which is marked |
| MemoryStreams.MemoryInputStream.ReadUint4 | common/MemoryInputStream.h:268-275 | the next four bits, with zeros for those behind the end, which is marked |
| MemoryStreams.MemoryInputStream.ReadBytes | common/MemoryInputStream.h:220-233 | the next bytes, fewer with the mark at the end |
| MemoryStreams.MemoryInputStream.ReadUintBe | common/MemoryInputStream.h:289-402 | the number whose bits lie ahead; bytes that are not whole any more count as zero, and the end is marked |
| MemoryStreams.MemoryInputStream.ReadUintLe | common/MemoryInputStream.h:300-419 | the same for the bytes in reverse |
| MemoryStreams.MemoryInputStream.ReadString | common/MemoryInputStream.h:460-465 | the text ahead up to its zero; without a zero, all whole bytes up to the end, which is marked |
| MemoryStreams.MemoryInputStream.ReadNBits | common/MemoryInputStream.h:471-482 | the number whose n bits lie ahead, with zeros behind the end, or the error |
| MemoryStreams.SameField | common/MemoryInputStream.h:257-482 | values in range are determined by their shape and bits |
| MemoryStreams.RoundTrip | common/MemoryInputStream.h:138-482 | any list of fields in range, bytes at half bytes, texts and byte vectors at whole bytes, is read back as written, up to the end and never beyond it |
| InitStages.InitStageRegistry.AssignInitStageNumbers | common/InitStageRegistry.cc:42-79 | succeeds if and only if the names resolve and no dependencies form a cycle; then the numbers are 0 to n-1 in the order in which passes over the list append what is free by then, every stage comes after those it depends on, and a list already in such an order keeps its numbers |
| InitStages.InitStageRegistry.NumberStages | common/InitStageRegistry.cc:56-71 | the passes end with all stages numbered, in that order, or a cycle |
| InitStages.BlockedForever | common/InitStageRegistry.cc:69-70 | a pass that numbers nothing is the sign of a cycle |
| InitStages.FindCycle | common/InitStageRegistry.cc:69-70 | names that each depend on another of them contain a cycle |
| InitStages.OrderRulesOut | common/InitStageRegistry.cc:42-79 | an order in which dependencies go back rules out every cycle |
| InitStages.AppendedInOrder | common/InitStageRegistry.cc:24-34 | appending a stage that only depends on others keeps the list in order, so old numbers stay |
| InitStages.InitStageRegistry.LinkStages | common/InitStageRegistry.cc:50-55 | the links in both directions say exactly what the dependencies say, or a name is unknown |
| InitStages.InitStageRegistry.GetNumInitStages | common/InitStageRegistry.cc:36-40 | numbers the stages only when needed, and gives how many were registered, or the error |
| Utilization.UtilizationFilter.Process | common/ResultFilters.cc:281-312 | the pending total is the integral over the open window; every emitted value is the mean over its window and lies in [0, 1]; which windows are closed: one at the value limit, none before the interval is over, else whole intervals one after another or, without intermediate values, one interval and the rest; nothing emitted is taken back |
| Utilization.UtilizationFilter.CloseWindow | common/ResultFilters.cc:314-328 | emits the mean since the last emission and starts a new window |
| Utilization.UtilizationFilter.Finish | common/ResultFilters.cc:330-348 | which windows are closed at the end: none if the last one was closed just now, else whole intervals that end before and one more up to the end, or one interval and the rest without intermediate values; nothing emitted is taken back, nothing is pending, and what was emitted adds up to the integral of the input |
| Utilization.EmittedIsArea | common/ResultFilters.cc:314-328 | emitted values times window lengths add up to the integral |
| IntrusivePointers.IntrusivePtr.FromRaw | common/IntrusivePtr.h:37-48 | a new handle is counted |
| IntrusivePointers.IntrusivePtr.Move | common/IntrusivePtr.h:60-62 | moving passes the count on |
| IntrusivePointers.IntrusivePtr.Destroy | common/IntrusivePtr.h:50-52 | the counts stay the numbers of handles, and the object is destroyed exactly when the last handle goes |
| IntrusivePointers.IntrusivePtr.Swap | common/IntrusivePtr.h:118-122 | exchanging two handles, or one with itself, keeps all counts |
| IntrusivePointers.IntrusivePtr.Assign | common/IntrusivePtr.h:82-85 | assignment, also to itself, keeps the counts and destroys exactly what lost its last handle |
| IntrusivePointers.IntrusivePtr.AssignRaw | common/IntrusivePtr.h:87-98 | the same from a plain pointer |
| IntrusivePointers.IntrusivePtr.MoveAssign | common/IntrusivePtr.h:64-67 | the same for a moved handle |
| IntrusivePointers.IntrusivePtr.Reset | common/IntrusivePtr.h:92-94 | the same for a reset |
| IntrusivePointers.UsesWithout | common/IntrusivePtr.h:261-272 | taking one handle away lowers the number of uses of its object by one |
| InetMath.NChooseK | common/INETMath.h:194-208 | Pascal's binomial coefficient for all 0 <= k <= n, 0 for n < k, and what it yields for negative k |
| InetMath.StepIsExact | common/INETMath.h:203-206 | each division leaves no fraction |
| InetMath.Absorption | common/INETMath.h:203-206 | k * C(n, k) = n * C(n-1, k-1) |
| InetMath.Symmetric | common/INETMath.h:198 | C(n, k) = C(n, n-k) |

## Left out

- IntervalRuns.Run: a node is not deleted again after it, or an interval like its own, has been deleted;
  the source would follow a freed pointer.
- Interval tree: releasing memory, printing, a failing `realloc`, `getMaximum` and `getPredecessor`
  (the mirror images of what is modelled), and a null interval as the argument of deletion. The bodies
  of `insert`, `deleteFixup`, `deleteNode` and `query` are split into several methods, one per case;
  the pointer updates and their order are those of the source. A node that is not linked yet points to
  itself where the source has null pointers.
- Int128: conversion from and to floating point, `operator=` from negative plain integers, which does
  not extend the sign, increment, decrement, and the bitwise assignment operators.
- Int128Arithmetic.Int128.Div: excludes the divisor 0, which traps, and the most negative number as a
  divisor, for which the source's loop does not end.
- Macho: snapshots, deprecated boxes, a box passed to the constructor, cached box memory, template
  anchors and event parameters. User entry and exit actions only show in the trace; an init action or
  handler makes at most one request, as the source allows one pending state only.
- PatternMatcher: `patternPrefixMatches` and case-insensitive matching, whose `**` shortcut ignores the
  suffix length and the case; overflow of `atol`; characters above 127, which the source compares as
  signed. `opp_stringendswith` is not part of the repository and is taken by its name.
- MessageDispatching.MessageDispatcher.HandleRegister: merges the four handlers, which differ in the
  table and in the guard; input and output gates are paired by index. Groups, sockets, interfaces and
  queueing are not part of this model; in networks with cycles a second path raises the error by
  design, so only trees are shown to succeed.
- MemoryStreams.MemoryOutputStream.WriteNBits: excludes 32 to 64 bits, where the source's mask is an
  overflowing int shift.
- MemoryStreams.MemoryInputStream.ReadNBits: excludes 32 to 64 bits for the same reason.
- Memory streams: the unrolled 16 to 64 bit members are one loop over the byte count each. Addresses and
  repeated writes are compositions of the modelled members.
- InitStages: `std::sort` is modelled by its result for distinct numbers.
- Utilization: the configuration lookup, and ThroughputFilter, which drops length in an empty window.
- IntrusivePtr: `detach` and overflow of the counter; handle types that convert between each other.
- InetMath: rounding; `n_choose_k` is exact only in exact arithmetic.
- BitVector, StringFormat, protocol tables, tags and the other glue of the directory.

# Verified models of the data-structure programs

This project models seven programs of the course repository in Dafny and proves what they are for.

- The Huffman compressor: counting, sorted list, tree, 16-bit codes, and both bit loops. The tree is optimal, the codes form a prefix code, and a text comes back from its archive exactly when no code is longer than 16 bits; all texts of a size do exactly below 4181 bytes.
- The binary search tree with parent pointers. Every operation on the pointers refines an operation on a sorted sequence, and all traversals, recursive or with a stack or queue, list the nodes they should.
- The array sorts. Bubble and insertion sort make as many moves as the input has inversions; a shell sort pass keeps the order of earlier passes, so its last pass moves each element at most one place; merge sort gives the stable sort of the reversed input; quick sort sorts around its moving hole.
- The two-stack calculator. For every text well-formed in its own grammar it returns the value of the expression the text spells; what that is, and what texts in error give, is said in plain arithmetic; and it is shown exactly for which signs that grammar reads as people do.
- The circular list, and the sorts that relink its nodes while walking it.
- The Josephus elimination: which node survives, for every start and every step.
- The producer and the consumer with a mutex and a condition variable, for any numbers of rounds.

## How the files belong together

| Files | Program |
|---|---|
| `Order`, `InversionCount`, `Insertion` | what sorting means: stable rearrangement, inversions, one insertion |
| `Seqs` | small facts about sequences, for several programs |
| `ArraySort`, `SelectStable`, `ShellSort`, `MergeSort`, `QuickSort` | `01DataStruct/07Sort/sort_arrary.c` |
| `Ring`, `ListSort` | `01DataStruct/04Kernel_list/list.h`, `01DataStruct/07Sort/sort_list.c` |
| `Josephus` | `01DataStruct/04Kernel_list/joesph.c` |
| `ProCon` | `03NetPro_thread/05Pthread/06test_pro_con.c` |
| `CalcSteps`, `CalcMeaning`, `CalcAgain`, `CalcUsual`, `CalcShapes`, `CalcLaws`, `Calc` | `01DataStruct/03Calc/calc.c` |
| `BTreeShape`, `BTree`, `Traversal`, `LevelOrder` | `01DataStruct/06Btree/btree.c` |
| `HuffTree`, `HuffBuild`, `HuffCode`, `HuffPack`, `HuffTable`, `HuffText`, `HuffSpread`, `HuffLimits`, `Huffman`, `Arith` | `01DataStruct/08Huffman/huff.c` |

Code that updates fields, arrays or links is modelled by methods on classes and arrays. Each of them is tied by its postcondition to a function on values, and the lemmas state what the program promises about that function. A comparison function is any total preorder (`Order.IsOrder`). Rings and trees in memory are described by ghost sequences and ghost trees (`Ring.IsRing`, `BTree.Embodies`), which the methods do not look at.

## Where the code does something unexpected

- Merge sort takes the right element on a tie, so two different elements that tie change places (`MergeSort.MergeSortReorders`); `MergeSort.StableWhenPalindromic` says exactly for which inputs the result is the stable one all the same. Selection sort moves elements that tie past each other too (`ArraySort.SelectionReorders`): it comes out stable for every arrangement of the elements exactly when different ones tie only if nothing is below them (`SelectStable.SelectStableIff`).
- The `FIXME` at `calc.c:133`: a minus sign takes in the whole rest of the product behind it. Unless that reading divides by zero its value is returned, whatever the text, so the result is right exactly when both readings are worth the same (`CalcUsual.EvaluatesRegrouped`). An expression comes out right for all numbers in it exactly when each minus sign on an inner operand of a product stands behind a multiplication and only multiplications follow in that product (`CalcShapes.RightForAllNumbersIff`); without a minus sign behind `*`, `/` or `%` that is so (`CalcUsual.EvaluatesWritten`). For a op1 -b op2 c, `CalcUsual.SignInsideProduct` gives what happens for all values, and the condition on them: where b op2 c is 0, and op1 is / or %, the evaluator divides by a zero that the text does not have, so "6/-2/3" gives the error code -2 as its value, and "6%-2/3" traps (`CalcUsual.DividedByZero`).
- A closing bracket where an operand is missing makes the calculator hang (`CalcLaws.BracketForOperand`), a remainder by zero traps, and a quotient by zero gives the code -2 as its value (`CalcLaws.DivisionByZero`). Brackets do not end a number: 2(3) is 23 (`CalcLaws.BracketInNumber`).
- On a calculator that has been used before, a sign behind nothing but brackets is taken for an operator without a left side. The next text is evaluated, and the calculator left ready, exactly when it does not begin so (`CalcAgain.EvaluatesAgain`). The number returned may be right by accident, as -2 for "-2" (`CalcAgain.SignedDigit`).
- With a step of 1 the Josephus loop ends with an empty circle unless the second node is the start, or there is one node: a sweep deletes everything behind its start, and the next one the rest (`Josephus.SweepByOne`, `Josephus.JosephusLoop`).
- With two or more rounds left the consumer may wait for ever although the producer has finished normally (`ProCon.ConsumerMayHang`).
- An input of a single repeated byte value sends the climb from the leaf out of the table (`HuffText.OneValueLeavesTable`).
- From 4181 bytes on there is a text of every size with a code of 17 bits, which does not come back (`HuffLimits.LongCodeIsLost`).
- The comparison of weights truncates their difference to an int. Two weights are put in the wrong order when the difference is from 2^31 up to 2^32, and further ones by their lowest 32 bits: first for a byte value that occurs 2^31 + 1 times against one that occurs once. All texts of a size are compared rightly exactly up to 2^31 + 1 bytes (`HuffLimits.ComparisonLimit`, `HuffLimits.Misordered`).

## Model

| member | source | states |
|---|---|---|
| Order.StableSortMeets | 01DataStruct/07Sort/sort_arrary.c:66-96 | the reference sort of every sequence is sorted and keeps the elements that tie in their order |
| Order.StableSortUnique | 01DataStruct/07Sort/sort_arrary.c:66-96 | it is the only sequence that is sorted and keeps ties in order |
| InversionCount.CountsInvertedPairs | 01DataStruct/07Sort/sort_arrary.c:27-41 | the inversion count of a sequence is the number of pairs of positions whose elements stand the wrong way round |
| InversionCount.SwapRemovesOne | 01DataStruct/07Sort/sort_arrary.c:34-37 | exchanging two neighbours in the wrong order removes exactly one inversion |
| InversionCount.ReachedSorted | 01DataStruct/07Sort/sort_arrary.c:27-41 | whoever reaches a sorted sequence by such exchanges has reached the stable sort, in as many exchanges as there were inversions |
| InversionCount.NoneWhenSorted | 01DataStruct/07Sort/sort_arrary.c:27-41 | there is no inversion exactly when the sequence is sorted |
| ArraySort.Swap | 01DataStruct/07Sort/sort_arrary.c:14-25 | exchanges two elements and leaves all others |
| ArraySort.BubbleSort | 01DataStruct/07Sort/sort_arrary.c:27-41 | the array becomes its stable sort, and the number of swaps is the number of inversions of the input |
| ArraySort.InsertSort | 01DataStruct/07Sort/sort_arrary.c:66-96 | the array becomes its stable sort, and the number of shifts is the number of inversions of the input |
| ArraySort.SelectSort | 01DataStruct/07Sort/sort_arrary.c:44-63 | the array becomes a sorted permutation of itself, the one that exchanging each place with the first least behind it leads to, with at most one swap per place but the last |
| ArraySort.SelectionReorders | 01DataStruct/07Sort/sort_arrary.c:51-62 | of two different elements that tie in front of a smaller one the first ends behind the second |
| SelectStable.ExchangeIsStable | 01DataStruct/07Sort/sort_arrary.c:51-62 | if different elements tie only when nothing is below them, exchanging a place with the first least behind it moves no element past a different one it ties with |
| SelectStable.CrossingResult | 01DataStruct/07Sort/sort_arrary.c:51-62 | behind all that is below them and in front of the greatest of that, two elements that tie end the other way round |
| SelectStable.SelectStableIff | 01DataStruct/07Sort/sort_arrary.c:44-63 | all arrangements of some elements are sorted stably exactly when different ones tie only if nothing is below them |
| ShellSort.SortingKeepsBelow | 01DataStruct/07Sort/sort_arrary.c:112-156 | if every element of one sequence is at most the one `c` places on in another, sorting both keeps that |
| ShellSort.PassKeepsOrder | 01DataStruct/07Sort/sort_arrary.c:112-156 | a pass of any gap keeps elements at any other distance in order, if they were |
| ShellSort.PassOrders | 01DataStruct/07Sort/sort_arrary.c:112-156 | after a pass of gap `h`, elements `h` apart are in order |
| ShellSort.LastPassIsShort | 01DataStruct/07Sort/sort_arrary.c:103-156 | order at distances 2 and 3 puts all elements two or more places apart in order, so an insertion of gap 1 moves an element at most once |
| ShellSort.GapInsert | 01DataStruct/07Sort/sort_arrary.c:130-142 | one insertion along a stride: the stride's front becomes sorted, other strides stay |
| ShellSort.GapPass | 01DataStruct/07Sort/sort_arrary.c:112-156 | a pass sorts every stride of its gap stably, permutes the array, and moves no element further than any insertion bound of the input allows |
| ShellSort.ShellSort | 01DataStruct/07Sort/sort_arrary.c:100-160 | the array becomes a sorted permutation, the one that sorting its strides of gap 3, then those of gap 2, then all of it leads to; before the last pass a[i] <= a[j] for j >= i + 2, and no insertion of the last pass makes more than one move |
| MergeSort.PeersMerge | 01DataStruct/07Sort/sort_arrary.c:179-185 | merging puts all elements of the right half in front of those of the left half they tie with |
| MergeSort.MergeHalves | 01DataStruct/07Sort/sort_arrary.c:173-194 | merging two reverse-stable sorts gives the reverse-stable sort of the whole |
| MergeSort.MergeInto | 01DataStruct/07Sort/sort_arrary.c:173-194 | fills the buffer with the merge of the two halves |
| MergeSort.MergeSortRange | 01DataStruct/07Sort/sort_arrary.c:162-206 | the range becomes the stable sort of its reverse, and nothing outside the range changes, with one buffer shared by all calls |
| MergeSort.Sort | 01DataStruct/07Sort/sort_arrary.c:208-216 | the array becomes the stable sort of its reverse, a sorted permutation |
| MergeSort.StableWhenPalindromic | 01DataStruct/07Sort/sort_arrary.c:179-185 | the result is the stable sort exactly when every class of ties reads the same backwards |
| MergeSort.MergeSortReorders | 01DataStruct/07Sort/sort_arrary.c:179-185 | two different elements that tie come out exchanged |
| QuickSort.Partition | 01DataStruct/07Sort/sort_arrary.c:225-253 | both ends meet at the hole, which holds the pivot, the first element of the range; left of it nothing is greater, right of it nothing less, and the range is permuted |
| QuickSort.Glue | 01DataStruct/07Sort/sort_arrary.c:255-257 | sorting both sides of such a range sorts the range |
| QuickSort.QuickSortRange | 01DataStruct/07Sort/sort_arrary.c:218-258 | the range becomes a sorted permutation of itself, and nothing outside it changes |
| QuickSort.Sort | 01DataStruct/07Sort/sort_arrary.c:260-268 | the array becomes a sorted permutation of itself |
| Ring.ListAdd | 01DataStruct/04Kernel_list/list.h:28-35 | four assignments put a link between two neighbours: a well-formed ring with exactly that link more |
| Ring.ListAddTail | 01DataStruct/04Kernel_list/list.h:50-53 | the link becomes the last of the ring |
| Ring.ListDel | 01DataStruct/04Kernel_list/list.h:61-65 | the ring loses exactly that link, which keeps its own pointers |
| Ring.ListDelInit | 01DataStruct/04Kernel_list/list.h:67-73 | the ring loses exactly that link, which then points to itself |
| Ring.ListIsEmpty | 01DataStruct/04Kernel_list/list.h:55-58 | true exactly when the ring is the head alone |
| Ring.TwoOn | 01DataStruct/08Huffman/huff.c:95 | the second successor of the head is the head exactly when at most one node is linked |
| ListSort.Swap | 01DataStruct/07Sort/sort_list.c:9-20 | exchanges two links of a ring through a temporary one, neighbours or not, and keeps a well-formed ring |
| ListSort.BubbleSort | 01DataStruct/07Sort/sort_list.c:30-50 | ends with a well-formed ring over the same nodes, the head first, in stable sorted order, after as many exchanges as there were inversions |
| ListSort.FindLeast | 01DataStruct/07Sort/sort_list.c:57-63 | finds the first node from a place on that is at most all others from there on |
| ListSort.SelectSort | 01DataStruct/07Sort/sort_list.c:52-71 | ends with a well-formed ring over the same nodes in sorted order, the same order as the sort on arrays |
| ListSort.Reinsert | 01DataStruct/07Sort/sort_list.c:80-95 | takes a node out and links it in behind the last node in front of it that is not greater |
| ListSort.InsertSort | 01DataStruct/07Sort/sort_list.c:74-97 | ends with a well-formed ring over the same nodes in stable sorted order, for a comparison that is an order on the payloads in the ring |
| Josephus.SurvivorAt | 01DataStruct/04Kernel_list/joesph.c:22-43 | the survivor of an ideal circle is at J(n), where J(1) = 0 and J(m) = (J(m - 1) + step) mod m |
| Josephus.EverySecond | 01DataStruct/04Kernel_list/joesph.c:22-43 | with step 2, of 2^m + l nodes the one at 2 l survives |
| Josephus.DropKeepsSurvivor | 01DataStruct/04Kernel_list/joesph.c:29-33 | deleting the node the count stops at does not change the survivor of the ring with its list head skipped |
| Josephus.SweepKeepsSurvivor | 01DataStruct/04Kernel_list/joesph.c:22-43 | a whole sweep, with the count carried over the list head, keeps the survivor, and for step >= 2 never empties the circle |
| Josephus.SweepByOne | 01DataStruct/04Kernel_list/joesph.c:22-43 | with step 1 a sweep deletes everything behind its start |
| Josephus.WalkOn | 01DataStruct/04Kernel_list/joesph.c:25-36 | the loop of one sweep on the linked ring, deleting while it walks, does what the sweep on sequences does |
| Josephus.FindStart | 01DataStruct/04Kernel_list/joesph.c:13-20 | the walk starts at the link in front of the given node, and for a start outside the circle, unsigned wrap-around included, at the last node |
| Josephus.WinnerAt | 01DataStruct/04Kernel_list/joesph.c:11-43 | for a start within the circle the winner is node (start - 1 + J(n)) mod n |
| Josephus.JosephusLoop | 01DataStruct/04Kernel_list/joesph.c:11-45 | terminates for every start and step >= 1; one node, the winner, is left exactly when step >= 2, or n = 1, or start = 2, and otherwise none |
| ProCon.Safety | 03NetPro_thread/05Pthread/06test_pro_con.c:15-54 | in every reachable state the lock is exclusive, data is not negative, consumed + data = 3 + produced, and a consumer waiting beside data has a signal coming |
| ProCon.InvStep | 03NetPro_thread/05Pthread/06test_pro_con.c:15-54 | every step of either thread, and a spurious wake-up, keep the invariant |
| ProCon.StuckStates | 03NetPro_thread/05Pthread/06test_pro_con.c:15-54 | no thread can go on exactly when the producer is done and the consumer is done or waits at data = 0; then p productions have been made, and consumed + data = 3 + p |
| ProCon.RunsAreBounded | 03NetPro_thread/05Pthread/06test_pro_con.c:15-54 | every step but a spurious wake-up lowers a bound, so no run goes on for ever |
| ProCon.WholeRunIsBounded | 03NetPro_thread/05Pthread/06test_pro_con.c:15-54 | a run of p and c rounds has at most 20 p + 10 c + 32 steps |
| ProCon.FinishNeedsData | 03NetPro_thread/05Pthread/06test_pro_con.c:34-54 | a consumer that has finished c rounds needed at least c - 1 productions |
| ProCon.ConsumerCanFinishIff | 03NetPro_thread/05Pthread/06test_pro_con.c:34-54 | a state with the consumer finished can be reached exactly when c <= p + 1 |
| ProCon.ConsumerMayHang | 03NetPro_thread/05Pthread/06test_pro_con.c:34-54 | for every p and every c >= 2 a stuck state with the consumer waiting can be reached |
| ProCon.ConsumerFinishes | 03NetPro_thread/05Pthread/06test_pro_con.c:34-54 | all runs end with the consumer finished exactly when it has at most one round |
| CalcSteps.TruncDivision | 01DataStruct/03Calc/calc.c:86-104 | quotient and remainder as in C: they multiply back, the remainder is smaller than the divisor and has the sign of the dividend |
| CalcSteps.OperatorsMean | 01DataStruct/03Calc/calc.c:78-104 | +, - and * are the sum, the difference and the product; quotient and remainder belong together as in C |
| CalcSteps.DoStackMeans | 01DataStruct/03Calc/calc.c:55-115 | what the two numbers and the operator on top are replaced by, for each operator, and the codes for a division by zero, a missing number and a missing operator |
| CalcSteps.PushOperatorValid | 01DataStruct/03Calc/calc.c:145-171 | pushing an operator leaves only operators and opening brackets on the operator stack |
| CalcSteps.PushOperatorRises | 01DataStruct/03Calc/calc.c:145-171 | and if every entry bound tighter than the one below it, or was a bracket, that stays so |
| CalcSteps.CloseBracketValid | 01DataStruct/03Calc/calc.c:186-206 | closing a bracket leaves only operators and opening brackets on the operator stack |
| CalcSteps.CloseBracketRises | 01DataStruct/03Calc/calc.c:186-206 | and keeps the levels rising |
| CalcSteps.FeedRises | 01DataStruct/03Calc/calc.c:119-143 | reading a character keeps the levels rising, except exactly for a minus sign behind an operator that still waits |
| CalcMeaning.ReduceTwice | 01DataStruct/03Calc/calc.c:145-171 | working off the operators of a high level first and then those of a lower one is working off the lower level at once |
| CalcMeaning.PushIsReduce | 01DataStruct/03Calc/calc.c:145-171 | an operator works off everything that binds at least as tightly, and is then pushed |
| CalcMeaning.CloseIsReduce | 01DataStruct/03Calc/calc.c:186-206 | a closing bracket works off everything down to its opening bracket, and removes that |
| CalcMeaning.ReadExpr | 01DataStruct/03Calc/calc.c:212-262 | on any stacks that wait for an operand, the text of an expression leaves what its value alone would leave once operators of its level are worked off |
| CalcMeaning.BlanksAreIgnored | 01DataStruct/03Calc/calc.c:212-262 | blanks anywhere change nothing |
| CalcMeaning.Evaluates | 01DataStruct/03Calc/calc.c:212-278 | every text of a well-formed expression without division by zero evaluates to the recursive value of the expression, and both stacks end empty |
| CalcLaws.OperatorLaw | 01DataStruct/03Calc/calc.c:78-104 | the texts of two operands with an operator between them give the sum, difference, product, quotient or remainder of what the two texts give |
| CalcLaws.BracketAndSignLaw | 01DataStruct/03Calc/calc.c:124-210 | brackets and a plus sign around or in front of a text change nothing; a minus sign in front of an operand or a product negates |
| CalcLaws.SumsOfProducts | 01DataStruct/03Calc/calc.c:26-47 | for any number of terms and factors the text of a sum of products gives that sum: products first, and everything of one level from left to right, on numbers written in decimal |
| CalcLaws.BlankAnywhere | 01DataStruct/03Calc/calc.c:238-241 | a space, a newline or a tab anywhere makes no difference |
| CalcLaws.NothingGivesZero | 01DataStruct/03Calc/calc.c:255-272 | a text of blanks gives 0 |
| CalcLaws.UnknownCharacter | 01DataStruct/03Calc/calc.c:250-253 | reading stops with -1 at any character that is no digit, operator, bracket or blank |
| CalcLaws.UnclosedBracket | 01DataStruct/03Calc/calc.c:256-262 | a bracket that is not closed gives -3, with the value left on the stack |
| CalcLaws.UnopenedBracket | 01DataStruct/03Calc/calc.c:189-194 | a closing bracket without an opening one gives -1, whatever follows |
| CalcLaws.MissingOperand | 01DataStruct/03Calc/calc.c:262-266 | a text that ends with an operator gives -2 |
| CalcLaws.DivisionByZero | 01DataStruct/03Calc/calc.c:89-103 | a quotient by an operand worth 0 gives -2, and a remainder does not return |
| CalcLaws.BracketForOperand | 01DataStruct/03Calc/calc.c:189-199 | a closing bracket where an operand is missing makes the program hang |
| CalcLaws.DoubleOperator | 01DataStruct/03Calc/calc.c:139-166 | of two operators * / % in a row the second gives -1 |
| CalcLaws.BracketInNumber | 01DataStruct/03Calc/calc.c:9-24 | brackets do not end a number: p(q) is read as the digits of both in a row |
| CalcAgain.StaleFlag | 01DataStruct/03Calc/calc.c:119-143 | the flag a former text left does not matter to a text that does not begin with a sign |
| CalcAgain.ReadShort | 01DataStruct/03Calc/calc.c:119-210 | when there are fewer numbers than the operators need, no expression read behind them makes up for it |
| CalcAgain.SignMakesShort | 01DataStruct/03Calc/calc.c:119-171 | on a used calculator a text that begins with a sign leads into that state |
| CalcAgain.EvaluatesAgain | 01DataStruct/03Calc/calc.c:212-278 | a used calculator returns the value of a well-formed, defined expression and is ready for the next exactly when the first character that is no opening bracket is no sign |
| CalcAgain.SignedDigit | 01DataStruct/03Calc/calc.c:119-143 | for every digit d, "-d" gives -2 on a used calculator, with an operator left over, and -d on a fresh one |
| CalcUsual.PrintIsFaithful | 01DataStruct/03Calc/calc.c:26-47 | printing any tree with the brackets the evaluator needs gives an expression of the same value that is well-formed for it |
| CalcUsual.EvaluatesPrinted | 01DataStruct/03Calc/calc.c:212-278 | so every tree over + - * / % and sign, printed that way, evaluates to its value |
| CalcUsual.SignOfProductAgrees | 01DataStruct/03Calc/calc.c:124-139 | negating the left operand of * / % negates the result, so a sign in front may be read as the first operand's or the whole product's |
| CalcUsual.RegroupedFits | 01DataStruct/03Calc/calc.c:124-171 | the tree the evaluator makes of a usual expression is well-formed for it and has the same text, wherever the signs are |
| CalcUsual.EvaluatesRegrouped | 01DataStruct/03Calc/calc.c:212-278 | the value of that tree is returned, if it divides by no zero, so the result is right exactly when the usual reading has the same value |
| CalcUsual.RegroupedMeans | 01DataStruct/03Calc/calc.c:124-171 | it has the usual value, if an inner operand of a product has a minus sign only behind a multiplication and in front of nothing but multiplications |
| CalcUsual.EvaluatesUsual | 01DataStruct/03Calc/calc.c:212-278 | every text with such a usual reading evaluates to it |
| CalcUsual.SignsSeen | 01DataStruct/03Calc/calc.c:124-139 | a text without a minus sign behind * / % is such a text |
| CalcUsual.EvaluatesWritten | 01DataStruct/03Calc/calc.c:212-278 | every tree, written with a sign binding tightest and brackets only around operators that need them, evaluates to its value if the text has no minus sign behind * / % |
| CalcUsual.SignInsideProduct | 01DataStruct/03Calc/calc.c:133 | for all values for which a op1 -b op2 c is defined: it gives a op1 -(b op2 c); if that divides by zero, the error code -2 as the value for a quotient, and a trap for a remainder; this is what the text means exactly when the two operators may be regrouped for the three values, or the quotient is -2 anyway |
| CalcUsual.OnlyTimesRegroups | 01DataStruct/03Calc/calc.c:133 | multiplications may be regrouped for all values; every other pair of * / % may not for some digits |
| CalcUsual.SignInsideProductIff | 01DataStruct/03Calc/calc.c:133 | p op1 -q op2 r comes out right for all numbers for which it is defined exactly when both operators are multiplications |
| CalcUsual.SignBehindOperator | 01DataStruct/03Calc/calc.c:133 | "6/-2*3" gives -1, while the usual reading of the tree gives -9 |
| CalcUsual.DividedByZero | 01DataStruct/03Calc/calc.c:262-270 | "6/-2/3" gives -2 for -1, "12/-2/3" gives -2 rightly by accident, and "6%-2/3" traps instead of giving 0 |
| CalcShapes.OfSize | 01DataStruct/03Calc/calc.c:124-171 | every expression can be given numbers for which both readings are worth the same, up to the sign, and as much as wanted |
| CalcShapes.HarmDone | 01DataStruct/03Calc/calc.c:133 | every expression with a minus sign on an inner operand of a product, behind or in front of / or %, can be given numbers for which both readings are defined, as large as wanted, and different |
| CalcShapes.RightForAllNumbersIff | 01DataStruct/03Calc/calc.c:133 | an expression comes out right for all numbers in it, for which it is defined, exactly when each minus sign on an inner operand of a product stands behind a multiplication and only multiplications follow in that product |
| Calc.CalcInfo.constructor | 01DataStruct/03Calc/calc.c:282-305 | a fresh calculator: empty stacks, flag for operand |
| Calc.CalcInfo.NumHandle | 01DataStruct/03Calc/calc.c:9-24 | the step on values for a digit |
| Calc.CalcInfo.DoStack | 01DataStruct/03Calc/calc.c:55-115 | the step on values for one pending operation, error codes included |
| Calc.CalcInfo.OprHandle | 01DataStruct/03Calc/calc.c:119-175 | the step on values for an operator or sign |
| Calc.CalcInfo.BracketHandle | 01DataStruct/03Calc/calc.c:177-210 | the step on values for a bracket |
| Calc.CalcInfo.CalcMain | 01DataStruct/03Calc/calc.c:212-278 | the loop over the text returns and leaves what the evaluation on values says, error codes included |
| Calc.CalcTwice | 01DataStruct/03Calc/test.c:29-32 | two texts on one calculator, the second not beginning with a sign, both give their values |
| BTreeShape.InsertInOrder | 01DataStruct/06Btree/btree.c:7-35 | in the in-order sequence, insertion puts the node behind all elements that are not greater |
| BTreeShape.InsertOrdered | 01DataStruct/06Btree/btree.c:7-35 | insertion keeps left < node <= right |
| BTreeShape.InsertUnique | 01DataStruct/06Btree/btree.c:7-35 | inserting a new node keeps all nodes distinct |
| BTreeShape.InsertHangsLeaf | 01DataStruct/06Btree/btree.c:18-33 | the new node hangs without children where there was nothing, and nothing else has moved |
| BTreeShape.LeafInHole | 01DataStruct/06Btree/btree.c:18-33 | that is filling one hole of the tree with the node |
| BTreeShape.InOrderSorted | 01DataStruct/06Btree/btree.c:53-61 | the in-order sequence of an ordered tree is sorted |
| BTreeShape.LeftmostOrdered | 01DataStruct/06Btree/btree.c:203-217 | the leftmost node is least, and taking it out keeps the order |
| BTreeShape.JoinedFacts | 01DataStruct/06Btree/btree.c:184-226 | what takes the place of a deleted node holds its two parts, in order |
| BTreeShape.JoinedOrdered | 01DataStruct/06Btree/btree.c:184-226 | and is ordered |
| BTreeShape.DeletePlug | 01DataStruct/06Btree/btree.c:163-229 | deletion only changes the subtree of the node |
| BTreeShape.DeleteNodes | 01DataStruct/06Btree/btree.c:163-229 | deletion removes exactly that node |
| BTreeShape.DeleteInOrder | 01DataStruct/06Btree/btree.c:163-229 | the in-order sequence loses exactly the place of the node |
| BTreeShape.DeleteRemoves | 01DataStruct/06Btree/btree.c:163-229 | the in-order sequence is the old one without the node |
| BTreeShape.DeleteOrdered | 01DataStruct/06Btree/btree.c:163-229 | deletion keeps left < node <= right |
| BTreeShape.DeleteGivesPlace | 01DataStruct/06Btree/btree.c:184-226 | only the place of the node changes: its only child stands there, or nothing, or the first node of its right part in order, which gives up its own place in the same way |
| BTreeShape.RunRefinesSequence | 01DataStruct/06Btree/btree.c:7-229 | after any run of insertions of new nodes, deletions and searches the in-order sequence is that of a sorted sequence under insert behind peers and remove, and every search has found the first equal node of that sequence, or null |
| BTreeShape.PushingSorts | 01DataStruct/06Btree/btree.c:7-35 | pushing nodes one after the other sorts them stably |
| BTree.PlugEmbodies | 01DataStruct/06Btree/btree.c:163-229 | a tree lies in memory, all child and parent pointers agreeing, exactly when its part and its surroundings do |
| BTreeShape.FindStep | 01DataStruct/06Btree/btree.c:141-161 | at each node, all nodes equal to the key are on the side the search turns to |
| BTreeShape.FoundIffPresent | 01DataStruct/06Btree/btree.c:141-161 | the search finds a node exactly when the in-order sequence has an equal one |
| BTreeShape.FindsFirst | 01DataStruct/06Btree/btree.c:141-161 | the search finds the first equal node in order, and null if there is none |
| BTreeShape.FirstEqualMeets | 01DataStruct/06Btree/btree.c:141-161 | the first equal node: none in front of it is equal, and null exactly when there is none |
| BTree.BTree.constructor | 01DataStruct/06Btree/btree.c:326-346 | a valid empty tree |
| BTree.BTree.Push | 01DataStruct/06Btree/btree.c:7-35 | a valid tree with the node as one leaf more and everything else in its place; in order the node stands behind its peers |
| BTree.BTree.Find | 01DataStruct/06Btree/btree.c:141-161 | returns the first node in order that is equal to the key, null only if there is none |
| BTree.BTree.TakeSuccessor | 01DataStruct/06Btree/btree.c:203-217 | finds the leftmost node of the right part and unlinks it, adjacent to the node or not |
| BTree.BTree.Unlink | 01DataStruct/06Btree/btree.c:207-217 | a right part moves up into the place of its owner |
| BTree.BTree.ReplaceBy | 01DataStruct/06Btree/btree.c:218-226 | the successor takes over the place, the children and the parent of the node |
| BTree.BTree.RemoveLeaf | 01DataStruct/06Btree/btree.c:184-187 | a node without children is cut off |
| BTree.BTree.PromoteChild | 01DataStruct/06Btree/btree.c:188-199 | the one child takes the place of the node, whose pointers are cleared |
| BTree.BTree.TakeOut | 01DataStruct/06Btree/btree.c:174-226 | in all four cases the place of the node holds its two parts joined, with agreeing pointers |
| BTree.BTree.Del | 01DataStruct/06Btree/btree.c:163-229 | -1 on an empty tree; otherwise a valid tree whose in-order sequence is the old one without exactly that node, and in which only the place of the node has changed |
| Traversal.PreOrderFrom | 01DataStruct/06Btree/btree.c:36-44 | the recursion over pointers lists the tree in preorder |
| Traversal.InOrderFrom | 01DataStruct/06Btree/btree.c:53-61 | the recursion over pointers lists the tree in order |
| Traversal.PostOrderFrom | 01DataStruct/06Btree/btree.c:70-78 | the recursion over pointers lists the tree in postorder |
| Traversal.GetDepth | 01DataStruct/06Btree/btree.c:116-130 | the depth of the tree |
| Traversal.PreOrderMeets | 01DataStruct/06Btree/btree.c:36-44 | wherever a node stands, the preorder has it in front of its left part, and that in front of its right part |
| Traversal.InOrderMeets | 01DataStruct/06Btree/btree.c:53-61 | the in-order sequence has the left part, then the node, then the right part |
| Traversal.PostOrderMeets | 01DataStruct/06Btree/btree.c:70-78 | the postorder has the left part, then the right part, then the node |
| Traversal.SameNodesListed | 01DataStruct/06Btree/btree.c:36-78 | all three list every node, equally often |
| Traversal.PreOrderNoRecursion | 01DataStruct/06Btree/btree.c:232-258 | the loop with a stack visits the preorder sequence and terminates |
| Traversal.InOrderNoRecursion | 01DataStruct/06Btree/btree.c:261-287 | the loop with a stack visits the in-order sequence and terminates |
| Traversal.NotYetVisited | 01DataStruct/06Btree/btree.c:298-316 | the root of a right part not yet entered is not the last visited node, so one marker is enough |
| Traversal.PostOrderNoRecursion | 01DataStruct/06Btree/btree.c:290-322 | the loop with a stack and a single marker visits the postorder sequence and terminates |
| LevelOrder.ServeFront | 01DataStruct/06Btree/btree.c:99-112 | serving the trees at the front of the queue lists their roots, and puts all their children behind the rest |
| LevelOrder.ServedIsLevels | 01DataStruct/06Btree/btree.c:99-112 | serving the queue from one depth on lists all levels from there on, each from left to right |
| LevelOrder.DepthCountsLevels | 01DataStruct/06Btree/btree.c:116-138 | a level has a node exactly when it is above the depth of the tree |
| LevelOrder.LevelLeftToRight | 01DataStruct/06Btree/btree.c:99-112 | within a level the nodes stand as they do in order |
| LevelOrder.LevelsListEachNodeOnce | 01DataStruct/06Btree/btree.c:91-115 | all levels together hold each node exactly once |
| LevelOrder.LevelOrderTraversal | 01DataStruct/06Btree/btree.c:91-115 | the queue loop on a non-empty tree visits level after level, and each node exactly once |
| HuffTree.DepthIsInnerSum | 01DataStruct/08Huffman/huff.c:103-108 | the sum of weight times depth is the sum of the weights of the inner nodes |
| HuffTree.DeepestPair | 01DataStruct/08Huffman/huff.c:95-121 | every tree has two sibling leaves that no leaf is deeper than |
| HuffTree.LightestToDeepest | 01DataStruct/08Huffman/huff.c:95-121 | the two lightest weights can be moved to the deepest pair without raising the sum of weight times depth |
| HuffTree.MergingIsOptimal | 01DataStruct/08Huffman/huff.c:95-121 | no binary tree over the same weights has a smaller sum of weight times depth than repeated merging of the two lightest costs |
| HuffBuild.MergedSums | 01DataStruct/08Huffman/huff.c:95-121 | a round keeps the leaves, inserts the joint weight of the two lightest into the weights of the rest, and adds it to the inner weights |
| HuffBuild.BuildSums | 01DataStruct/08Huffman/huff.c:89-134 | the finished tree has exactly the leaves of the list, and its inner weights are what merging costs |
| HuffBuild.BuildIsOptimal | 01DataStruct/08Huffman/huff.c:75-134 | for every sorted list of leaves no binary tree over them has a smaller sum of weight times depth than the built one |
| HuffBuild.MergedOk | 01DataStruct/08Huffman/huff.c:95-121 | every round keeps: sorted list, distinct indices, each parent's index above its children's, and each node at least as heavy as its sibling's children |
| HuffBuild.BuildOk | 01DataStruct/08Huffman/huff.c:89-134 | the finished tree has these properties, and the last index at its root |
| HuffBuild.BalancedWeight | 01DataStruct/08Huffman/huff.c:95-152 | such a tree of height h weighs at least Fib(h + 2) |
| HuffBuild.BuildLighterLeft | 01DataStruct/08Huffman/huff.c:97-108 | the left child of every node is no heavier than the right one |
| HuffBuild.LightTreesFit | 01DataStruct/08Huffman/huff.h:20-26 | so one that weighs less than 4181 has no code of more than 16 bits |
| HuffCode.PrefixFree | 01DataStruct/08Huffman/huff.c:136-162 | no path from the root to a leaf is the beginning of another |
| HuffCode.KraftExact | 01DataStruct/08Huffman/huff.c:136-162 | the sum of 2^-length over all leaves is exactly 1 |
| HuffCode.DepthIsLength | 01DataStruct/08Huffman/huff.c:145-152 | the depth of a leaf is the length of its code |
| HuffCode.EmittedBits | 01DataStruct/08Huffman/huff.c:279-281 | the bits sent for a path are its first 16 bits, and zeros for the rest |
| HuffCode.LongCodeWithOne | 01DataStruct/08Huffman/huff.c:145-152 | a tree higher than k has a code with a 1 behind its first k bits |
| HuffCode.DecodeText | 01DataStruct/08Huffman/huff.c:396-413 | decoding whole codes gives the text back, whatever padding follows |
| HuffCode.DecodedFirst | 01DataStruct/08Huffman/huff.c:396-413 | what is decoded first has its code at the front of the bits |
| HuffCode.MangledText | 01DataStruct/08Huffman/huff.c:276-302 | a text with a value whose code is not sent as it is does not come back |
| HuffCode.RoundTripIff | 01DataStruct/08Huffman/huff.c:276-302 | a text that uses all values of the tree comes back exactly when no code is longer than 16 bits |
| HuffCode.BitsAreInnerSum | 01DataStruct/08Huffman/huff.c:103-108 | a text takes as many bits as the inner nodes of its tree weigh together |
| HuffCode.SentIsInnerSum | 01DataStruct/08Huffman/huff.c:276-302 | that is the number of bits sent, and the sum of weight times depth |
| HuffPack.BitsBack | 01DataStruct/08Huffman/huff.c:278-302 | the bits of the number made of some bits are those bits |
| HuffPack.NumberBack | 01DataStruct/08Huffman/huff.c:278-302 | the number with the bits of a number is that number |
| HuffPack.PackBit | 01DataStruct/08Huffman/huff.c:279-292 | one bit more goes behind the bits so far, into the buffer or with it into the file, and the 8-bit buffer never overflows |
| HuffPack.PackEnd | 01DataStruct/08Huffman/huff.c:295-301 | the last byte holds the waiting bits and then zeros |
| HuffCode.UnpackAt | 01DataStruct/08Huffman/huff.c:398-404 | the bit the decoder shifts out of a byte is the one at that place of the bit sequence |
| HuffTable.EncodesFrame | 01DataStruct/08Huffman/huff.c:95-152 | a tree stays in the table when other entries, codes, or the parent of its root are written |
| HuffTable.MergeEncodes | 01DataStruct/08Huffman/huff.c:103-108 | five assignments turn two trees in the table into one |
| HuffTable.StepUp | 01DataStruct/08Huffman/huff.c:145-152 | the parent of each node of a path is the node above, not the root before the top, and the right child exactly where the path goes right |
| HuffTable.CodeStep | 01DataStruct/08Huffman/huff.c:146-149 | shifting left and adding a bit, in 16 bits, puts that bit in front of the path |
| HuffTable.StepDown | 01DataStruct/08Huffman/huff.c:399-406 | a branch leads to the child's entry, and its index is below 256 exactly for a leaf, whose value it is |
| HuffTable.TruncationKeepsSign | 01DataStruct/08Huffman/huff.c:27-33 | the truncated difference has the right sign exactly when its lowest 32 bits say so; below 2^32 that is exactly when it fits an int |
| HuffTable.ComparesRightlyIff | 01DataStruct/08Huffman/huff.c:27-33 | the values that occur are all compared as meant exactly when the lowest 32 bits of each positive difference are those of a positive int; if no weight is above 2^32, exactly when all differ by less than 2^31 |
| HuffTable.WithinLimit | 01DataStruct/08Huffman/huff.c:27-33 | so they are for every text of up to 2^31 + 1 bytes |
| HuffTable.SortedUsedFacts | 01DataStruct/08Huffman/huff.c:39-73 | the first list holds each byte value that occurs exactly once, by rising weight |
| HuffTable.TiesByValue | 01DataStruct/08Huffman/huff.c:39-73 | values that occur equally often stand in their own order in it |
| HuffTable.StartForestOk | 01DataStruct/08Huffman/huff.c:39-73 | it meets what the rounds keep |
| HuffTable.RoundUntouched | 01DataStruct/08Huffman/huff.c:95-121 | the rounds leave alone the children of leaves, the entries of values that do not occur and of later nodes, and the parents of the members of the list |
| HuffText.OneValueLeavesTable | 01DataStruct/08Huffman/huff.c:123-145 | with one repeated value the list has one member, and the first step up reads an index behind the table |
| HuffText.TreeLeaves | 01DataStruct/08Huffman/huff.c:165-189 | the leaves of the tree are the values of the text with their frequencies |
| HuffText.TreeShape | 01DataStruct/08Huffman/huff.c:89-134 | the tree is balanced, its indices are distinct and below 511, its root is at 254 plus the number of values, the last index, and its height is below 256 |
| HuffText.TreeLighterLeft | 01DataStruct/08Huffman/huff.c:97-108 | in the tree of a text a 0 leads to the lighter part |
| HuffText.TreeIsOptimal | 01DataStruct/08Huffman/huff.c:165-189 | no other tree over the values and frequencies of the text has a smaller sum of weight times depth |
| HuffText.TotalIsSize | 01DataStruct/08Huffman/huff.c:7-13 | the weights in the list add up to the size of the text |
| HuffText.ShortTextsFit | 01DataStruct/08Huffman/huff.c:136-152 | a text shorter than 4181 bytes gets no code of more than 16 bits |
| HuffText.SentSize | 01DataStruct/08Huffman/huff.c:276-302 | a text takes as many bits as the inner nodes weigh together, which is the sum of weight times depth |
| HuffSpread.SpreadStart | 01DataStruct/08Huffman/huff.c:39-73 | a text with given rising frequencies starts from the leaves of these weights in that order |
| HuffSpread.SmallTree | 01DataStruct/08Huffman/huff.c:89-134 | for the bytes 0, 1, 1 the root is at 256, with 0 on the left and 1 on the right |
| HuffSpread.SmallCodes | 01DataStruct/08Huffman/huff.c:136-162 | their codes are 0 and 1, and the bits sent 011 |
| HuffSpread.SmallBody | 01DataStruct/08Huffman/huff.c:276-302 | these bits are held by the one byte 0x60 and by no other body |
| HuffLimits.GrowsByOne | 01DataStruct/08Huffman/huff.c:95-121 | with Fibonacci weights every round takes in one leaf, and the tree grows by one level |
| HuffLimits.HeightReached | 01DataStruct/08Huffman/huff.c:89-134 | for every height up to 255 there is a text of every size from Fib(height + 2) on whose tree has that height |
| HuffLimits.CodesFitIff | 01DataStruct/08Huffman/huff.c:136-152 | all texts of n bytes have codes of at most h bits exactly when n < Fib(h + 3) |
| HuffLimits.RestoredIff | 01DataStruct/08Huffman/huff.c:236-416 | a text in the domain is restored exactly when no code is longer than 16 bits |
| HuffLimits.AllComeBackIff | 01DataStruct/08Huffman/huff.c:236-416 | all texts of n bytes are restored exactly when n < 4181 |
| HuffLimits.LongCodeIsLost | 01DataStruct/08Huffman/huff.c:146-149 | for every size from 4181 bytes on a text with a code of 17 bits that is not restored |
| HuffLimits.ShiftsFitIff | 01DataStruct/08Huffman/huff.c:279-281 | no text of n bytes needs a shift of 32 places or more exactly when n < 9227465 |
| HuffLimits.Misordered | 01DataStruct/08Huffman/huff.c:32 | for every size above 2^31 + 1 a text in which 2^31 + 1 occurrences count as fewer than one |
| HuffLimits.ComparisonLimit | 01DataStruct/08Huffman/huff.c:27-33 | all texts of n bytes have their values compared as meant exactly when n is at most 2^31 + 1 |
| Huffman.HuffInfo.constructor | 01DataStruct/08Huffman/huff.c:421-446 | all weights, codes and lengths zero, all links unused, the list empty |
| Huffman.HuffInfo.Statistic | 01DataStruct/08Huffman/huff.c:7-13 | the weight of every byte value is how often it occurs |
| Huffman.HuffInfo.LinkUsed | 01DataStruct/08Huffman/huff.c:41-45 | the ring holds the byte values that occur |
| Huffman.HuffInfo.BuildSortList | 01DataStruct/08Huffman/huff.c:39-73 | the ring holds the leaves of the text by rising weight |
| Huffman.HuffInfo.AddWithSort | 01DataStruct/08Huffman/huff.c:75-87 | links a node in front of the first that is not lighter |
| Huffman.HuffInfo.Round | 01DataStruct/08Huffman/huff.c:95-121 | a well-formed ring in which the two lightest are replaced by their parent, with all subtrees laid out in the table, in which exactly the entry of the parent and two parent fields have been written |
| Huffman.HuffInfo.BuildHuffTree | 01DataStruct/08Huffman/huff.c:89-134 | the built tree lies in the table, all indices within it, with its root where `root` says, and no parent at the root, or `root` is 256 for fewer than two values; nothing else has been written |
| Huffman.HuffInfo.FillOne | 01DataStruct/08Huffman/huff.c:144-152 | the climb ends at the root, with the path in 16 bits as code and its length |
| Huffman.HuffInfo.FillCode | 01DataStruct/08Huffman/huff.c:136-162 | every value that occurs gets its code, the tree stays, and no other entry changes |
| Huffman.HuffInfo.PutBit | 01DataStruct/08Huffman/huff.c:279-292 | one bit more behind those so far |
| Huffman.HuffInfo.PackBody | 01DataStruct/08Huffman/huff.c:276-302 | the body holds the bits of all codes in order, and zeros up to the end of the last byte |
| Huffman.HuffInfo.Prepare | 01DataStruct/08Huffman/huff.c:165-189 | the table holds the tree of the text and a code for each value that occurs, and is otherwise as at the start |
| Huffman.HuffInfo.Compress | 01DataStruct/08Huffman/huff.c:201-302 | the archive holds the size of the text, the padded bits of the text, and a table up to the root with the tree of the text, the code and its length for each value that occurs, empty entries for the others, and no codes at inner nodes; for an empty text 257 empty entries |
| Huffman.HuffInfo.ReadHeader | 01DataStruct/08Huffman/huff.c:328-339 | the saved entries are in the table again |
| Huffman.HuffInfo.Decompress | 01DataStruct/08Huffman/huff.c:396-416 | gives what decoding the bits of the body gives, stopping at the file size |
| Huffman.RoundTrip | 01DataStruct/08Huffman/huff.c:236-416 | the archive holds all that; compressing and decompressing restores the text exactly when no code is longer than 16 bits, always for fewer than 4181 bytes; the body has the sum of weight times depth in bits, rounded up to bytes, and no other tree over the values of the text gives fewer bytes |

## Left out

- Huffman.HuffInfo.Compress: requires code lengths of at most 32, because C leaves a shift by 32 or more places undefined (`huff.c:281`); `HuffLimits.ShiftsFitIff` says from which size on that matters. As everything about the compressor it requires no single repeated byte value (`HuffText.OneValueLeavesTable`), and at most 2^31 + 1 bytes (`HuffLimits.ComparisonLimit`).
- CalcUsual.EvaluatesRegrouped: requires that the evaluator's tree divides by no zero. What happens where it does and the text does not is given for products of three operands (`CalcUsual.SignInsideProduct`); in brackets the program ignores the error and goes on with fewer numbers.
- Calc.CalcInfo.CalcMain: requires a text on which the program returns at all. A closing bracket above too few numbers makes it loop for ever, and a remainder by zero traps; both are outcomes of `CalcSteps.Calc`.
- Calc.CalcInfo.NumHandle: numbers are unbounded; overflow of a C `int` is not modelled.
- ProCon.RunsAreBounded: counts no spurious wake-ups, of which there may be any number; the invariants hold with them.
- Josephus.JosephusLoop: the running count is unbounded, so a wrap-around of `size_t` within one run is not modelled; that of `start` is.
- BTree.BTree.Del: says nothing about the pointer fields of the removed node itself, which the source leaves as they were when the node has two children.
- LevelOrder.LevelOrderTraversal: requires a non-empty tree, as the source reads the root without a test for null.
- ArraySort.SelectSort: requires at least one element, as the source computes `nmemb - 1` unsigned.
- Files and streams, the raw layout of the archive header, its magic number and type, and the list pointers saved with each entry.
- `malloc`, `free`, `container_of` and tables of function pointers: nodes are typed objects with their payload, and allocation succeeds.
- The `dlist`, `stack` and `queue` wrappers, which are sequences here; callbacks of the traversals, which become the sequence of visited nodes.
- Debug output.
- `01DataStruct/01Slist`, `01DataStruct/02Dlist` and `01DataStruct/06Btree.bak`, simpler or older than what is modelled.
- `01DataStruct/05HashTable`, whose search keeps its position in static variables between calls.
- The other thread programs, sockets, servers, message queues, semaphores, pipes, signals, processes, terminal input and output, file locks and the address book.

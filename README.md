# StringNode: a string as a linked list of chars

`StringNode` stores a character string as a singly linked list with one
node per char. `null` stands for the empty string. Every operation is a
static method that takes head references. The operations:

- walk the list (`length`, `charAt`, `indexOf`, `compareAlpha`);
- recurse over it (`numOccurrences`, `lastIndexOf`, `numDiff`);
- build fresh lists (`convert`, `copy`, `concat`, `substring`);
- relink or rewrite the list in place (`deleteChar`, `insertChar`,
  `insertSorted`, `reverseInPlace`, `toUpperCase`).

The model has three modules:

- `Text` (text.dfy) says what each operation means on the character
  sequence a list represents. It proves the properties the library
  promises: dictionary order, positional difference, sorted insertion,
  reversal and substring.
- `Chain` (chain.dfy) holds the node class (`Node`, fields `ch` and
  `next`, both updated in place) and the invariant under which a head
  stands for a finite, acyclic list.
  - The list reachable from a head is described by a ghost sequence of
    its nodes, its spine (`IsChain(head, nodes)`); `Chars(nodes)` is the
    string it represents.
  - The spine is determined by the head (`ChainUnique`), and no node
    occurs in it twice (`ChainDistinct`).
  - Every link update of the library goes through one of a few small
    relinking methods: `Link`, `Append`, `AppendNode`, `AppendNew`,
    `SpliceIn`, `SpliceOut` and `TurnLink`.
- `StringNode` (string_node.dfy) models each Java method with its loops,
  branches and exception cases; the exception messages are not kept.
  A few Java methods are split into helper methods, each with its own
  contract: substring into `SubstringAsWritten`, `CopyFrom` and
  `CopyNodes`; concat into `Concat` and `AppendCopy`; insertSorted into
  `FindInsertionPoint` and `InsertSorted`. Every store to a `next` field
  is made by one of the relinking methods of `Chain`.
  - Each method takes the spine of every input list beside the head, and
    returns the spine of its result.
  - An exception is an `Err` value of `Text.Result`.
  - The three recursive Java methods are recursive here too:
    `numOccurrences` and `lastIndexOf` as functions, and `numDiff` as a
    method, because it calls the iterative `length`.

Operations that build lists promise `fresh` spines, so the copies share no
node with their inputs. The in-place ones state the whole new spine
(`DeleteAt`, `InsertAt` or `Reversed` of the old one), so the set of nodes
and their links are fully described.

For `substring`, the code and its documentation disagree. The
documentation (src/StringNode.java:357-369) promises the behaviour of
Java's `String.substring`. The code (src/StringNode.java:370-392) does
something else on exactly two kinds of input (`Text.SubstringDiffersExactly`):
every empty range within the string (0 <= start == end <= length), and,
on a non-empty string, every range with 0 <= start <= end that ends past
the length. The model has both:

- `StringNode.SubstringAsWritten` follows the code.
- `StringNode.Substring` is the corrected method.

See "## Findings".

## Model

| member | source | states |
|---|---|---|
| Chain.Node.constructor | src/StringNode.java:28-31 | a new node holds the given char and link |
| Chain.Chars | src/StringNode.java:402-412 | the string a list represents, the chars in traversal order; one char per node |
| Chain.ChainUnique | src/StringNode.java:15-19 | a head determines its list: two spines of the same head are equal |
| Chain.ChainDistinct | src/StringNode.java:15-19 | no node occurs twice in a list, so following next never cycles |
| Chain.CharsReversed | src/StringNode.java:480-501 | reversing the order of the nodes reverses the string they represent |
| Chain.Link | src/StringNode.java:136 | setting last.next to the head of list b, where a path a leads to last, gives the one list a, last, b; its string is the strings joined |
| Chain.Append | src/StringNode.java:135-136 | linking list b after the last node of a list gives one list whose string is the two strings joined |
| Chain.AppendNode | src/StringNode.java:163-165 | a node with a null link that is not yet in the list is linked after the last node; its string gains that node's char at the end |
| Chain.AppendNew | src/StringNode.java:163-165 | a fresh node with the given char and a null link is appended; its string gains that char at the end |
| Chain.TurnLink | src/StringNode.java:491-494 | turning node k's link back to the reversed first k nodes gives the reversed first k + 1 nodes; the old link still leads to the rest |
| Chain.SpliceIn | src/StringNode.java:260-261 | linking node x in after node i - 1 makes x node i; the string gets x's char inserted at i |
| Chain.SpliceOut | src/StringNode.java:211-212 | linking node i - 1 past node i removes node i and char i; node i keeps its link |
| StringNode.GetNode | src/StringNode.java:33-57 | node i when 0 <= i < length; null for a negative index, an empty string or a string too short |
| StringNode.LastNode | src/StringNode.java:142-148 | the final node of a non-empty list, whose link is null |
| StringNode.Length | src/StringNode.java:297-312 | the number of chars, 0 for null |
| StringNode.CharAt | src/StringNode.java:63-79 | char i for 0 <= i < length; IllegalArgumentException for an empty string and any other index |
| StringNode.IndexOf | src/StringNode.java:220-242 | the smallest index holding ch, or -1 when ch does not occur (also for null) |
| StringNode.NumOccurrences | src/StringNode.java:314-327 | the number of occurrences of ch (its multiplicity in the string) |
| StringNode.LastIndexOf | src/StringNode.java:460-478 | the largest index holding ch, or -1 when ch does not occur (also for null) |
| StringNode.CompareAlpha | src/StringNode.java:81-121 | 1 exactly when str1 comes first in dictionary order (Text.LexLess), 2 exactly when str2 does, 0 exactly when the strings are equal; null is the empty string |
| StringNode.NumDiff | src/StringNode.java:443-458 | the positional difference (Text.PositionalDiff): mismatches within the common length plus the excess length |
| StringNode.Convert | src/StringNode.java:150-169 | a list of fresh nodes whose string is s; null for the empty string |
| StringNode.Copy | src/StringNode.java:171-196 | a list of fresh nodes with the same string as the input, which is only read |
| StringNode.Concat | src/StringNode.java:123-140 | a list of fresh nodes holding str1's chars then str2's; null exactly when both are null; neither input changes |
| StringNode.AppendCopy | src/StringNode.java:134-136 | a fresh copy of the second list is linked after the last node of the first one; the string is the two joined |
| StringNode.CopyNodes | src/StringNode.java:380-388 | the copy loop of substring: succeeds exactly when count nodes follow, and then appends fresh copies of their chars; failure is the null dereference |
| StringNode.CopyFrom | src/StringNode.java:378-388 | copies count + 1 chars (at least one) from the start node onward into fresh nodes; fails exactly when fewer than that many exist |
| StringNode.SubstringAsWritten | src/StringNode.java:370-392 | the outcome of the code, exception by exception, as Text.SubstringAsWritten gives it; on success a fresh list |
| StringNode.Substring | src/StringNode.java:357-369 | Java's String.substring: the chars at start .. end - 1 in fresh nodes when 0 <= start <= end <= length, IndexOutOfBoundsException otherwise; the length is never computed |
| StringNode.DeleteChar | src/StringNode.java:198-218 | for 0 <= i < length, the spine and the string with element i removed; the head changes only when i == 0; IllegalArgumentException and nothing changed otherwise |
| StringNode.InsertChar | src/StringNode.java:244-267 | for 0 <= i <= length, a fresh node with ch becomes node i and the string has ch inserted at i; the head changes only when i == 0; IllegalArgumentException and nothing changed otherwise |
| StringNode.FindInsertionPoint | src/StringNode.java:277-283 | the search loop stops at the insertion point (Text.InsertionPoint); trail is the node before it |
| StringNode.InsertSorted | src/StringNode.java:269-295 | a fresh node with ch is linked in at the insertion point; the string is Text.InsertSortedSeq of the old one; the head is kept unless the insertion point is 0 |
| StringNode.ReverseInPlace | src/StringNode.java:480-501 | the new spine is the old one reversed (no node allocated or lost), the new head is the old last node, and the string is reversed |
| StringNode.ToUpperCase | src/StringNode.java:414-425 | every char is replaced by its image under the case mapping; the links do not change |
| Text.LastIndexCons | src/StringNode.java:465-477 | the recursion step of lastIndexOf: a later occurrence in the rest wins, and only when there is none does the head count |
| Text.FirstIsLastIffAtMostOnce | src/StringNode.java:460-478 | indexOf and lastIndexOf agree exactly when ch occurs at most once |
| Text.LexLessAfterCommonPrefix | src/StringNode.java:100-109 | after a common prefix, the order is decided by what follows it |
| Text.LexLessIrreflexive | src/StringNode.java:86-89 | no string comes before itself |
| Text.LexLessAsymmetric | src/StringNode.java:86-89 | two strings are never each before the other |
| Text.LexLessTransitive | src/StringNode.java:81-84 | dictionary order is transitive |
| Text.LexLessTotal | src/StringNode.java:86-89 | any two strings are ordered one way, the other, or equal |
| Text.ProperPrefixComesFirst | src/StringNode.java:91-93 | a proper prefix comes before the string ("be" before "become"; the empty string before any other) |
| Text.CommonPrefixExtends | src/StringNode.java:105-107 | proof step for StringNode.CompareAlpha's loop invariant: equal chars at k extend the common prefix by one |
| Text.FirstDifferenceDecides | src/StringNode.java:101-104 | at the first difference the smaller char's string comes first, the other one does not, and they differ |
| Text.CommonPrefixExhausted | src/StringNode.java:111-120 | when one walk ends, the shorter string comes first, and equal lengths mean equal strings |
| Text.PositionalDiffEmpty | src/StringNode.java:444-450 | against the empty string the difference is the other string's length, in both argument orders |
| Text.PositionalDiffCons | src/StringNode.java:452-457 | the recursion step of numDiff: one for differing heads, plus the difference of the rests |
| Text.PositionalDiffSymmetric | src/StringNode.java:443-458 | numDiff does not depend on the order of its arguments |
| Text.PositionalDiffZeroIffEqual | src/StringNode.java:443-458 | the difference is zero exactly for equal strings |
| Text.PositionalDiffTriangle | src/StringNode.java:443-458 | the triangle inequality, so numDiff is a metric |
| Text.PositionalDiffBounds | src/StringNode.java:443-458 | the difference is at least the length difference and at most the longer length |
| Text.InsertionPoint | src/StringNode.java:280-283 | every char before the point is less than ch, and the char at it (if any) is not |
| Text.InsertionPointUnique | src/StringNode.java:280-283 | that property determines the point: no other index has it |
| Text.InsertSortedKeepsSorted | src/StringNode.java:269-273 | inserting into a non-decreasing string keeps it non-decreasing |
| Text.InsertSortedMultiset | src/StringNode.java:285-292 | the result holds the old chars and exactly one more ch |
| Text.InsertAllSortedSorts | src/StringNode.java:269-295 | inserting chars one by one into the empty string yields a non-decreasing permutation of them |
| Text.DeleteAfterInsert | src/StringNode.java:202-267 | deleteChar at i undoes insertChar at i |
| Text.Reversed | src/StringNode.java:480-501 | the same length, with the element at i being the one at length - 1 - i |
| Text.ReversedPrefixStep | src/StringNode.java:490-497 | one loop step of reverseInPlace: the reversed prefix gains the next element at its front |
| Text.ReversedTwice | src/StringNode.java:480-501 | reversing twice gives the string back |
| Text.ReversedMultiset | src/StringNode.java:480-501 | reversal keeps every char with its multiplicity |
| Text.Substring | src/StringNode.java:357-369 | success exactly when 0 <= start <= end <= length, and then a piece of length end - start that splits the string as prefix, piece, suffix; IndexOutOfBoundsException otherwise |
| Text.SubstringAsWrittenParts | src/StringNode.java:378-388 | proof step for StringNode.SubstringAsWritten: when node start exists and end is within the length, Text.SubstringAsWritten is the prefix of max(end - start, 1) chars from start that StringNode.CopyFrom returns |
| Text.SubstringParts | src/StringNode.java:378-388 | proof step for StringNode.Substring: for 0 <= start < end <= length, Text.Substring is the prefix of end - start chars from start that StringNode.CopyFrom returns |
| Text.SubstringAsWrittenInContract | src/StringNode.java:370-392 | for 0 <= start < end <= length the code does what its documentation promises |
| Text.SubstringEmptyRangeDiffers | src/StringNode.java:375-383 | an empty range as written: ("hello", 2, 2) gives "l", ("", 0, 0) raises IndexOutOfBoundsException, ("hello", 5, 5) dereferences null; the documented result is "" in all three |
| Text.SubstringPastEndDiffers | src/StringNode.java:378-384 | ("hello", 2, 9), ("hello", 6, 7) and ("hello", 7, 7) as written dereference null; the documented result is IndexOutOfBoundsException |
| Text.SubstringDiffersExactly | src/StringNode.java:357-392 | Text.SubstringAsWritten, the outcome of the code exception by exception, differs from the documented Text.Substring exactly when 0 <= start == end <= length, or when the string is non-empty and 0 <= start <= end with end > length |
| Text.MapChars | src/StringNode.java:419-425 | the same length, with char i mapped by the given function |
| Text.CompareAlphaExamples | src/StringNode.java:548-565 | the recorded expected outputs: "be" before "become" and not the other way round, "be" before "orange", "orange" not before itself |
| Text.NumDiffExamples | src/StringNode.java:605-622 | the recorded expected outputs: numDiff("sing", "ring") = 1, numDiff("singing", "ring") = 4, numDiff(null, "ring") = 4 |

## Left out

- `print`, `printWithHyphens` and `read` (src/StringNode.java:332-355, 427-441) are console and input-stream I/O.
- `main` (src/StringNode.java:504-653) is a test driver. Some of its expected outputs are stated as the example lemmas above.
- `toString` (src/StringNode.java:402-412) builds a Java `String`. It is represented by the abstraction `Chain.Chars`.
- `convert` with a Java `null` String is not modelled: a Dafny string is a value, and the empty-string case covers the other half of that branch.
- `Character.toUpperCase` is a foreign Unicode case mapping. `StringNode.ToUpperCase` takes it as the parameter `upper` and proves that every char is mapped and no link changes.
- Java's 32-bit `int` is modelled as an unbounded integer. A list longer than 2^31 - 1 chars, where `length` and the index counters would wrap around, is not modelled.
- `StringNode.LastNode` requires a non-null string. The code dereferences its argument at once, and its only caller, `concat`, passes it a non-empty copy.
- The spine of each list is a ghost parameter beside the head. It is determined by the head (`Chain.ChainUnique`), so callers supply nothing the code does not already have.
- Two input lists of one call may share nodes. This is harmless for the operations that only read. The mutating operations have one input list each, and their `modifies` clauses name its nodes. Other references that a caller keeps into a relinked list are not tracked.
- Exceptions are `Err` values rather than control transfer, and only their class is kept. The messages ("the string is empty", "invalid index: " + i at src/StringNode.java:71, 78, 204, 206, 214 and 253, 263) are dropped, so the two IllegalArgumentException causes of `charAt` and of `deleteChar` are not told apart. `NullPointer` stands for the runtime's NullPointerException.
- Chars are Unicode scalar values (Dafny `char`), not UTF-16 code units (Java `char`). A supplementary character is one node here but two nodes, a surrogate pair, in Java, and a lone surrogate cannot be represented at all. So `convert` builds a different number of nodes for strings with supplementary characters. Also, `compareAlpha` and `insertSorted`, which compare chars by value, order such characters differently: Java puts a surrogate (0xD800-0xDFFF) below U+E000-U+FFFF, while here a supplementary character comes above them. Every operation agrees with the Java code on strings made of Basic Multilingual Plane characters other than surrogates.
- The final `return 0` of `compareAlpha` (src/StringNode.java:120) cannot be reached, since the three tests before it cover every way the loop ends. It is kept as written.

## Findings

| source | as written | input that shows it | evidently intended | confidence | as-written member | corrected member |
|---|---|---|---|---|---|---|
| src/StringNode.java:375-383 | an empty range within the string (0 <= start == end <= length) never yields the empty string: on the empty string the null check raises IndexOutOfBoundsException (its comment "end > length" is false for end == 0); for start == length node start is null and is dereferenced; otherwise node start is copied before the loop runs zero times, giving one char | substring("hello", 2, 2) gives "l"; substring(null, 0, 0) raises IndexOutOfBoundsException; substring("hello", 5, 5) raises NullPointerException | the empty string whenever 0 <= start == end <= length, as for String.substring (src/StringNode.java:357-361) | not executed | StringNode.SubstringAsWritten, Text.SubstringEmptyRangeDiffers, Text.SubstringDiffersExactly | StringNode.Substring |
| src/StringNode.java:378-384 | on a non-empty string, a range with 0 <= start <= end (an empty one included) that ends past the length dereferences null: node start when start >= length (line 379), a missing original node in the copy loop otherwise (line 384); on the empty string the null check at line 376 raises the right exception | substring("hello", 2, 9), substring("hello", 6, 7) and substring("hello", 7, 7) raise NullPointerException | IndexOutOfBoundsException whenever end > length, as for String.substring (src/StringNode.java:363-364) | not executed | StringNode.SubstringAsWritten, Text.SubstringPastEndDiffers, Text.SubstringDiffersExactly | StringNode.Substring |

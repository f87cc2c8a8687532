/** The static methods of StringNode: a string is a reference to the first
    node of a chain (null for the empty string), and each method takes the
    head together with the chain's ghost spine (see module Chain). */
module StringNode {
  import opened Text
  import opened Chain

  // ---------------------------------------------------------------------
  // Traversal helpers
  // ---------------------------------------------------------------------

  /** Node i of the chain, or null when i is negative or the chain is too short. */
  method GetNode(str: Node?, i: int, ghost nodes: seq<Node>) returns (n: Node?)
    requires IsChain(str, nodes)
    ensures n == if 0 <= i < |nodes| then nodes[i] else null
  {
    if i < 0 || str == null {
      return null;
    }
    var counter := 0;
    var trav := str;
    while trav != null
      invariant 0 <= counter <= i && counter <= |nodes|
      invariant trav == if counter < |nodes| then nodes[counter] else null
      decreases |nodes| - counter
    {
      if counter == i {
        return trav;
      }
      ChainNext(str, nodes, counter);
      counter := counter + 1;
      trav := trav.next;
    }
    return null;
  }

  /** The last node of a non-empty chain; the code dereferences its argument
      at once, so a null string is outside what it handles. */
  method LastNode(str: Node?, ghost nodes: seq<Node>) returns (last: Node)
    requires IsChain(str, nodes) && str != null
    ensures last == nodes[|nodes| - 1] && last.next == null
  {
    var trav: Node := str;
    ghost var k := 0;
    while trav.next != null
      invariant 0 <= k < |nodes| && trav == nodes[k]
      decreases |nodes| - k
    {
      ChainNext(str, nodes, k);
      trav := trav.next;
      k := k + 1;
    }
    ChainNext(str, nodes, k);
    return trav;
  }

  // ---------------------------------------------------------------------
  // Queries
  // ---------------------------------------------------------------------

  method Length(str: Node?, ghost nodes: seq<Node>) returns (n: nat)
    requires IsChain(str, nodes)
    ensures n == |Chars(nodes)|
  {
    n := 0;
    var trav := str;
    while trav != null
      invariant n <= |nodes| && trav == if n < |nodes| then nodes[n] else null
      decreases |nodes| - n
    {
      ChainNext(str, nodes, n);
      n := n + 1;
      trav := trav.next;
    }
  }

  /** The char at index i, or IllegalArgument when the string is empty or
      i is outside 0 .. length - 1. */
  method CharAt(str: Node?, i: int, ghost nodes: seq<Node>) returns (r: Result<char>)
    requires IsChain(str, nodes)
    ensures 0 <= i < |Chars(nodes)| ==> r == Ok(Chars(nodes)[i])
    ensures !(0 <= i < |Chars(nodes)|) ==> r == Err(IllegalArgument)
  {
    if str == null {
      return Err(IllegalArgument);
    }
    var node := GetNode(str, i, nodes);
    if node != null {
      CharsAt(nodes, i);
      return Ok(node.ch);
    } else {
      return Err(IllegalArgument);
    }
  }

  /** The first index holding ch, or -1. */
  method IndexOf(str: Node?, ch: char, ghost nodes: seq<Node>) returns (r: int)
    requires IsChain(str, nodes)
    ensures IsFirstIndex(Chars(nodes), ch, r)
  {
    if str == null {
      return -1;
    }
    var trav := str;
    var currentIndex := 0;
    while trav != null
      invariant currentIndex <= |nodes|
      invariant trav == if currentIndex < |nodes| then nodes[currentIndex] else null
      invariant ch !in Chars(nodes)[..currentIndex]
      decreases |nodes| - currentIndex
    {
      CharsAt(nodes, currentIndex);
      if trav.ch == ch {
        return currentIndex;
      }
      assert Chars(nodes)[..currentIndex + 1] == Chars(nodes)[..currentIndex] + [trav.ch];
      ChainNext(str, nodes, currentIndex);
      currentIndex := currentIndex + 1;
      trav := trav.next;
    }
    assert Chars(nodes)[..currentIndex] == Chars(nodes);
    return -1;
  }

  /** The number of occurrences of ch. */
  function NumOccurrences(str: Node?, ch: char, ghost nodes: seq<Node>): (r: nat)
    reads nodes
    requires IsChain(str, nodes)
    ensures r == multiset(Chars(nodes))[ch]
    decreases |nodes|
  {
    if str == null then 0
    else
      ChainTail(str, nodes);
      var numOccur := NumOccurrences(str.next, ch, nodes[1..]);
      if str.ch == ch then numOccur + 1 else numOccur
  }

  /** The last index holding ch, or -1: found on the way back from the end
      of the chain, so the latest occurrence wins. */
  function LastIndexOf(str: Node?, ch: char, ghost nodes: seq<Node>): (r: int)
    reads nodes
    requires IsChain(str, nodes)
    ensures IsLastIndex(Chars(nodes), ch, r)
    decreases |nodes|
  {
    if str == null then -1
    else
      ChainTail(str, nodes);
      var lastIndexInRest := LastIndexOf(str.next, ch, nodes[1..]);
      LastIndexCons(str.ch, Chars(nodes[1..]), ch, lastIndexInRest);
      if lastIndexInRest == -1 then
        (if str.ch == ch then 0 else -1)
      else
        1 + lastIndexInRest
  }

  /** Compares in dictionary order: 1 when str1 comes first, 2 when str2
      comes first, 0 when both hold the same chars; null is the empty string. */
  method CompareAlpha(str1: Node?, str2: Node?, ghost nodes1: seq<Node>, ghost nodes2: seq<Node>)
    returns (r: int)
    requires IsChain(str1, nodes1) && IsChain(str2, nodes2)
    ensures r == 1 <==> LexLess(Chars(nodes1), Chars(nodes2))
    ensures r == 2 <==> LexLess(Chars(nodes2), Chars(nodes1))
    ensures r == 0 <==> Chars(nodes1) == Chars(nodes2)
  {
    ghost var s, t := Chars(nodes1), Chars(nodes2);
    var trav1, trav2 := str1, str2;
    ghost var k := 0;
    while trav1 != null && trav2 != null
      invariant k <= |nodes1| && k <= |nodes2|
      invariant trav1 == if k < |nodes1| then nodes1[k] else null
      invariant trav2 == if k < |nodes2| then nodes2[k] else null
      invariant s[..k] == t[..k]
      decreases |nodes1| - k
    {
      CharsAt(nodes1, k);
      CharsAt(nodes2, k);
      if trav1.ch < trav2.ch {
        FirstDifferenceDecides(s, t, k);
        return 1;
      } else if trav2.ch < trav1.ch {
        FirstDifferenceDecides(t, s, k);
        return 2;
      }
      CommonPrefixExtends(s, t, k);
      ChainNext(str1, nodes1, k);
      ChainNext(str2, nodes2, k);
      trav1 := trav1.next;
      trav2 := trav2.next;
      k := k + 1;
    }
    CommonPrefixExhausted(s, t, k);
    if trav1 == null && trav2 == null {
      return 0;
    } else if trav1 == null {
      return 1;
    } else if trav2 == null {
      return 2;
    }
    return 0;
  }

  /** The number of positions at which the strings differ, each position
      past the end of the shorter one counting as a difference. */
  method NumDiff(str1: Node?, str2: Node?, ghost nodes1: seq<Node>, ghost nodes2: seq<Node>)
    returns (r: nat)
    requires IsChain(str1, nodes1) && IsChain(str2, nodes2)
    ensures r == PositionalDiff(Chars(nodes1), Chars(nodes2))
    decreases |nodes1|
  {
    if str1 == null && str2 == null {
      return 0;
    } else if str1 == null {
      PositionalDiffEmpty(Chars(nodes2));
      r := Length(str2, nodes2);
      return;
    } else if str2 == null {
      PositionalDiffEmpty(Chars(nodes1));
      r := Length(str1, nodes1);
      return;
    }
    ChainTail(str1, nodes1);
    ChainTail(str2, nodes2);
    var numDiffInRest := NumDiff(str1.next, str2.next, nodes1[1..], nodes2[1..]);
    PositionalDiffCons(str1.ch, Chars(nodes1[1..]), str2.ch, Chars(nodes2[1..]));
    if str1.ch == str2.ch {
      return numDiffInRest;
    } else {
      return 1 + numDiffInRest;
    }
  }

  // ---------------------------------------------------------------------
  // Construction: convert, copy, concat, substring
  // ---------------------------------------------------------------------

  /** A fresh chain holding the chars of s; null for the empty string. */
  method Convert(s: string) returns (head: Node?, ghost nodes: seq<Node>)
    ensures IsChain(head, nodes) && Chars(nodes) == s
    ensures fresh(nodes)
  {
    if |s| == 0 {
      return null, [];
    }
    var firstNode := new Node(s[0], null);
    var prevNode := firstNode;
    nodes := [firstNode];
    ChainSingleton(firstNode);
    for i := 1 to |s|
      invariant |nodes| == i && prevNode == nodes[i - 1]
      invariant IsChain(firstNode, nodes) && Chars(nodes) == s[..i]
      invariant fresh(nodes)
    {
      var nextNode := AppendNew(firstNode, nodes, prevNode, s[i]);
      prevNode := nextNode;
      PrefixSnoc(s, i);
      nodes := nodes + [nextNode];
    }
    return firstNode, nodes;
  }

  /** A chain of fresh nodes holding the same chars as str; the input is
      only read (there is no modifies clause), and the copy shares no node
      with it. */
  method Copy(str: Node?, ghost nodes: seq<Node>) returns (head: Node?, ghost copyNodes: seq<Node>)
    requires IsChain(str, nodes)
    ensures IsChain(head, copyNodes) && Chars(copyNodes) == old(Chars(nodes))
    ensures fresh(copyNodes)
  {
    if str == null {
      return null, [];
    }
    ghost var cs := Chars(nodes);
    var newFirst: Node? := null;
    var trav := str;
    var prevNode: Node? := null;
    copyNodes := [];
    while trav != null
      invariant IsChain(str, nodes) && Chars(nodes) == cs
      invariant |copyNodes| <= |nodes|
      invariant trav == if |copyNodes| < |nodes| then nodes[|copyNodes|] else null
      invariant IsChain(newFirst, copyNodes) && Chars(copyNodes) == cs[..|copyNodes|]
      invariant prevNode == if copyNodes == [] then null else copyNodes[|copyNodes| - 1]
      invariant fresh(copyNodes)
      decreases |nodes| - |copyNodes|
    {
      CharsAt(nodes, |copyNodes|);
      var newNode;
      if prevNode == null {
        newNode := new Node(trav.ch, null);
        newFirst := newNode;
        ChainSingleton(newNode);
        assert copyNodes + [newNode] == [newNode];
      } else {
        newNode := AppendNew(newFirst, copyNodes, prevNode, trav.ch);
      }
      prevNode := newNode;
      ChainNext(str, nodes, |copyNodes|);
      trav := trav.next;
      PrefixSnoc(cs, |copyNodes|);
      copyNodes := copyNodes + [newNode];
    }
    assert cs[..|copyNodes|] == cs;
    return newFirst, copyNodes;
  }

  /** A fresh chain holding str1's chars followed by str2's; neither input
      is changed, and two empty strings give null. */
  method Concat(str1: Node?, str2: Node?, ghost nodes1: seq<Node>, ghost nodes2: seq<Node>)
    returns (cat: Node?, ghost catNodes: seq<Node>)
    requires IsChain(str1, nodes1) && IsChain(str2, nodes2)
    ensures IsChain(cat, catNodes) && Chars(catNodes) == old(Chars(nodes1) + Chars(nodes2))
    ensures fresh(catNodes)
    ensures cat == null <==> str1 == null && str2 == null
  {
    if str1 == null {
      cat, catNodes := Copy(str2, nodes2);
    } else if str2 == null {
      cat, catNodes := Copy(str1, nodes1);
      assert Chars(nodes2) == [];
    } else {
      ghost var frontNodes;
      cat, frontNodes := Copy(str1, nodes1);
      var lastNode := LastNode(cat, frontNodes);
      ghost var backNodes := AppendCopy(cat, frontNodes, lastNode, str2, nodes2);
      catNodes := frontNodes + backNodes;
    }
  }

  /** The second half of concat: a copy of the chain at str is linked
      after last, the final node of the fresh chain at first. */
  method AppendCopy(first: Node, ghost front: seq<Node>, last: Node, str: Node?, ghost nodes: seq<Node>)
    returns (ghost backNodes: seq<Node>)
    requires IsChain(first, front) && front != [] && last == front[|front| - 1]
    requires IsChain(str, nodes)
    modifies last`next
    ensures IsChain(first, front + backNodes)
    ensures Chars(front + backNodes) == old(Chars(front)) + old(Chars(nodes))
    ensures fresh(backNodes)
  {
    var back;
    back, backNodes := Copy(str, nodes);
    Append(first, front, last, back, backNodes);
  }

  /** The copying loop of substring. first is the copy of node start,
      made before the loop, and trav heads rest, the part of the original
      after node start. count times (not at all when count <= 0) a fresh
      copy of the next original node is linked after the last copy. ok is
      false when the original runs out first: the code then dereferences
      null. */
  method CopyNodes(trav: Node?, count: int, first: Node, ghost rest: seq<Node>)
    returns (ok: bool, ghost result: seq<Node>)
    requires IsChain(trav, rest) && first.next == null && first !in rest
    modifies first`next
    ensures ok <==> count <= |rest|
    ensures ok ==> IsChain(first, result) && result[0] == first
    ensures ok ==> forall j :: 0 < j < |result| ==> fresh(result[j])
    ensures ok ==> Chars(result) == [old(first.ch)] + old(Chars(rest))[..if count <= 0 then 0 else count]
  {
    ghost var cs, c0 := Chars(rest), first.ch;
    var travOriginal := trav;
    var prevCopy := first;
    result := [first];
    ChainSingleton(first);
    var k := 0;
    while k < count
      invariant 0 <= k && (k <= count || k == 0) && k <= |rest|
      invariant travOriginal == if k < |rest| then rest[k] else null
      invariant |result| == k + 1 && prevCopy == result[k] && result[0] == first
      invariant prevCopy == first || fresh(prevCopy)
      invariant forall j :: 0 < j < |result| ==> fresh(result[j])
      invariant IsChain(first, result) && Chars(result) == [c0] + cs[..k]
      invariant IsChain(trav, rest) && Chars(rest) == cs
      decreases count - k
    {
      if travOriginal == null {
        return false, result;
      }
      CharsAt(rest, k);
      ChainNext(trav, rest, k);
      ConcatPrefixSnoc([c0], cs, k);
      assert prevCopy !in rest && prevCopy != travOriginal;
      var copy := AppendNew(first, result, prevCopy, travOriginal.ch);
      prevCopy := copy;
      travOriginal := travOriginal.next;
      result := result + [copy];
      k := k + 1;
    }
    return true, result;
  }

  /** The copying part of substring: node start (startNode, the head of
      rest) is copied, then the loop copies count more nodes. ok is false
      when rest runs out first. */
  method CopyFrom(startNode: Node, count: int, ghost rest: seq<Node>)
    returns (ok: bool, subStringStart: Node, ghost subNodes: seq<Node>)
    requires IsChain(startNode, rest)
    ensures ok <==> count < |rest|
    ensures ok ==> IsChain(subStringStart, subNodes) && fresh(subNodes)
    ensures ok ==> Chars(subNodes) == old(Chars(rest))[..if count <= 0 then 1 else count + 1]
  {
    ghost var cs := Chars(rest);
    ChainTail(startNode, rest);
    subStringStart := new Node(startNode.ch, null);
    ok, subNodes := CopyNodes(startNode.next, count, subStringStart, rest[1..]);
    if ok {
      HeadAndPrefix(cs, if count <= 0 then 0 else count);
    }
  }

  /** substring as its code is written (see SubstringAsWritten in module
      Text): the two explicit checks; then node start is fetched and
      copied; there is a null dereference when it does not exist or when
      the loop runs out of nodes. */
  method SubstringAsWritten(str: Node?, start: int, end: int, ghost nodes: seq<Node>)
    returns (r: Result<Node?>, ghost subNodes: seq<Node>)
    requires IsChain(str, nodes)
    ensures r.Err? ==> Text.SubstringAsWritten(Chars(nodes), start, end) == Err(r.error)
    ensures r.Ok? ==>
      Text.SubstringAsWritten(Chars(nodes), start, end) == Ok(Chars(subNodes)) &&
      IsChain(r.value, subNodes) && fresh(subNodes)
  {
    if start < 0 || end < start {
      return Err(IndexOutOfBounds), [];
    }
    if str == null {
      return Err(IndexOutOfBounds), [];
    }
    var startNode := GetNode(str, start, nodes);
    if startNode == null {
      return Err(NullPointer), [];
    }
    ghost var cs := Chars(nodes);
    ChainSplit(str, nodes, start);
    CharsSplit(nodes, start);
    var ok, subStringStart;
    ok, subStringStart, subNodes := CopyFrom(startNode, end - 1 - start, nodes[start..]);
    if !ok {
      return Err(NullPointer), [];
    }
    SubstringAsWrittenParts(cs, start, end);
    return Ok(subStringStart), subNodes;
  }

  /** substring with the behaviour its documentation promises (that of
      Text.Substring), changed from the code only where the code goes
      wrong: an empty range gives the empty string once start is known to
      be at most the length (node start - 1 exists), and running out of
      nodes is IndexOutOfBounds. The length is never computed. */
  method Substring(str: Node?, start: int, end: int, ghost nodes: seq<Node>)
    returns (r: Result<Node?>, ghost subNodes: seq<Node>)
    requires IsChain(str, nodes)
    ensures r.Err? ==> Text.Substring(Chars(nodes), start, end) == Err(r.error)
    ensures r.Ok? ==>
      Text.Substring(Chars(nodes), start, end) == Ok(Chars(subNodes)) &&
      IsChain(r.value, subNodes) && fresh(subNodes)
  {
    if start < 0 || end < start {
      return Err(IndexOutOfBounds), [];
    }
    if start == end {
      if start > 0 {
        var prevNode := GetNode(str, start - 1, nodes);
        if prevNode == null {
          return Err(IndexOutOfBounds), [];
        }
      }
      return Ok(null), [];
    }
    var startNode := GetNode(str, start, nodes);
    if startNode == null {
      return Err(IndexOutOfBounds), [];
    }
    ghost var cs := Chars(nodes);
    ChainSplit(str, nodes, start);
    CharsSplit(nodes, start);
    var ok, subStringStart;
    ok, subStringStart, subNodes := CopyFrom(startNode, end - 1 - start, nodes[start..]);
    if !ok {
      return Err(IndexOutOfBounds), [];
    }
    SubstringParts(cs, start, end);
    return Ok(subStringStart), subNodes;
  }

  // ---------------------------------------------------------------------
  // Updates in place: deleteChar, insertChar, insertSorted,
  // reverseInPlace, toUpperCase
  // ---------------------------------------------------------------------

  /** Unlinks node i and returns the (possibly new) head; the unlinked node
      keeps its own link. An empty string, a negative index and an index
      past the last char are IllegalArgument, and then nothing changes. */
  method DeleteChar(str: Node?, i: int, ghost nodes: seq<Node>)
    returns (r: Result<Node?>, ghost newNodes: seq<Node>)
    requires IsChain(str, nodes)
    modifies nodes`next
    ensures !(0 <= i < |nodes|) ==> r == Err(IllegalArgument) && unchanged(nodes)
    ensures 0 <= i < |nodes| ==>
      r.Ok? && newNodes == DeleteAt(nodes, i) && IsChain(r.value, newNodes) &&
      Chars(newNodes) == DeleteAt(old(Chars(nodes)), i) && nodes[i].next == old(nodes[i].next)
    ensures 0 < i < |nodes| ==> r == Ok(str)
  {
    if str == null {
      return Err(IllegalArgument), nodes;
    } else if i < 0 {
      return Err(IllegalArgument), nodes;
    } else if i == 0 {
      ChainTail(str, nodes);
      assert DeleteAt(nodes, 0) == nodes[1..];
      assert DeleteAt(Chars(nodes), 0) == Chars(nodes)[1..];
      return Ok(str.next), nodes[1..];
    }
    var prevNode := GetNode(str, i - 1, nodes);
    if prevNode != null {
      ChainNext(str, nodes, i - 1);
    }
    if prevNode != null && prevNode.next != null {
      SpliceOut(str, nodes, i, prevNode);
      return Ok(str), DeleteAt(nodes, i);
    } else {
      return Err(IllegalArgument), nodes;
    }
  }

  /** Links a fresh node holding ch in before char i (i == length appends)
      and returns the (possibly new) head. A negative index and one past
      the length are IllegalArgument, and then nothing changes. */
  method InsertChar(str: Node?, i: int, ch: char, ghost nodes: seq<Node>)
    returns (r: Result<Node?>, ghost newNodes: seq<Node>)
    requires IsChain(str, nodes)
    modifies nodes`next
    ensures !(0 <= i <= |nodes|) ==> r == Err(IllegalArgument) && unchanged(nodes)
    ensures 0 <= i <= |nodes| ==>
      r.Ok? && |newNodes| == |nodes| + 1 && fresh(newNodes[i]) &&
      newNodes == InsertAt(nodes, i, newNodes[i]) && IsChain(r.value, newNodes) &&
      Chars(newNodes) == InsertAt(old(Chars(nodes)), i, ch)
    ensures 0 < i <= |nodes| ==> r == Ok(str)
  {
    if i < 0 {
      return Err(IllegalArgument), nodes;
    } else if i == 0 {
      var newNode := new Node(ch, str);
      ChainCons(newNode, str, nodes);
      InsertAtFront(nodes, newNode);
      InsertAtFront(Chars(nodes), ch);
      return Ok(newNode), [newNode] + nodes;
    }
    var prevNode := GetNode(str, i - 1, nodes);
    if prevNode != null {
      ChainNext(str, nodes, i - 1);
      var newNode := new Node(ch, prevNode.next);
      SpliceIn(str, nodes, i, prevNode, newNode);
      return Ok(str), InsertAt(nodes, i, newNode);
    } else {
      return Err(IllegalArgument), nodes;
    }
  }

  /** The search loop of insertSorted: walks past every char less than ch
      and stops at the insertion point, trail being the node before it. */
  method FindInsertionPoint(str: Node?, ch: char, ghost nodes: seq<Node>)
    returns (trail: Node?, trav: Node?, ghost k: nat)
    requires IsChain(str, nodes)
    ensures k == InsertionPoint(Chars(nodes), ch)
    ensures trav == if k < |nodes| then nodes[k] else null
    ensures trail == if k == 0 then null else nodes[k - 1]
  {
    ghost var cs := Chars(nodes);
    trail := null;
    trav := str;
    k := 0;
    while trav != null && trav.ch < ch
      invariant k <= |nodes|
      invariant trav == if k < |nodes| then nodes[k] else null
      invariant trail == if k == 0 then null else nodes[k - 1]
      invariant forall j :: 0 <= j < k ==> cs[j] < ch
      invariant IsChain(str, nodes) && Chars(nodes) == cs
      decreases |nodes| - k
    {
      CharsAt(nodes, k);
      ChainNext(str, nodes, k);
      trail := trav;
      trav := trav.next;
      k := k + 1;
    }
    if trav != null {
      CharsAt(nodes, k);
    }
    InsertionPointUnique(cs, ch, k);
  }

  /** Links a fresh node holding ch in before the first char that is not
      less than ch (at the end when there is none), so that a
      non-decreasing string stays non-decreasing (InsertSortedKeepsSorted
      in module Text); returns the (possibly new) head. */
  method InsertSorted(str: Node?, ch: char, ghost nodes: seq<Node>)
    returns (head: Node, ghost newNodes: seq<Node>)
    requires IsChain(str, nodes)
    modifies nodes`next
    ensures IsChain(head, newNodes) && Chars(newNodes) == InsertSortedSeq(old(Chars(nodes)), ch)
    ensures |newNodes| == |nodes| + 1
    ensures fresh(newNodes[InsertionPoint(old(Chars(nodes)), ch)])
    ensures newNodes == InsertAt(nodes, InsertionPoint(old(Chars(nodes)), ch),
                                 newNodes[InsertionPoint(old(Chars(nodes)), ch)])
    ensures 0 < InsertionPoint(old(Chars(nodes)), ch) ==> head == str
  {
    ghost var cs := Chars(nodes);
    var trail, trav, k := FindInsertionPoint(str, ch, nodes);
    var newNode := new Node(ch, trav);
    InsertAtIndex(nodes, k, newNode);
    if trail == null {
      ChainCons(newNode, str, nodes);
      InsertAtFront(nodes, newNode);
      InsertAtFront(cs, ch);
      return newNode, [newNode] + nodes;
    } else {
      SpliceIn(str, nodes, k, trail, newNode);
      return str, InsertAt(nodes, k, newNode);
    }
  }

  /** Reverses the chain by turning every link around; returns the old last
      node, which is now the head. No char changes. */
  method ReverseInPlace(str: Node?, ghost nodes: seq<Node>) returns (head: Node?, ghost newNodes: seq<Node>)
    requires IsChain(str, nodes)
    modifies nodes`next
    ensures newNodes == Reversed(nodes) && IsChain(head, newNodes)
    ensures Chars(newNodes) == Reversed(old(Chars(nodes)))
  {
    if str == null {
      return null, [];
    }
    ghost var cs := Chars(nodes);
    ChainDistinct(str, nodes);
    var newFirst: Node? := null;
    var prev: Node? := null;
    var trav: Node? := str;
    ghost var k := 0;
    while trav != null
      invariant k <= |nodes|
      invariant trav == if k < |nodes| then nodes[k] else null
      invariant IsChain(trav, nodes[k..])
      invariant IsChain(prev, Reversed(nodes[..k]))
      invariant newFirst == if k == |nodes| then prev else null
      invariant Chars(nodes) == cs
      decreases |nodes| - k
    {
      var nextNode := trav.next;
      TurnLink(trav, prev, nodes, k);
      prev := trav;
      trav := nextNode;
      k := k + 1;
      if nextNode == null {
        newFirst := prev;
      }
    }
    assert nodes[..k] == nodes;
    CharsReversed(nodes);
    return newFirst, Reversed(nodes);
  }

  /** Replaces every char by its upper-case form, in place; links do not
      change. The case mapping is the parameter upper. */
  method ToUpperCase(str: Node?, ghost nodes: seq<Node>, upper: char -> char)
    requires IsChain(str, nodes)
    modifies nodes`ch
    ensures IsChain(str, nodes) && Chars(nodes) == MapChars(old(Chars(nodes)), upper)
  {
    ghost var cs := Chars(nodes);
    CharsAtAll(nodes);
    ChainDistinct(str, nodes);
    var trav := str;
    ghost var k := 0;
    while trav != null
      invariant k <= |nodes| && trav == if k < |nodes| then nodes[k] else null
      invariant IsChain(str, nodes)
      invariant forall j :: 0 <= j < k ==> nodes[j].ch == upper(cs[j])
      invariant forall j :: k <= j < |nodes| ==> nodes[j].ch == cs[j]
      decreases |nodes| - k
    {
      trav.ch := upper(trav.ch);
      ChainNext(str, nodes, k);
      trav := trav.next;
      k := k + 1;
    }
    CharsPointwise(nodes, MapChars(cs, upper));
  }
}

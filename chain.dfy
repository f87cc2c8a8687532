/** The nodes of a linked-list string and the invariant that makes a head
    reference stand for a finite, acyclic chain.

    A string is a reference to its first node, null for the empty string.
    The chain reachable from a head is described by a ghost sequence of
    its nodes, in order (its "spine"): the operations take the spine of
    each input alongside the head and return the spine of their result.
    The spine is determined by the head (ChainUnique), so it adds no
    information, only a handle for the proofs; and no node occurs in it
    twice (ChainDistinct), so following next never cycles. */
module Chain {
  import opened Text

  class Node {
    var ch: char
    var next: Node?

    constructor (c: char, n: Node?)
      ensures ch == c && next == n
    {
      ch := c;
      next := n;
    }
  }

  /** Following next from head meets exactly the nodes of nodes, in order,
      and then arrives at end. */
  ghost predicate Path(head: Node?, nodes: seq<Node>, end: Node?)
    reads nodes`next
    decreases |nodes|
  {
    if nodes == [] then head == end
    else head == nodes[0] && Path(nodes[0].next, nodes[1..], end)
  }

  /** nodes is the chain that starts at head: following next from head
      meets exactly these nodes and then null. */
  ghost predicate IsChain(head: Node?, nodes: seq<Node>)
    reads nodes`next
  {
    Path(head, nodes, null)
  }

  ghost predicate Distinct(nodes: seq<Node>) {
    forall i, j :: 0 <= i < j < |nodes| ==> nodes[i] != nodes[j]
  }

  /** The string a chain represents: its chars in traversal order. */
  ghost function Chars(nodes: seq<Node>): (s: seq<char>)
    reads nodes`ch
    ensures |s| == |nodes|
  {
    if nodes == [] then [] else [nodes[0].ch] + Chars(nodes[1..])
  }

  // ---------------------------------------------------------------------
  // Chars
  // ---------------------------------------------------------------------

  /** Char i of the string is the char of node i. */
  lemma {:induction false} CharsAt(nodes: seq<Node>, i: nat)
    requires i < |nodes|
    ensures Chars(nodes)[i] == nodes[i].ch
  {
    if i > 0 {
      CharsAt(nodes[1..], i - 1);
    }
  }

  lemma CharsAtAll(nodes: seq<Node>)
    ensures forall j :: 0 <= j < |nodes| ==> Chars(nodes)[j] == nodes[j].ch
  {
    forall j | 0 <= j < |nodes| ensures Chars(nodes)[j] == nodes[j].ch {
      CharsAt(nodes, j);
    }
  }

  lemma {:induction false} CharsConcat(a: seq<Node>, b: seq<Node>)
    ensures Chars(a + b) == Chars(a) + Chars(b)
  {
    if a == [] {
      assert a + b == b;
    } else {
      assert (a + b)[0] == a[0] && (a + b)[1..] == a[1..] + b;
      CharsConcat(a[1..], b);
    }
  }

  lemma CharsSingleton(n: Node)
    ensures Chars([n]) == [n.ch]
  {
    assert [n][1..] == [];
  }

  /** The chars of a prefix and of a suffix of the spine. */
  lemma CharsSplit(nodes: seq<Node>, k: nat)
    requires k <= |nodes|
    ensures Chars(nodes[..k]) == Chars(nodes)[..k]
    ensures Chars(nodes[k..]) == Chars(nodes)[k..]
  {
    assert nodes == nodes[..k] + nodes[k..];
    CharsConcat(nodes[..k], nodes[k..]);
  }

  /** The chars of a + [n] + b. */
  lemma CharsAround(a: seq<Node>, n: Node, b: seq<Node>)
    ensures Chars(a + [n] + b) == Chars(a) + [n.ch] + Chars(b)
  {
    CharsConcat(a + [n], b);
    CharsConcat(a, [n]);
    CharsSingleton(n);
  }

  /** Chars is determined node by node. */
  lemma {:induction false} CharsPointwise(nodes: seq<Node>, t: seq<char>)
    requires |t| == |nodes|
    requires forall j :: 0 <= j < |nodes| ==> nodes[j].ch == t[j]
    ensures Chars(nodes) == t
  {
    if nodes != [] {
      CharsPointwise(nodes[1..], t[1..]);
      assert t == [t[0]] + t[1..];
    }
  }

  /** Reversing the spine reverses the string. */
  lemma {:induction false} CharsReversed(nodes: seq<Node>)
    ensures Chars(Reversed(nodes)) == Reversed(Chars(nodes))
  {
    if nodes != [] {
      CharsReversed(nodes[1..]);
      CharsConcat(Reversed(nodes[1..]), [nodes[0]]);
      CharsSingleton(nodes[0]);
    }
  }

  // ---------------------------------------------------------------------
  // Walking a chain
  // ---------------------------------------------------------------------

  /** The chain after the head starts at head.next. */
  lemma ChainTail(head: Node?, nodes: seq<Node>)
    requires IsChain(head, nodes) && head != null
    ensures IsChain(head.next, nodes[1..])
    ensures Chars(nodes) == [head.ch] + Chars(nodes[1..])
  {
    assert Path(nodes[0].next, nodes[1..], null);
  }

  /** Node k links to node k + 1, or to null when it is the last. */
  lemma {:induction false} ChainNext(head: Node?, nodes: seq<Node>, k: nat)
    requires IsChain(head, nodes) && k < |nodes|
    ensures nodes[k].next == if k + 1 < |nodes| then nodes[k + 1] else null
  {
    assert IsChain(nodes[0].next, nodes[1..]);
    if k > 0 {
      ChainNext(nodes[0].next, nodes[1..], k - 1);
      assert nodes[1..][k - 1] == nodes[k];
    } else if |nodes| > 1 {
      assert nodes[1..][0] == nodes[1];
    }
  }

  /** Following next from head for k steps: the first k nodes form a path
      to node k, and the chain goes on from there. */
  lemma {:induction false} ChainSplit(head: Node?, nodes: seq<Node>, k: nat)
    requires IsChain(head, nodes) && k <= |nodes|
    ensures Path(head, nodes[..k], if k < |nodes| then nodes[k] else null)
    ensures IsChain(if k < |nodes| then nodes[k] else null, nodes[k..])
  {
    if k > 0 {
      ChainSplit(nodes[0].next, nodes[1..], k - 1);
      assert nodes[..k][0] == nodes[0] && nodes[..k][1..] == nodes[1..][..k - 1];
      assert nodes[1..][k - 1..] == nodes[k..];
    }
  }

  /** A path to m followed by a chain from m is a chain. */
  lemma {:induction false} PathJoin(head: Node?, a: seq<Node>, m: Node?, b: seq<Node>)
    requires Path(head, a, m) && IsChain(m, b)
    ensures IsChain(head, a + b)
  {
    if a == [] {
      assert a + b == b;
    } else {
      PathJoin(a[0].next, a[1..], m, b);
      assert (a + b)[0] == a[0] && (a + b)[1..] == a[1..] + b;
    }
  }

  /** A node linked to the head of a chain starts a chain one longer. */
  lemma ChainCons(n: Node, head: Node?, nodes: seq<Node>)
    requires IsChain(head, nodes) && n.next == head
    ensures IsChain(n, [n] + nodes)
    ensures Chars([n] + nodes) == [n.ch] + Chars(nodes)
  {
    assert ([n] + nodes)[0] == n && ([n] + nodes)[1..] == nodes;
  }

  /** Two spines of the same head are the same sequence of nodes. */
  lemma {:induction false} ChainUnique(head: Node?, a: seq<Node>, b: seq<Node>)
    requires IsChain(head, a) && IsChain(head, b)
    ensures a == b
  {
    if head != null {
      ChainUnique(head.next, a[1..], b[1..]);
      assert a == [head] + a[1..] && b == [head] + b[1..];
    }
  }

  /** No node of a chain occurs in it twice: a repeated node would start
      two chains of different lengths. */
  lemma {:induction false} ChainDistinct(head: Node?, nodes: seq<Node>)
    requires IsChain(head, nodes)
    ensures Distinct(nodes)
  {
    if head != null {
      ChainDistinct(head.next, nodes[1..]);
      forall j | 0 < j < |nodes| ensures nodes[0] != nodes[j] {
        if nodes[0] == nodes[j] {
          ChainSplit(head, nodes, j);
          ChainUnique(head, nodes, nodes[j..]);
        }
      }
      forall i, j | 0 <= i < j < |nodes| ensures nodes[i] != nodes[j] {
        if i > 0 {
          assert nodes[i] == nodes[1..][i - 1] && nodes[j] == nodes[1..][j - 1];
        }
      }
    }
  }

  /** Node k of a chain occurs neither before nor after position k. */
  lemma ChainNodeOnce(head: Node?, nodes: seq<Node>, k: nat)
    requires IsChain(head, nodes) && k < |nodes|
    ensures nodes[k] !in nodes[..k] && nodes[k] !in nodes[k + 1..]
  {
    ChainDistinct(head, nodes);
    DistinctNodeOnce(nodes, k);
  }

  lemma DistinctNodeOnce(nodes: seq<Node>, k: nat)
    requires Distinct(nodes) && k < |nodes|
    ensures nodes[k] !in nodes[..k] && nodes[k] !in nodes[k + 1..]
  {
  }

  /** A node whose link is null is a chain of one. */
  lemma ChainSingleton(n: Node)
    requires n.next == null
    ensures IsChain(n, [n]) && Chars([n]) == [n.ch]
  {
    ChainCons(n, null, []);
    assert [n] + [] == [n];
  }

  // ---------------------------------------------------------------------
  // Relinking
  // ---------------------------------------------------------------------

  /** The update last.next := head, where a path from first through the
      nodes of a reaches last, and head starts the chain b: afterwards the
      nodes a, then last, then b form one chain from first. The update
      writes nothing but last.next, so no char changes. */
  method Link(last: Node, head: Node?, ghost first: Node?, ghost a: seq<Node>, ghost b: seq<Node>)
    requires Path(first, a, last) && IsChain(head, b)
    requires last !in a && last !in b
    modifies last`next
    ensures IsChain(first, a + [last] + b)
    ensures Chars(a + [last] + b) == old(Chars(a)) + [last.ch] + old(Chars(b))
  {
    last.next := head;
    ChainCons(last, head, b);
    PathJoin(first, a, last, [last] + b);
    assert a + [last] + b == a + ([last] + b);
    CharsAround(a, last, b);
  }

  /** The chain b from head is linked after the last node of the chain
      nodes from first: the two chains become one. */
  method Append(first: Node?, ghost nodes: seq<Node>, last: Node, head: Node?, ghost b: seq<Node>)
    requires IsChain(first, nodes) && nodes != [] && last == nodes[|nodes| - 1]
    requires IsChain(head, b) && last !in b
    modifies last`next
    ensures IsChain(first, nodes + b)
    ensures Chars(nodes + b) == old(Chars(nodes)) + old(Chars(b))
  {
    ghost var n := |nodes|;
    ChainSplit(first, nodes, n - 1);
    ChainNodeOnce(first, nodes, n - 1);
    SplitLast(nodes);
    SplitLast(Chars(nodes));
    CharsSplit(nodes, n - 1);
    CharsAt(nodes, n - 1);
    Link(last, head, first, nodes[..n - 1], b);
  }

  /** A node x with a null link is linked after the last node. */
  method AppendNode(first: Node?, ghost nodes: seq<Node>, last: Node, x: Node)
    requires IsChain(first, nodes) && nodes != [] && last == nodes[|nodes| - 1]
    requires x.next == null && x !in nodes
    modifies last`next
    ensures IsChain(first, nodes + [x])
    ensures Chars(nodes + [x]) == old(Chars(nodes)) + [x.ch]
  {
    ChainSingleton(x);
    Append(first, nodes, last, x, [x]);
  }

  /** A fresh node holding c is linked after the last node. */
  method AppendNew(first: Node?, ghost nodes: seq<Node>, last: Node, c: char) returns (x: Node)
    requires IsChain(first, nodes) && nodes != [] && last == nodes[|nodes| - 1]
    modifies last`next
    ensures fresh(x) && x.ch == c && x.next == null
    ensures IsChain(first, nodes + [x])
    ensures Chars(nodes + [x]) == old(Chars(nodes)) + [c]
  {
    x := new Node(c, null);
    AppendNode(first, nodes, last, x);
  }

  /** One step of reversing a chain in place: node k, the head of the
      part not yet reversed, is linked to prev, the head of the reversed
      first k nodes. */
  method TurnLink(trav: Node, prev: Node?, ghost nodes: seq<Node>, ghost k: nat)
    requires Distinct(nodes) && k < |nodes| && trav == nodes[k]
    requires IsChain(trav, nodes[k..]) && IsChain(prev, Reversed(nodes[..k]))
    modifies trav`next
    ensures old(trav.next) == if k + 1 < |nodes| then nodes[k + 1] else null
    ensures IsChain(old(trav.next), nodes[k + 1..])
    ensures IsChain(trav, Reversed(nodes[..k + 1]))
  {
    DistinctNodeOnce(nodes, k);
    ReversedMultiset(nodes[..k]);
    ChainTail(trav, nodes[k..]);
    assert nodes[k..][1..] == nodes[k + 1..];
    ChainSplit(trav, nodes[k..], 1);
    Link(trav, prev, trav, [], Reversed(nodes[..k]));
    assert [] + [trav] + Reversed(nodes[..k]) == [trav] + Reversed(nodes[..k]);
    ReversedPrefixStep(nodes, k);
  }

  /** x, already linked to node i (or to null when i is the length), is
      linked in after node i - 1 and becomes node i. */
  method SpliceIn(first: Node?, ghost nodes: seq<Node>, ghost i: nat, prev: Node, x: Node)
    requires IsChain(first, nodes) && 0 < i <= |nodes| && prev == nodes[i - 1]
    requires x.next == (if i < |nodes| then nodes[i] else null) && x !in nodes
    modifies prev`next
    ensures IsChain(first, InsertAt(nodes, i, x))
    ensures Chars(InsertAt(nodes, i, x)) == InsertAt(old(Chars(nodes)), i, x.ch)
  {
    ghost var cs := Chars(nodes);
    ChainSplit(first, nodes, i - 1);
    ChainSplit(first, nodes, i);
    ChainNodeOnce(first, nodes, i - 1);
    ChainCons(x, x.next, nodes[i..]);
    CharsSplit(nodes, i - 1);
    CharsSplit(nodes, i);
    CharsAt(nodes, i - 1);
    InsertAtAfter(nodes, i, x);
    InsertAtAfter(cs, i, x.ch);
    Link(prev, x, first, nodes[..i - 1], [x] + nodes[i..]);
  }

  /** Node i, for i > 0, is unlinked by linking node i - 1 past it; node i
      keeps its own link. */
  method SpliceOut(first: Node?, ghost nodes: seq<Node>, ghost i: nat, prev: Node)
    requires IsChain(first, nodes) && 0 < i < |nodes| && prev == nodes[i - 1]
    modifies prev`next
    ensures IsChain(first, DeleteAt(nodes, i))
    ensures Chars(DeleteAt(nodes, i)) == DeleteAt(old(Chars(nodes)), i)
    ensures nodes[i].next == old(nodes[i].next)
  {
    ghost var cs := Chars(nodes);
    ChainNext(first, nodes, i - 1);
    ChainNext(first, nodes, i);
    ChainSplit(first, nodes, i - 1);
    ChainSplit(first, nodes, i + 1);
    ChainNodeOnce(first, nodes, i - 1);
    assert nodes[i..] == [nodes[i]] + nodes[i + 1..];
    CharsSplit(nodes, i - 1);
    CharsSplit(nodes, i + 1);
    CharsAt(nodes, i - 1);
    DeleteAtAfter(nodes, i);
    DeleteAtAfter(cs, i);
    Link(prev, prev.next.next, first, nodes[..i - 1], nodes[i + 1..]);
  }
}

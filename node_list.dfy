/**
 * The singly linked list node of `sort.h` (`NodeInt`: an `int32_t` value and
 * a `next` pointer) and the ghost description of a well-formed list: the
 * sequence of its nodes, front to back.
 */
module NodeList {

  class NodeInt {
    var v: int
    var next: NodeInt?

    /** A fresh node that ends a list, as the reader allocates them. */
    constructor (v: int)
      ensures this.v == v && this.next == null
    {
      this.v := v;
      this.next := null;
    }
  }

  /** No node occurs twice. */
  ghost predicate Distinct(ns: seq<NodeInt>) {
    forall i, j :: 0 <= i < j < |ns| ==> ns[i] != ns[j]
  }

  /** The `next` fields of the nodes, in order. */
  ghost function Nexts(ns: seq<NodeInt>): (r: seq<NodeInt?>)
    reads ns
    ensures |r| == |ns|
  {
    seq(|ns|, i requires 0 <= i < |ns| reads ns => ns[i].next)
  }

  /**
   * With successor pointers `nx`, `head` starts a NULL-terminated, acyclic
   * list whose nodes are `ns`, in order.
   */
  ghost predicate Linked(head: NodeInt?, ns: seq<NodeInt>, nx: seq<NodeInt?>) {
    |nx| == |ns| && Distinct(ns)
    && (if ns == [] then head == null else head == ns[0] && nx[|ns| - 1] == null)
    && (forall i :: 0 <= i < |ns| - 1 ==> nx[i] == ns[i + 1])
  }

  /** `head` starts a well-formed list whose nodes are `ns`. */
  ghost predicate IsList(head: NodeInt?, ns: seq<NodeInt>)
    reads ns
  {
    Linked(head, ns, Nexts(ns))
  }

  /** The values held by the nodes, in list order. */
  ghost function Values(ns: seq<NodeInt>): (r: seq<int>)
    reads ns
    ensures |r| == |ns|
  {
    seq(|ns|, i requires 0 <= i < |ns| reads ns => ns[i].v)
  }

  /** The list after the first node is described by the rest of the node sequence. */
  lemma IsListTail(head: NodeInt?, ns: seq<NodeInt>)
    requires IsList(head, ns) && ns != []
    ensures head != null && IsList(head.next, ns[1..])
  {
    assert Nexts(ns)[0] == head.next;
    if |ns| > 1 {
      assert Nexts(ns)[0] == ns[1];
    }
    assert Nexts(ns[1..]) == Nexts(ns)[1..];
  }

  /** Linking a new node in front of a list. */
  lemma LinkedFront(head: NodeInt?, ms: seq<NodeInt>, nx: seq<NodeInt?>, cur: NodeInt)
    requires Linked(head, ms, nx) && cur !in ms
    ensures Linked(cur, [cur] + ms, [head] + nx)
  {
    var ms' := [cur] + ms;
    forall i, j | 0 <= i < j < |ms'| ensures ms'[i] != ms'[j] {
      assert ms'[j] == ms[j - 1];
      if i > 0 { assert ms'[i] == ms[i - 1]; }
    }
  }
}

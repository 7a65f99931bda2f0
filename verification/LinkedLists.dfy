/** Singly linked lists in memory, with the sequence of their nodes as a ghost. */
module LinkedLists {
  class Node<T> {
    const value: T
    var next: Node?<T>

    constructor (value: T)
      ensures this.value == value && next == null
    {
      this.value, next := value, null;
    }
  }

  ghost function NodeAt<T>(spine: seq<Node<T>>, k: nat): Node?<T> {
    if k < |spine| then spine[k] else null
  }

  ghost predicate NoRepeats<T>(spine: seq<Node<T>>) {
    forall i, j | 0 <= i < j < |spine| :: spine[i] != spine[j]
  }

  /** `spine` is the list that starts at `head`. */
  ghost predicate Linked<T>(head: Node?<T>, spine: seq<Node<T>>)
    reads spine
  {
    && head == NodeAt(spine, 0) && NoRepeats(spine)
    && (forall i | 0 <= i < |spine| :: spine[i].next == NodeAt(spine, i + 1))
  }

  ghost function Values<T>(spine: seq<Node<T>>): (vs: seq<T>)
    ensures |vs| == |spine|
  {
    seq(|spine|, i requires 0 <= i < |spine| => spine[i].value)
  }

  ghost function Members<T>(spine: seq<Node<T>>): set<Node<T>> { set n | n in spine }

  lemma HeadOf<T>(head: Node?<T>, spine: seq<Node<T>>)
    requires Linked(head, spine)
    ensures head == NodeAt(spine, 0)
  {
  }

  lemma NextOf<T>(head: Node?<T>, spine: seq<Node<T>>, k: nat)
    requires Linked(head, spine) && k < |spine|
    ensures spine[k].next == NodeAt(spine, k + 1)
  {
  }

  lemma LinkedRest<T>(head: Node?<T>, spine: seq<Node<T>>)
    requires Linked(head, spine) && head != null
    ensures spine != [] && spine[0] == head && Linked(head.next, spine[1..])
    ensures Values(spine) == [head.value] + Values(spine[1..])
    ensures Members(spine[1..]) <= Members(spine)
  {
  }

  lemma HeadIs<T>(head: Node?<T>, spine: seq<Node<T>>, q: seq<T>, n: nat)
    requires Linked(head, spine) && n <= |q| && Values(spine) == q[n..]
    ensures head == null <==> n == |q|
    ensures head != null ==> head.value == q[n]
  {
  }

  // One node more

  /** The list after a node has been linked in at position `k`. */
  lemma LinkedIn<T>(head: Node?<T>, spine: seq<Node<T>>, k: nat, ins: Node<T>)
    requires k <= |spine| && NoRepeats(spine) && ins !in spine && ins.next == NodeAt(spine, k)
    requires head == if k == 0 then ins else NodeAt(spine, 0)
    requires k > 0 ==> spine[k - 1].next == ins
    requires forall i | 0 <= i < |spine| && i + 1 != k :: spine[i].next == NodeAt(spine, i + 1)
    ensures Linked(head, spine[..k] + [ins] + spine[k..])
    ensures Values(spine[..k] + [ins] + spine[k..]) == Values(spine)[..k] + [ins.value] + Values(spine)[k..]
    ensures Members(spine[..k] + [ins] + spine[k..]) == Members(spine) + {ins}
  {
    var r := spine[..k] + [ins] + spine[k..];
    forall i | 0 <= i < |r|
      ensures r[i].next == NodeAt(r, i + 1)
    {
      assert r[i] == if i < k then spine[i] else if i == k then ins else spine[i - 1];
    }
    NoRepeatsWith(spine, k, ins);
    ValuesWith(spine, k, ins);
    MembersWith(spine, k, ins);
    hide Values, Members, NoRepeats;
  }

  lemma NoRepeatsWith<T>(spine: seq<Node<T>>, k: nat, ins: Node<T>)
    requires k <= |spine| && ins !in spine && NoRepeats(spine)
    ensures NoRepeats(spine[..k] + [ins] + spine[k..])
  {
    var r := spine[..k] + [ins] + spine[k..];
    forall i | 0 <= i < |r|
      ensures r[i] == if i < k then spine[i] else if i == k then ins else spine[i - 1]
    {
    }
  }

  lemma ValuesWith<T>(spine: seq<Node<T>>, k: nat, ins: Node<T>)
    requires k <= |spine|
    ensures Values(spine[..k] + [ins] + spine[k..]) == Values(spine)[..k] + [ins.value] + Values(spine)[k..]
  {
  }

  lemma MembersWith<T>(spine: seq<Node<T>>, k: nat, ins: Node<T>)
    requires k <= |spine|
    ensures Members(spine[..k] + [ins] + spine[k..]) == Members(spine) + {ins}
  {
  }

  // One node less

  /** The list without its node at position `k`, once that has been bypassed. */
  lemma LinkedWithout<T>(head: Node?<T>, spine: seq<Node<T>>, k: nat)
    requires k < |spine| && NoRepeats(spine)
    requires head == if k == 0 then NodeAt(spine, 1) else spine[0]
    requires k > 0 ==> spine[k - 1].next == NodeAt(spine, k + 1)
    requires forall i | 0 <= i < |spine| && i + 1 != k :: spine[i].next == NodeAt(spine, i + 1)
    ensures Linked(head, spine[..k] + spine[k + 1..])
    ensures Members(spine[..k] + spine[k + 1..]) == Members(spine) - {spine[k]}
  {
    var r := spine[..k] + spine[k + 1..];
    forall i | 0 <= i < |r|
      ensures r[i].next == NodeAt(r, i + 1)
    {
      assert r[i] == if i < k then spine[i] else spine[i + 1];
    }
    NoRepeatsWithout(spine, k);
    MembersWithout(spine, k);
    hide Members, NoRepeats;
  }

  lemma NoRepeatsWithout<T>(spine: seq<Node<T>>, k: nat)
    requires k < |spine| && NoRepeats(spine)
    ensures NoRepeats(spine[..k] + spine[k + 1..])
  {
    var r := spine[..k] + spine[k + 1..];
    forall i, j | 0 <= i < j < |r|
      ensures r[i] != r[j]
    {
      assert r[i] == spine[if i < k then i else i + 1];
      assert r[j] == spine[if j < k then j else j + 1];
    }
  }

  lemma MembersWithout<T>(spine: seq<Node<T>>, k: nat)
    requires k < |spine| && NoRepeats(spine)
    ensures Members(spine[..k] + spine[k + 1..]) == Members(spine) - {spine[k]}
  {
    var r := spine[..k] + spine[k + 1..];
    forall n | n in spine && n != spine[k]
      ensures n in r
    {
      var i :| 0 <= i < |spine| && spine[i] == n;
      assert n == r[if i < k then i else i - 1];
    }
    forall n | n in r
      ensures n in spine && n != spine[k]
    {
      var i :| 0 <= i < |r| && r[i] == n;
      assert n == spine[if i < k then i else i + 1];
    }
  }
}

/** Circular doubly linked lists whose links are embedded in their elements (structs/list.c). */
module List {
  class Link {
    /** Where in memory the link is. */
    const at: nat
    var prev: Link?
    var next: Link?

    constructor (at: nat)
      ensures this.at == at && prev == next == null
    {
      this.at, prev, next := at, null, null;
    }
  }

  /** The index after `i` in a ring of `n` nodes. */
  function After(i: nat, n: nat): nat {
    if i + 1 == n then 0 else i + 1
  }

  ghost predicate Joint(x: Link, y: Link)
    reads x, y
  {
    x.next == y && y.prev == x
  }

  ghost predicate Distinct(nodes: seq<Link>) {
    forall i: nat, j: nat | i < j < |nodes| :: nodes[i] != nodes[j]
  }

  /** The links form one ring through these nodes. */
  ghost predicate Ring(nodes: seq<Link>)
    reads nodes
  {
    Distinct(nodes) && forall i: nat | i < |nodes| :: Joint(nodes[i], nodes[After(i, |nodes|)])
  }

  /** The list with this head holds these elements, front first. */
  ghost predicate Holds(head: Link, elems: seq<Link>)
    reads head, elems
  {
    Ring([head] + elems)
  }

  predicate IsEmpty(list: Link)
    reads list
  {
    list == list.next
  }

  lemma EmptyIff(list: Link, elems: seq<Link>)
    requires Holds(list, elems)
    ensures IsEmpty(list) <==> elems == []
  {
    var nodes := [list] + elems;
    assert Joint(nodes[0], nodes[After(0, |nodes|)]);
  }

  /** The first element is the one that follows the head. */
  lemma FrontIs(list: Link, elems: seq<Link>)
    requires Holds(list, elems) && elems != []
    ensures list.next == elems[0]
  {
    var nodes := [list] + elems;
    assert Joint(nodes[0], nodes[After(0, |nodes|)]);
  }

  method Init(list: Link)
    modifies list
    ensures Holds(list, [])
  {
    list.next := list;
    list.prev := list;
  }

  // ---- Inserting -----------------------------------------------------------------------------

  /** Puts an element at the front. */
  method Insert(list: Link, elem: Link, ghost elems: seq<Link>)
    requires Holds(list, elems) && elem !in [list] + elems
    modifies list, elem, ([list] + elems)[After(0, |elems| + 1)]
    ensures Holds(list, [elem] + elems)
  {
    ghost var nodes, n := [list] + elems, |elems| + 1;
    assert Joint(nodes[0], nodes[After(0, n)]);
    elem.prev := list;
    elem.next := list.next;
    list.next := elem;
    elem.next.prev := elem;
    forall i: nat | 0 < i < n
      ensures Joint(nodes[i], nodes[After(i, n)])
    {
      assert old(Joint(nodes[i], nodes[After(i, n)]));
    }
    Inserted(nodes, elem);
    assert [nodes[0]] + [elem] + nodes[1..] == [list] + ([elem] + elems);
  }

  lemma Inserted(nodes: seq<Link>, elem: Link)
    requires |nodes| > 0 && Distinct(nodes) && elem !in nodes
    requires Joint(nodes[0], elem) && Joint(elem, nodes[After(0, |nodes|)])
    requires forall i: nat | 0 < i < |nodes| :: Joint(nodes[i], nodes[After(i, |nodes|)])
    ensures Ring([nodes[0]] + [elem] + nodes[1..])
  {
    var nodes', n := [nodes[0]] + [elem] + nodes[1..], |nodes|;
    assert nodes'[0] == nodes[0] && nodes'[1] == elem && forall i | 1 < i <= n :: nodes'[i] == nodes[i - 1];
    forall i: nat | i <= n
      ensures Joint(nodes'[i], nodes'[After(i, n + 1)])
    {
      if i > 1 { assert Joint(nodes[i - 1], nodes[After(i - 1, n)]); }
    }
  }

  // ---- Removing ------------------------------------------------------------------------------

  /** Takes one element out, wherever it is. */
  method Remove(elem: Link, ghost list: Link, ghost elems: seq<Link>, ghost k: nat)
    requires Holds(list, elems) && k < |elems| && elems[k] == elem
    modifies elem, ([list] + elems)[k], ([list] + elems)[After(k + 1, |elems| + 1)]
    ensures Holds(list, elems[..k] + elems[k + 1..])
    ensures elem.prev == elem.next == null
  {
    ghost var nodes, n, j := [list] + elems, |elems| + 1, k + 1;
    assert Joint(nodes[j], nodes[After(j, n)]) && Joint(nodes[k], nodes[After(k, n)]) && nodes[j] == elem;
    elem.prev.next := elem.next;
    elem.next.prev := elem.prev;
    elem.prev := null;
    elem.next := null;
    forall i: nat | i < n && i != k && i != j
      ensures Joint(nodes[i], nodes[After(i, n)])
    {
      assert old(Joint(nodes[i], nodes[After(i, n)]));
    }
    Removed(nodes, j);
    assert nodes[..j] + nodes[j + 1..] == [list] + (elems[..k] + elems[k + 1..]);
  }

  lemma Removed(nodes: seq<Link>, j: nat)
    requires 0 < j < |nodes| && Distinct(nodes) && Joint(nodes[j - 1], nodes[After(j, |nodes|)])
    requires forall i: nat | i < |nodes| && i != j - 1 && i != j :: Joint(nodes[i], nodes[After(i, |nodes|)])
    ensures Ring(nodes[..j] + nodes[j + 1..])
  {
    var nodes', n := nodes[..j] + nodes[j + 1..], |nodes|;
    assert forall i | 0 <= i < n - 1 :: nodes'[i] == if i < j then nodes[i] else nodes[i + 1];
    forall i: nat | i < n - 1
      ensures Joint(nodes'[i], nodes'[After(i, n - 1)])
    {
      if i < j - 1 {
        assert Joint(nodes[i], nodes[After(i, n)]);
      } else if i >= j {
        assert Joint(nodes[i + 1], nodes[After(i + 1, n)]);
      }
    }
  }

  // ---- Counting ------------------------------------------------------------------------------

  /** Ends after one round, with the number of elements. */
  method Length(list: Link, ghost elems: seq<Link>) returns (len: nat)
    requires Holds(list, elems)
    ensures len == |elems|
  {
    ghost var nodes := [list] + elems;
    len := 0;
    assert Joint(nodes[0], nodes[After(0, |nodes|)]);
    var elem: Link? := list.next;
    while elem != list
      invariant len <= |elems| && elem == nodes[After(len, |nodes|)]
      decreases |elems| - len
    {
      len := len + 1;
      assert Joint(nodes[len], nodes[After(len, |nodes|)]);
      elem := elem.next;
    }
  }

  // ---- Joining -------------------------------------------------------------------------------

  /** Moves the elements of another list to the front, in their order. */
  method Join(list: Link, other: Link, ghost elems: seq<Link>, ghost others: seq<Link>)
    requires Holds(list, elems) && Holds(other, others)
    requires forall x | x in [list] + elems :: x !in [other] + others
    modifies [list] + elems, others
    ensures Holds(list, others + elems)
    ensures others == [] ==> unchanged([list] + elems)
  {
    EmptyIff(other, others);
    if IsEmpty(other) {
      assert others + elems == elems;
      return;
    }
    ghost var a, b := [list] + elems, [other] + others;
    ghost var n, m := |a|, |b|;
    assert Joint(b[0], b[After(0, m)]) && Joint(b[m - 1], b[After(m - 1, m)]) && Joint(a[0], a[After(0, n)]);
    assert b[1] == others[0] && b[m - 1] == others[m - 2];
    Apart(a, b);
    other.next.prev := list;
    other.prev.next := list.next;
    list.next.prev := other.prev;
    list.next := other.next;
    forall i: nat | 0 < i < m - 1
      ensures Joint(b[i], b[i + 1])
    {
      assert old(Joint(b[i], b[After(i, m)]));
    }
    forall i: nat | 0 < i < n
      ensures Joint(a[i], a[After(i, n)])
    {
      assert old(Joint(a[i], a[After(i, n)]));
    }
    Joined(a, b);
    assert [a[0]] + b[1..] + a[1..] == [list] + (others + elems);
  }

  lemma Apart(a: seq<Link>, b: seq<Link>)
    requires forall x | x in a :: x !in b
    ensures forall i: nat, j: nat | i < |a| && j < |b| :: a[i] != b[j]
  {
    forall i: nat, j: nat | i < |a| && j < |b|
      ensures a[i] != b[j]
    {
      assert a[i] in a;
    }
  }

  lemma Joined(a: seq<Link>, b: seq<Link>)
    requires |a| > 0 && |b| > 1 && Distinct(a) && Distinct(b) && forall i: nat, j: nat | i < |a| && j < |b| :: a[i] != b[j]
    requires Joint(a[0], b[1]) && Joint(b[|b| - 1], a[After(0, |a|)])
    requires forall i: nat | 0 < i < |b| - 1 :: Joint(b[i], b[i + 1])
    requires forall i: nat | 0 < i < |a| :: Joint(a[i], a[After(i, |a|)])
    ensures Ring([a[0]] + b[1..] + a[1..])
  {
    var nodes, n, m := [a[0]] + b[1..] + a[1..], |a|, |b|;
    assert forall i | 0 <= i < |nodes| :: nodes[i] == if i == 0 then a[0] else if i < m then b[i] else a[i - m + 1];
    forall i: nat | i < |nodes|
      ensures Joint(nodes[i], nodes[After(i, |nodes|)])
    {
      if i >= m {
        assert Joint(a[i - m + 1], a[After(i - m + 1, n)]);
      } else if 0 < i < m - 1 {
        assert Joint(b[i], b[i + 1]);
      }
    }
  }
}

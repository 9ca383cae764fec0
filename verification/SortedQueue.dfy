/** The doubly linked queue behind `timeds` and `mmodes` (ds.c). The original
    writes the same insertion and deletion twice, once per element type; here
    the comparison is a field of the queue. */
module SortedQueue {

  /** `cmp(x, y)` is 1 when `x` goes ahead of `y`, 0 when neither goes ahead, -1 when `y` goes ahead of `x`. */
  type Comparison<!T> = (T, T) -> int

  class Node<T> {
    var val: T
    var prev: Node?<T>
    var next: Node?<T>

    constructor (val: T)
      ensures this.val == val && prev == null && next == null
    {
      this.val := val;
      prev, next := null, null;
    }
  }

  /** Where a new element goes: ahead of the first element it is to precede, else at the end. */
  function InsertAt<T>(cmp: Comparison<T>, x: T, s: seq<T>, from: nat): (k: nat)
    requires from <= |s|
    ensures from <= k <= |s|
    ensures forall i :: from <= i < k ==> cmp(x, s[i]) != 1
    ensures k < |s| ==> cmp(x, s[k]) == 1
    decreases |s| - from
  {
    if from == |s| || cmp(x, s[from]) == 1 then from else InsertAt(cmp, x, s, from + 1)
  }

  function Inserted<T>(cmp: Comparison<T>, x: T, s: seq<T>): seq<T> {
    var k := InsertAt(cmp, x, s, 0);
    s[..k] + [x] + s[k..]
  }

  function Removed<T>(s: seq<T>, k: nat): seq<T>
    requires k < |s|
  {
    s[..k] + s[k + 1..]
  }

  // ---------------------------------------------------------------- order

  predicate ChainsAt<T>(cmp: Comparison<T>, a: T, b: T, c: T) {
    cmp(a, b) != -1 && cmp(b, c) != -1 ==> cmp(a, c) != -1
  }

  /** `cmp` orders its type: it takes the values -1, 0 and 1, is antisymmetric, and "not behind" is transitive. */
  ghost predicate IsOrder<T(!new)>(cmp: Comparison<T>) {
    && (forall a, b :: -1 <= cmp(a, b) <= 1)
    && (forall a, b :: cmp(a, b) == 1 <==> cmp(b, a) == -1)
    && (forall a, b, c :: ChainsAt(cmp, a, b, c))
  }

  ghost predicate Sorted<T>(cmp: Comparison<T>, s: seq<T>) {
    forall i, j :: 0 <= i < j < |s| ==> cmp(s[i], s[j]) != -1
  }

  /** Insertion keeps the order, and the newcomer stands behind all its equals: first come, first served. */
  lemma {:induction false} InsertedSorted<T(!new)>(cmp: Comparison<T>, x: T, s: seq<T>)
    requires IsOrder(cmp) && Sorted(cmp, s)
    ensures Sorted(cmp, Inserted(cmp, x, s))
    ensures multiset(Inserted(cmp, x, s)) == multiset(s) + multiset{x}
    ensures var k := InsertAt(cmp, x, s, 0);
      && (forall i :: 0 <= i < k ==> cmp(s[i], x) != -1)
      && (forall j :: k <= j < |s| ==> cmp(x, s[j]) == 1)
  {
    var k := InsertAt(cmp, x, s, 0);
    forall i | 0 <= i < k ensures cmp(s[i], x) != -1 {
      assert cmp(x, s[i]) != 1;
    }
    forall j | k <= j < |s| ensures cmp(x, s[j]) == 1 {
      if j > k {
        assert cmp(x, s[k]) == 1 && cmp(s[k], x) == -1;
        assert ChainsAt(cmp, s[k], s[j], x);
      }
    }
    InsertedMultiset(x, s, k);
    SortedAround(cmp, x, s, k);
  }

  lemma InsertedMultiset<T>(x: T, s: seq<T>, k: nat)
    requires k <= |s|
    ensures multiset(s[..k] + [x] + s[k..]) == multiset(s) + multiset{x}
  {
    assert s == s[..k] + s[k..];
  }

  lemma SortedAround<T>(cmp: Comparison<T>, x: T, s: seq<T>, k: nat)
    requires Sorted(cmp, s) && k <= |s|
    requires forall i :: 0 <= i < k ==> cmp(s[i], x) != -1
    requires forall j :: k <= j < |s| ==> cmp(x, s[j]) != -1
    ensures Sorted(cmp, s[..k] + [x] + s[k..])
  {
  }

  /** Deleting the newcomer gives back the queue as it was. */
  lemma {:induction false} RemovedInserted<T>(cmp: Comparison<T>, x: T, s: seq<T>)
    ensures Removed(Inserted(cmp, x, s), InsertAt(cmp, x, s, 0)) == s
  {
    var k := InsertAt(cmp, x, s, 0);
    assert s == s[..k] + s[k..];
  }

  // ---------------------------------------------------------------- the linked list

  function At<T>(nodes: seq<Node<T>>, i: int): Node?<T> {
    if 0 <= i < |nodes| then nodes[i] else null
  }

  class Queue<T> {
    const cmp: Comparison<T>
    var first: Node?<T>
    ghost var nodes: seq<Node<T>>
    ghost var repr: set<Node<T>>  // every node ever linked in

    ghost predicate Valid()
      reads this, repr
    {
      && (forall i :: 0 <= i < |nodes| ==> nodes[i] in repr)
      && first == At(nodes, 0)
      && (forall i {:trigger nodes[i].prev} :: 0 <= i < |nodes| ==> nodes[i].prev == At(nodes, i - 1))
      && (forall i {:trigger nodes[i].next} :: 0 <= i < |nodes| ==> nodes[i].next == At(nodes, i + 1))
      && (forall i, j :: 0 <= i < j < |nodes| ==> nodes[i] != nodes[j])
    }

    ghost function Contents(): (s: seq<T>)
      requires Valid()
      reads this, repr
      ensures |s| == |nodes|
    {
      seq(|nodes|, i requires 0 <= i < |nodes| requires nodes[i] in repr reads this, repr => nodes[i].val)
    }

    lemma Head()
      requires Valid()
      ensures first == At(nodes, 0)
    {
    }

    lemma Stands(i: nat)
      requires Valid() && i < |nodes|
      ensures nodes[i].val == Contents()[i] && nodes[i].next == At(nodes, i + 1)
    {
    }

    constructor (cmp: Comparison<T>)
      ensures Valid() && nodes == [] && repr == {} && this.cmp == cmp
    {
      this.cmp := cmp;
      first := null;
      nodes, repr := [], {};
    }

    /** `timed_new` and `mmode_new`, from the point where the element is filled in. */
    method Insert(x: T) returns (t1: Node<T>)
      requires Valid()
      modifies this, repr
      ensures Valid() && fresh(t1) && t1.val == x && repr == old(repr) + {t1}
      ensures var k := InsertAt(cmp, x, old(Contents()), 0); nodes == old(nodes[..k]) + [t1] + old(nodes[k..])
      ensures Contents() == Inserted(cmp, x, old(Contents()))
    {
      t1 := new Node(x);
      if first == null {
        first := t1;
        nodes, repr := [t1], repr + {t1};
        return;
      }
      ghost var s := Contents();
      var t2 := first;
      var rc;
      ghost var j := 0;
      while true
        invariant 0 <= j < |nodes| && t2 == nodes[j]
        invariant InsertAt(cmp, x, s, 0) == InsertAt(cmp, x, s, j)
        decreases |nodes| - j
      {
        rc := cmp(x, t2.val);
        if rc == 1 || t2.next == null {
          break;
        }
        t2, j := t2.next, j + 1;
      }
      if rc == 1 {
        PutBefore(t1, t2, j);
      } else {
        PutLast(t1, t2);
      }
    }

    /** Link `t1` in ahead of `t2`, which stands at `j`. */
    method PutBefore(t1: Node<T>, t2: Node<T>, ghost j: nat)
      requires Valid() && j < |nodes| && t2 == nodes[j]
      requires t1 !in repr && t1.prev == t1.next == null
      modifies this, repr, t1
      ensures Valid() && nodes == old(nodes[..j]) + [t1] + old(nodes[j..]) && repr == old(repr) + {t1}
      ensures t1.val == old(t1.val) && Contents() == old(Contents()[..j]) + [t1.val] + old(Contents()[j..])
    {
      t1.next := t2;
      if t2.prev == null {
        first := t1;
      } else {
        t1.prev := t2.prev;
        t2.prev.next := t1;
      }
      t2.prev := t1;
      nodes, repr := nodes[..j] + [t1] + nodes[j..], repr + {t1};
    }

    /** Link `t1` in behind the last element. */
    method PutLast(t1: Node<T>, t2: Node<T>)
      requires Valid() && |nodes| > 0 && t2 == nodes[|nodes| - 1]
      requires t1 !in repr && t1.prev == t1.next == null
      modifies this, repr, t1
      ensures Valid() && nodes == old(nodes) + [t1] && repr == old(repr) + {t1}
      ensures t1.val == old(t1.val) && Contents() == old(Contents()) + [t1.val]
    {
      t2.next := t1;
      t1.prev := t2;
      nodes, repr := nodes + [t1], repr + {t1};
    }

    /** `timed_del` and `mmode_del`: unlink the node, which stands at `k`. */
    method Delete(t1: Node<T>, ghost k: nat)
      requires Valid() && k < |nodes| && nodes[k] == t1
      modifies this, repr
      ensures Valid() && repr == old(repr)
      ensures nodes == Removed(old(nodes), k)
      ensures Contents() == Removed(old(Contents()), k)
      ensures t1.next == old(t1.next) && t1.val == old(t1.val)
    {
      Relink(t1, k);
    }

    /** The links around the node that goes. */
    method Relink(t1: Node<T>, ghost k: nat)
      requires Valid() && k < |nodes| && nodes[k] == t1
      modifies this, repr
      ensures Valid() && repr == old(repr)
      ensures nodes == Removed(old(nodes), k)
      ensures t1.next == old(t1.next) && forall n :: n in repr ==> n.val == old(n.val)
    {
      if t1.prev == null {
        if t1.next == null {
          first := null;
        } else {
          assert t1.next == nodes[1];
          t1.next.prev := null;
          first := t1.next;
        }
      } else if t1.next == null {
        assert t1.prev == nodes[k - 1];
        t1.prev.next := null;
      } else {
        assert t1.prev == nodes[k - 1] && t1.next == nodes[k + 1];
        t1.prev.next := t1.next;
        t1.next.prev := t1.prev;
      }
      nodes := Removed(nodes, k);
    }
  }
}

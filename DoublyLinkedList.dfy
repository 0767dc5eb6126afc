/**
 * A generic doubly linked list: a chain of heap-allocated nodes between two
 * valueless sentinels, `head` and `tail`, with a `length` counter kept up to
 * date by every operation.
 *
 * The ghost field `Nodes` is the whole chain, sentinels first and last, and
 * `Contents` is the sequence of values of the real nodes; every operation is
 * specified by what it does to `Contents` (and, for the iterator's sake, to
 * `Nodes`).
 */
module LinkedList {
  import opened Sequences

  /** The one error kind the list reports: an index outside the operation's range. */
  datatype Error = OutOfRange

  /** The outcome of an operation that can fail with an out-of-range index. */
  datatype Result<R> = Ok(value: R) | Err(error: Error)

  /** An optional value (used for the optional formatter of `ToString`). */
  datatype Option<X> = None | Some(value: X)

  /**
   * One link of the chain. A sentinel is a node whose value is never read;
   * `new Node.Sentinel()` leaves the value at the type's default, as the
   * default-constructed node does.
   */
  class Node<T(0)> {
    var value: T
    var prev: Node?<T>
    var next: Node?<T>

    constructor Sentinel()
      ensures prev == null && next == null
    {
      prev := null;
      next := null;
    }

    constructor (v: T, p: Node?<T>, n: Node?<T>)
      ensures value == v && prev == p && next == n
    {
      value := v;
      prev := p;
      next := n;
    }
  }

  /**
   * A bidirectional cursor: a direct reference to one node of a chain.
   * Two iterators are equal exactly when they reference the same node.
   */
  datatype Iterator<T(0)> = Iterator(node: Node<T>) {

    /** `++it`: the node after this one. */
    function Next(): Iterator<T>
      reads node
      requires node.next != null
    {
      Iterator(node.next)
    }

    /** `--it`: the node before this one. */
    function Prev(): Iterator<T>
      reads node
      requires node.prev != null
    {
      Iterator(node.prev)
    }

    /** `*it`: the value held by the referenced node. */
    function Value(): T
      reads node
    {
      node.value
    }
  }

  /** Along `ns`, every node's `next` is the node after it and its `prev` the node before it. */
  ghost predicate Linked<T(0)>(ns: seq<Node<T>>)
    reads ns
  {
    (forall i {:trigger ns[i].next} :: 0 <= i < |ns| - 1 ==> ns[i].next == ns[i + 1]) &&
    (forall i {:trigger ns[i].prev} :: 0 < i < |ns| ==> ns[i].prev == ns[i - 1])
  }

  /** The inner nodes of `ns` (all but the first and the last) hold the values `cs`, in order. */
  ghost predicate Holds<T(0)>(ns: seq<Node<T>>, cs: seq<T>)
    reads ns
  {
    |cs| + 2 == |ns| && forall i :: 0 <= i < |cs| ==> cs[i] == ns[i + 1].value
  }

  class DoublyLinkedList<T(0, ==)> {
    var head: Node<T>
    var tail: Node<T>
    var length: nat

    /** The chain from `head` to `tail`, both included. */
    ghost var Nodes: seq<Node<T>>
    /** The values of the real nodes, in chain order. */
    ghost var Contents: seq<T>
    /** The nodes this list owns. */
    ghost var Repr: set<Node<T>>

    /** The object invariant of the list. */
    ghost predicate Valid()
      reads this, Repr
    {
      (forall i :: 0 <= i < |Nodes| ==> Nodes[i] in Repr) &&
      2 <= |Nodes| && Nodes[0] == head && Nodes[|Nodes| - 1] == tail &&
      head.prev == null && tail.next == null &&
      Linked(Nodes) && Distinct(Nodes) &&
      length == |Nodes| - 2 && Holds(Nodes, Contents)
    }

    /** The links around chain position `k`, as `Valid` states them. */
    lemma LinksAt(k: nat)
      requires Valid() && k < |Nodes|
      ensures k + 1 < |Nodes| ==> Nodes[k].next == Nodes[k + 1]
      ensures 0 < k ==> Nodes[k].prev == Nodes[k - 1]
    {
    }

    /** Two fresh sentinels linked to each other: the chain of an empty list. */
    static method NewChain() returns (h: Node<T>, t: Node<T>)
      ensures fresh(h) && fresh(t)
      ensures h.prev == null && h.next == t && t.prev == h && t.next == null
    {
      h := new Node.Sentinel();
      t := new Node.Sentinel();
      h.next := t;
      t.prev := h;
    }

    /** A new list is empty: its head sentinel is linked straight to its tail sentinel. */
    constructor ()
      ensures Valid() && fresh(Repr)
      ensures Contents == [] && Nodes == [head, tail]
      ensures head.next == tail && tail.prev == head
    {
      var h, t := NewChain();
      head, tail, length := h, t, 0;
      Nodes, Contents, Repr := [h, t], [], {h, t};
    }

    /** Deep copy: a list with the same values in fresh nodes of its own. */
    constructor Copy(other: DoublyLinkedList<T>)
      requires other.Valid()
      ensures Valid() && fresh(Repr)
      ensures Contents == other.Contents
    {
      var h, t := NewChain();
      head, tail, length := h, t, 0;
      Nodes, Contents, Repr := [h, t], [], {h, t};
      new;
      var curr := other.head.next;
      ghost var k := 0;
      while curr != other.tail
        invariant Valid() && fresh(Repr)
        invariant 0 <= k <= |other.Contents| && curr == other.Nodes[k + 1]
        invariant Contents == other.Contents[..k]
        decreases |other.Contents| - k
      {
        InsertAtTail(curr.value);
        curr := curr.next;
        k := k + 1;
      }
    }

    /** Gives this list a fresh empty chain (the state a moved-from list is left in). */
    method Reset()
      modifies this
      ensures Valid() && fresh(Repr)
      ensures Contents == [] && Nodes == [head, tail]
    {
      var h, t := NewChain();
      head, tail, length := h, t, 0;
      Nodes, Contents, Repr := [h, t], [], {h, t};
    }

    /** Move construction: takes over the chain of `other`, which is left a valid empty list. */
    constructor Move(other: DoublyLinkedList<T>)
      requires other.Valid()
      modifies other
      ensures Valid() && Contents == old(other.Contents) && Repr == old(other.Repr)
      ensures Nodes == old(other.Nodes) && head == old(other.head) && tail == old(other.tail)
      ensures other.Valid() && other.Contents == [] && fresh(other.Repr)
    {
      head, tail, length := other.head, other.tail, other.length;
      Nodes, Contents, Repr := other.Nodes, other.Contents, other.Repr;
      new;
      other.Reset();
    }

    /** Copy assignment: this list gets a fresh chain holding the values of `other`. */
    method CopyFrom(other: DoublyLinkedList<T>)
      requires Valid() && other.Valid()
      modifies this
      ensures Valid() && Contents == old(other.Contents)
      ensures other != this ==> fresh(Repr)
      ensures other == this ==> Repr == old(Repr) && Nodes == old(Nodes)
    {
      if other == this {
        return;
      }
      Reset();
      var curr := other.head.next;
      ghost var k := 0;
      while curr != other.tail
        invariant Valid() && fresh(Repr)
        invariant other.Valid() && other.Contents == old(other.Contents)
        invariant 0 <= k <= |other.Contents| && curr == other.Nodes[k + 1]
        invariant Contents == other.Contents[..k]
        decreases |other.Contents| - k
      {
        InsertAtTail(curr.value);
        curr := curr.next;
        k := k + 1;
      }
    }

    /** Move assignment: this list takes over the chain of `other`, which is left empty. */
    method MoveFrom(other: DoublyLinkedList<T>)
      requires Valid() && other.Valid()
      modifies this, other
      ensures Valid() && Contents == old(other.Contents) && Repr == old(other.Repr)
      ensures Nodes == old(other.Nodes) && head == old(other.head) && tail == old(other.tail)
      ensures other != this ==> other.Valid() && other.Contents == [] && fresh(other.Repr)
    {
      if other == this {
        return;
      }
      head, tail, length := other.head, other.tail, other.length;
      Nodes, Contents, Repr := other.Nodes, other.Contents, other.Repr;
      other.Reset();
    }

    /** The walk of the destructor: every node, sentinels included, visited once, head to tail. */
    method Destroy() returns (released: seq<Node<T>>)
      requires Valid()
      ensures released == Nodes
      ensures forall i, j :: 0 <= i < j < |released| ==> released[i] != released[j]
    {
      var curr: Node?<T> := head;
      released := [];
      while curr != null
        invariant |released| <= |Nodes| && released == Nodes[..|released|]
        invariant curr == if |released| < |Nodes| then Nodes[|released|] else null
        decreases |Nodes| - |released|
      {
        released := released + [curr];
        curr := curr.next;
      }
    }

    /** The number of elements, kept in `length` without walking the chain. */
    function Size(): (n: nat)
      reads this, Repr
      requires Valid()
      ensures n == |Contents|
    {
      length
    }

    /**
     * The node holding element `i`, reached by walking from the closer
     * sentinel: forward from `head` when `i <= length / 2`, else backward
     * from `tail`.
     */
    method NodeAt(i: nat) returns (n: Node<T>)
      requires Valid() && i < |Contents|
      ensures n == Nodes[i + 1]
    {
      if i <= length / 2 {
        LinksAt(0);
        n := head.next;
        var k := 0;
        while k < i
          invariant 0 <= k <= i && n == Nodes[k + 1]
        {
          LinksAt(k + 1);
          n := n.next;
          k := k + 1;
        }
      } else {
        LinksAt(|Nodes| - 1);
        n := tail.prev;
        var k := length - 1;
        while k > i
          invariant i <= k < length && n == Nodes[k + 1]
        {
          LinksAt(k + 1);
          n := n.prev;
          k := k - 1;
        }
      }
    }

    /** Splices a fresh node holding `v` in just before `succ`, the node at chain position `k`. */
    method LinkBefore(succ: Node<T>, ghost k: nat, v: T)
      requires Valid() && 1 <= k < |Nodes| && Nodes[k] == succ
      modifies this, Repr
      ensures Valid() && head == old(head) && tail == old(tail)
      ensures |Nodes| == |old(Nodes)| + 1 && Nodes == InsertedAt(old(Nodes), k, Nodes[k]) && fresh(Nodes[k])
      ensures Repr == old(Repr) + {Nodes[k]}
      ensures Contents == InsertedAt(old(Contents), k - 1, v)
    {
      LinksAt(k);
      ghost var ns, cs := Nodes, Contents;
      var pred := succ.prev;
      var n := new Node(v, pred, succ);
      pred.next := n;
      succ.prev := n;
      length := length + 1;
      Nodes := InsertedAt(ns, k, n);
      Contents := InsertedAt(cs, k - 1, v);
      Repr := Repr + {n};
      SpliceValid(k, n);
    }

    /**
     * The invariant survives splicing the new node `n` in at chain position
     * `k`: only `n` and its two neighbours have links that changed.
     */
    twostate lemma SpliceValid(k: nat, new n: Node<T>)
      requires old(Valid()) && 1 <= k < |old(Nodes)| && n !in old(Repr)
      requires head == old(head) && tail == old(tail) && length == old(length) + 1
      requires Nodes == InsertedAt(old(Nodes), k, n) && Repr == old(Repr) + {n}
      requires Contents == InsertedAt(old(Contents), k - 1, n.value)
      requires n.prev == old(Nodes)[k - 1] && n.next == old(Nodes)[k]
      requires old(Nodes)[k - 1].next == n && old(Nodes)[k].prev == n
      requires forall o {:trigger o.next} :: o in old(Repr) && o != old(Nodes)[k - 1] ==> o.next == old(o.next)
      requires forall o {:trigger o.prev} :: o in old(Repr) && o != old(Nodes)[k] ==> o.prev == old(o.prev)
      requires forall o {:trigger o.value} :: o in old(Repr) ==> o.value == old(o.value)
      ensures Valid()
    {
      ghost var ns, cs := old(Nodes), old(Contents);
      InsertedAtPlaces(ns, k, n);
      forall i {:trigger Nodes[i].next} | 0 <= i < |Nodes| - 1
        ensures Nodes[i].next == Nodes[i + 1]
      {
        if i < k - 1 {
          assert ns[i] in old(Repr) && ns[i] != ns[k - 1];
          assert old(ns[i].next) == ns[i + 1];
        } else if k < i {
          assert ns[i - 1] in old(Repr) && ns[i - 1] != ns[k - 1];
          assert old(ns[i - 1].next) == ns[i];
        }
      }
      forall i {:trigger Nodes[i].prev} | 0 < i < |Nodes|
        ensures Nodes[i].prev == Nodes[i - 1]
      {
        if i < k {
          assert ns[i] in old(Repr) && ns[i] != ns[k];
          assert old(ns[i].prev) == ns[i - 1];
        } else if k + 1 < i {
          assert ns[i - 1] in old(Repr) && ns[i - 1] != ns[k];
          assert old(ns[i - 1].prev) == ns[i - 2];
        }
      }
      InsertedAtPlaces(cs, k - 1, n.value);
      DistinctInsertedAt(ns, k, n);
    }

    /** Puts `v` at index 0, right after the head sentinel. */
    method InsertAtHead(v: T)
      requires Valid()
      modifies this, Repr
      ensures Valid() && fresh(Repr - old(Repr)) && old(Repr) <= Repr
      ensures head == old(head) && tail == old(tail)
      ensures Contents == [v] + old(Contents)
      ensures |Nodes| == |old(Nodes)| + 1 && fresh(Nodes[1])
      ensures Nodes[..1] == old(Nodes)[..1] && Nodes[2..] == old(Nodes)[1..]
    {
      LinksAt(0);
      LinkBefore(head.next, 1, v);
      InsertedAtEnds(old(Contents), v);
    }

    /** Puts `v` at index `Size()`, right before the tail sentinel. */
    method InsertAtTail(v: T)
      requires Valid()
      modifies this, Repr
      ensures Valid() && fresh(Repr - old(Repr)) && old(Repr) <= Repr
      ensures head == old(head) && tail == old(tail)
      ensures Contents == old(Contents) + [v]
      ensures |Nodes| == |old(Nodes)| + 1 && fresh(Nodes[|Nodes| - 2])
      ensures Nodes[..|Nodes| - 2] == old(Nodes)[..|Nodes| - 2] && Nodes[|Nodes| - 1] == old(Nodes)[|Nodes| - 2]
    {
      LinkBefore(tail, |Nodes| - 1, v);
      InsertedAtEnds(old(Contents), v);
    }

    /**
     * Puts `v` at index `i`, shifting the later elements right; fails with
     * `OutOfRange`, changing nothing, unless `0 <= i <= Size()`.
     */
    method InsertAt(i: int, v: T) returns (r: Result<()>)
      requires Valid()
      modifies this, Repr
      ensures Valid() && fresh(Repr - old(Repr)) && old(Repr) <= Repr
      ensures head == old(head) && tail == old(tail)
      ensures r.Ok? <==> 0 <= i <= |old(Contents)|
      ensures r.Ok? ==> Contents == InsertedAt(old(Contents), i, v)
      ensures r.Ok? ==> |Nodes| == |old(Nodes)| + 1 && fresh(Nodes[i + 1]) &&
                        Nodes[..i + 1] == old(Nodes)[..i + 1] && Nodes[i + 2..] == old(Nodes)[i + 1..]
      ensures r.Err? ==> r.error == OutOfRange && unchanged(this) && unchanged(Repr)
    {
      if i < 0 || i > length {
        return Err(OutOfRange);
      }
      if i == 0 {
        InsertAtHead(v);
        InsertedAtEnds(old(Contents), v);
      } else if i == length {
        InsertAtTail(v);
        InsertedAtEnds(old(Contents), v);
      } else {
        var succ := NodeAt(i);
        LinkBefore(succ, i + 1, v);
      }
      return Ok(());
    }

    /**
     * Unlinks the node holding element `i`; the other elements keep their
     * order and their nodes. Fails with `OutOfRange`, changing nothing,
     * unless `0 <= i < Size()`.
     */
    method DeleteAt(i: int) returns (r: Result<()>)
      requires Valid()
      modifies this, Repr
      ensures Valid() && Repr <= old(Repr)
      ensures r.Ok? ==> 0 <= i < |old(Contents)| && Repr == old(Repr) - {old(Nodes)[i + 1]}
      ensures head == old(head) && tail == old(tail)
      ensures r.Ok? <==> 0 <= i < |old(Contents)|
      ensures r.Ok? ==> Contents == RemovedAt(old(Contents), i)
      ensures r.Ok? ==> Nodes == old(Nodes)[..i + 1] + old(Nodes)[i + 2..]
      ensures r.Err? ==> r.error == OutOfRange && unchanged(this) && unchanged(Repr)
    {
      if i < 0 || i >= length {
        return Err(OutOfRange);
      }
      var n := NodeAt(i);
      LinksAt(i + 1);
      ghost var ns, cs := Nodes, Contents;
      var pred, succ := n.prev, n.next;
      pred.next := succ;
      succ.prev := pred;
      length := length - 1;
      Nodes := RemovedAt(ns, i + 1);
      Contents := RemovedAt(cs, i);
      Repr := Repr - {n};
      UnlinkValid(i);
      return Ok(());
    }

    /**
     * The invariant survives unlinking the node of element `j` (chain
     * position `j + 1`): only its two neighbours have links that changed.
     */
    twostate lemma UnlinkValid(j: nat)
      requires old(Valid()) && j < |old(Contents)|
      requires head == old(head) && tail == old(tail) && length == old(length) - 1
      requires Nodes == RemovedAt(old(Nodes), j + 1) && Contents == RemovedAt(old(Contents), j)
      requires Repr == old(Repr) - {old(Nodes)[j + 1]}
      requires old(Nodes)[j].next == old(Nodes)[j + 2] && old(Nodes)[j + 2].prev == old(Nodes)[j]
      requires forall o {:trigger o.next} :: o in old(Repr) && o != old(Nodes)[j] ==> o.next == old(o.next)
      requires forall o {:trigger o.prev} :: o in old(Repr) && o != old(Nodes)[j + 2] ==> o.prev == old(o.prev)
      requires forall o {:trigger o.value} :: o in old(Repr) ==> o.value == old(o.value)
      ensures Valid()
    {
      ghost var ns, cs := old(Nodes), old(Contents);
      RemovedAtPlaces(ns, j + 1);
      forall i {:trigger Nodes[i].next} | 0 <= i < |Nodes| - 1
        ensures Nodes[i].next == Nodes[i + 1]
      {
        if i < j {
          assert ns[i] in old(Repr) && ns[i] != ns[j];
          assert old(ns[i].next) == ns[i + 1];
        } else if j < i {
          assert ns[i + 1] in old(Repr) && ns[i + 1] != ns[j];
          assert old(ns[i + 1].next) == ns[i + 2];
        }
      }
      forall i {:trigger Nodes[i].prev} | 0 < i < |Nodes|
        ensures Nodes[i].prev == Nodes[i - 1]
      {
        if i < j + 1 {
          assert ns[i] in old(Repr) && ns[i] != ns[j + 2];
          assert old(ns[i].prev) == ns[i - 1];
        } else if j + 1 < i {
          assert ns[i + 1] in old(Repr) && ns[i + 1] != ns[j + 2];
          assert old(ns[i + 1].prev) == ns[i];
        }
      }
      DistinctRemovedAt(ns, j + 1);
      RemovedAtPlaces(cs, j);
    }

    /** Element `i`; fails with `OutOfRange` unless `0 <= i < Size()`. */
    method Get(i: int) returns (r: Result<T>)
      requires Valid()
      ensures r.Ok? <==> 0 <= i < |Contents|
      ensures r.Ok? ==> r.value == Contents[i]
      ensures r.Err? ==> r.error == OutOfRange
    {
      if i < 0 || i >= length {
        return Err(OutOfRange);
      }
      var n := NodeAt(i);
      return Ok(n.value);
    }

    /** The index of the first element equal to `v`, or -1 when no element is. */
    method IndexOf(v: T) returns (r: int)
      requires Valid()
      ensures r == FirstIndex(Contents, v)
    {
      var curr := head.next;
      var k := 0;
      while curr != tail
        invariant 0 <= k <= length && curr == Nodes[k + 1]
        invariant v !in Contents[..k]
        decreases length - k
      {
        if curr.value == v {
          FirstIndexUnique(Contents, v, k);
          return k;
        }
        assert Contents[..k + 1] == Contents[..k] + [Contents[k]];
        curr := curr.next;
        k := k + 1;
      }
      assert Contents[..k] == Contents;
      return -1;
    }

    /** Whether some element equals `v`, decided by `IndexOf`. */
    method Contains(v: T) returns (b: bool)
      requires Valid()
      ensures b <==> v in Contents
    {
      var k := IndexOf(v);
      b := k != -1;
    }

    /**
     * Reverses the list in place: every node's `prev` and `next` are
     * swapped, sentinels included, and then `head` and `tail` change roles.
     * No node is allocated or released.
     */
    method Reverse()
      requires Valid()
      modifies this, Repr
      ensures Valid() && Repr == old(Repr)
      ensures Nodes == Reversed(old(Nodes))
      ensures Contents == Reversed(old(Contents))
    {
      var curr: Node?<T> := head;
      ghost var i := 0;
      while curr != null
        invariant unchanged(this)
        invariant 0 <= i <= |Nodes| && curr == if i < |Nodes| then Nodes[i] else null
        invariant forall j {:trigger Nodes[j].next} :: 0 <= j < |Nodes| ==>
          Nodes[j].next == if j < i then old(Nodes[j].prev) else old(Nodes[j].next)
        invariant forall j {:trigger Nodes[j].prev} :: 0 <= j < |Nodes| ==>
          Nodes[j].prev == if j < i then old(Nodes[j].next) else old(Nodes[j].prev)
        invariant forall j {:trigger Nodes[j].value} :: 0 <= j < |Nodes| ==> Nodes[j].value == old(Nodes[j].value)
        decreases |Nodes| - i
      {
        var succ := curr.next;
        curr.next := curr.prev;
        curr.prev := succ;
        curr := succ;
        i := i + 1;
      }
      head, tail := tail, head;
      Nodes, Contents := Reversed(Nodes), Reversed(Contents);
      SwapValid();
    }

    /** The invariant survives swapping `prev` and `next` in every node and then `head` and `tail`. */
    twostate lemma SwapValid()
      requires old(Valid()) && head == old(tail) && tail == old(head) && length == old(length)
      requires Nodes == Reversed(old(Nodes)) && Contents == Reversed(old(Contents)) && Repr == old(Repr)
      requires forall i :: 0 <= i < |old(Nodes)| ==>
        old(Nodes)[i].next == old(Nodes[i].prev) && old(Nodes)[i].prev == old(Nodes[i].next) &&
        old(Nodes)[i].value == old(Nodes[i].value)
      ensures Valid()
    {
      ghost var ns, cs := old(Nodes), old(Contents);
      forall i | 0 <= i < |ns|
        ensures Nodes[i] == ns[|ns| - 1 - i]
      {
        ReversedAt(ns, i);
      }
      forall i {:trigger Nodes[i].next} | 0 <= i < |Nodes| - 1
        ensures Nodes[i].next == Nodes[i + 1]
      {
        assert old(ns[|ns| - 1 - i].prev) == ns[|ns| - 2 - i];
      }
      forall i {:trigger Nodes[i].prev} | 0 < i < |Nodes|
        ensures Nodes[i].prev == Nodes[i - 1]
      {
        assert old(ns[|ns| - 1 - i].next) == ns[|ns| - i];
      }
      forall i | 0 <= i < |cs|
        ensures Contents[i] == cs[|cs| - 1 - i]
      {
        ReversedAt(cs, i);
      }
      DistinctReversed(ns);
    }

    /** `begin()`: the first real node, or the tail sentinel when the list is empty. */
    function Begin(): (it: Iterator<T>)
      reads this, Repr
      requires Valid()
      ensures it.node == Nodes[1]
      ensures it == End() <==> Contents == []
    {
      LinksAt(0);
      Iterator(head.next)
    }

    /** `end()`: always the tail sentinel. */
    function End(): (it: Iterator<T>)
      reads this, Repr
      requires Valid()
      ensures it.node == Nodes[|Nodes| - 1]
    {
      Iterator(tail)
    }

    /** `++` from chain position `k` (not the tail sentinel) reaches position `k + 1`. */
    lemma NextStep(it: Iterator<T>, k: nat)
      requires Valid() && k < |Nodes| - 1 && it.node == Nodes[k]
      ensures it.node.next != null && it.Next().node == Nodes[k + 1]
    {
      LinksAt(k);
    }

    /** `--` from chain position `k` (neither sentinel before it) reaches position `k - 1`. */
    lemma PrevStep(it: Iterator<T>, k: nat)
      requires Valid() && 2 <= k < |Nodes| && it.node == Nodes[k]
      ensures it.node.prev != null && it.Prev().node == Nodes[k - 1]
    {
      LinksAt(k);
    }

    /** `*` at chain position `k` of a real node yields element `k - 1`. */
    lemma ValueAt(it: Iterator<T>, k: nat)
      requires Valid() && 1 <= k <= |Contents| && it.node == Nodes[k]
      ensures it.Value() == Contents[k - 1]
    {
    }

    /** Iterators at two chain positions are equal exactly when the positions are. */
    lemma IteratorsEqual(a: Iterator<T>, j: nat, b: Iterator<T>, k: nat)
      requires Valid() && j < |Nodes| && k < |Nodes| && a.node == Nodes[j] && b.node == Nodes[k]
      ensures a == b <==> j == k
    {
    }

    /** Iterators into two lists that share no node are never equal, even when the values agree. */
    lemma IteratorsOfOtherList(other: DoublyLinkedList<T>, a: Iterator<T>, j: nat, b: Iterator<T>, k: nat)
      requires Valid() && other.Valid() && Repr !! other.Repr
      requires j < |Nodes| && a.node == Nodes[j] && k < |other.Nodes| && b.node == other.Nodes[k]
      ensures a != b
    {
      assert a.node in Repr && b.node in other.Repr;
    }

    /** Forward iteration from `begin()` to `end()`, collecting every `*it`. */
    method Elements() returns (vs: seq<T>)
      requires Valid()
      ensures vs == Contents
    {
      var it := Begin();
      ghost var k := 1;
      vs := [];
      while it != End()
        invariant 1 <= k < |Nodes| && it.node == Nodes[k]
        invariant vs == Contents[..k - 1]
        decreases |Nodes| - k
      {
        IteratorsEqual(it, k, End(), |Nodes| - 1);
        vs := vs + [it.Value()];
        NextStep(it, k);
        it := it.Next();
        k := k + 1;
      }
      IteratorsEqual(it, k, End(), |Nodes| - 1);
    }

    /** Backward iteration: `--it` from `end()` until `begin()`, collecting every `*it`. */
    method ElementsBackward() returns (vs: seq<T>)
      requires Valid()
      ensures vs == Reversed(Contents)
    {
      var it := End();
      ghost var k := |Nodes| - 1;
      vs := [];
      while it != Begin()
        invariant 1 <= k < |Nodes| && it.node == Nodes[k]
        invariant |vs| == |Nodes| - 1 - k
        invariant forall j :: 0 <= j < |vs| ==> vs[j] == Contents[|Contents| - 1 - j]
        decreases k
      {
        IteratorsEqual(it, k, Begin(), 1);
        PrevStep(it, k);
        it := it.Prev();
        k := k - 1;
        vs := vs + [it.Value()];
      }
      IteratorsEqual(it, k, Begin(), 1);
      forall j | 0 <= j < |vs|
        ensures vs[j] == Reversed(Contents)[j]
      {
        ReversedAt(Contents, j);
      }
    }

    /**
     * The text of the list: `[`, the elements comma-space separated, `]`.
     * Each element is turned into text by `formatter` when one is given,
     * else by the element type's default text `defaultText`.
     */
    method ToString(formatter: Option<T -> string>, defaultText: T -> string) returns (s: string)
      requires Valid()
      ensures s == Render(Contents, if formatter.Some? then formatter.value else defaultText)
    {
      var f: T -> string := if formatter.Some? then formatter.value else defaultText;
      var body, first := "", true;
      var it := Begin();
      ghost var n: nat := 0;
      while it != End()
        invariant n < |Nodes| - 1 && it.node == Nodes[n + 1]
        invariant first <==> n == 0
        invariant body == Join(Formatted(Contents[..n], f), ", ")
        decreases |Nodes| - n
      {
        IteratorsEqual(it, n + 1, End(), |Nodes| - 1);
        ValueAt(it, n + 1);
        FormattedSnoc(Contents, n, f);
        JoinSnoc(Formatted(Contents[..n], f), ", ", f(it.Value()));
        body := if first then f(it.Value()) else body + ", " + f(it.Value());
        first := false;
        NextStep(it, n + 1);
        it := it.Next();
        n := n + 1;
      }
      IteratorsEqual(it, n + 1, End(), |Nodes| - 1);
      assert Contents[..n] == Contents;
      s := "[" + body + "]";
    }
  }
}

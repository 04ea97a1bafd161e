/**
 The singly linked list itself: nodes on the heap, a `head` reference, and
 the two operations that change the chain in place.
 */
module LinkedLists {
  import opened ListSpec

  /** One link of the chain: a payload and the next node, or `null` at the
      tail. */
  class Node<T> {
    var data: T
    var next: Node?<T>

    /** A fresh node carries `data` and has no successor yet. */
    constructor (data: T)
      ensures this.data == data && next == null
    {
      this.data := data;
      this.next := null;
    }
  }

  /** A list owning the chain that starts at `head`. */
  class LinkedList<T> {
    var head: Node?<T>

    // public view: the payloads from head to tail
    ghost var Contents: seq<T>
    // the nodes of the chain, in order
    ghost var Spine: seq<Node<T>>
    // the objects the list is made of
    ghost var Repr: set<object>

    /** The chain from `head` visits the nodes of `Spine` in order, each
        once, and ends with `null`; it is therefore finite and acyclic. */
    ghost predicate Valid()
      reads this, Repr
      ensures Valid() ==> this in Repr
    {
      this in Repr &&
      |Spine| == |Contents| &&
      (forall i :: 0 <= i < |Spine| ==> Spine[i] in Repr && Spine[i].data == Contents[i]) &&
      head == (if Spine == [] then null else Spine[0]) &&
      (forall i {:trigger Spine[i].next} :: 0 <= i < |Spine| - 1 ==> Spine[i].next == Spine[i + 1]) &&
      (Spine != [] ==> Spine[|Spine| - 1].next == null) &&
      (forall i, j :: 0 <= i < j < |Spine| ==> Spine[i] != Spine[j])
    }

    /** A new list is empty. */
    constructor ()
      ensures Valid() && fresh(Repr)
      ensures head == null && Contents == []
    {
      head := null;
      Contents := [];
      Spine := [];
      Repr := {this};
    }

    /** The payloads met walking the chain from `head` to its end: the
        traversal the list's printer performs. */
    method ToSeq() returns (s: seq<T>)
      requires Valid()
      ensures s == Contents
    {
      s := [];
      var current := head;
      ghost var k := 0;
      while current != null
        invariant 0 <= k <= |Spine|
        invariant current == if k < |Spine| then Spine[k] else null
        invariant s == Contents[..k]
        decreases |Spine| - k
      {
        s := s + [current.data];
        current := current.next;
        k := k + 1;
      }
    }

    /** Appends a node carrying `data` at the tail. */
    method AddNode(data: T)
      requires Valid()
      modifies Repr
      ensures Valid() && fresh(Repr - old(Repr))
      ensures Contents == old(Contents) + [data]
      ensures old(head) == null ==> fresh(head) && Contents == [data]
      ensures old(head) != null ==> head == old(head)
      // the old nodes stay, in order, and one fresh node follows them
      ensures |Spine| > 0 && Spine[..|Spine| - 1] == old(Spine) && fresh(Spine[|Spine| - 1])
    {
      var newNode := new Node(data);
      if head == null {
        head := newNode;
      } else {
        var current := head;
        ghost var k := 0;
        while current.next != null
          invariant Valid()
          invariant 0 <= k < |Spine| && current == Spine[k]
          decreases |Spine| - k
        {
          current := current.next;
          k := k + 1;
        }
        current.next := newNode;
      }
      Spine := Spine + [newNode];
      Contents := Contents + [data];
      Repr := Repr + {newNode};
    }

    /** Unlinks the node at 1-based position `n`. An empty list, or a
        position that names no node, raises and leaves the list as it was. */
    method DeleteNode(n: int) returns (outcome: Outcome)
      requires Valid()
      modifies Repr
      ensures Valid() && Repr <= old(Repr)
      ensures DeleteAt(old(Contents), n).Ok? ==>
        outcome == Deleted && Contents == DeleteAt(old(Contents), n).rest
      ensures DeleteAt(old(Contents), n).Err? ==>
        outcome == Raised(DeleteAt(old(Contents), n).error) &&
        head == old(head) && Spine == old(Spine) && Contents == old(Contents) &&
        Repr == old(Repr)
      // the surviving nodes are the old ones, in order, minus the `n`th
      ensures DeleteAt(old(Contents), n).Ok? ==> Spine == old(Spine[..n - 1] + Spine[n..])
      ensures old(head) != null && n == 1 ==> head == old(head.next)
      ensures n != 1 ==> head == old(head)
    {
      if head == null {
        return Raised(EmptyList);
      }

      if n == 1 {
        UnlinkHead();
        return Deleted;
      }

      var current := head;
      var count := 1;
      ghost var k := 0;
      while current != null && current.next != null
        invariant Valid() && Repr == old(Repr) && head == old(head)
        invariant Spine == old(Spine) && Contents == old(Contents)
        invariant 0 <= k < |Spine| && current == Spine[k]
        invariant count == k + 1
        // no position before `count` was the one preceding `n`
        invariant !(2 <= n <= count)
        decreases |Spine| - k
      {
        if count == n - 1 {
          if current.next != null {
            UnlinkAfter(current, k);
            return Deleted;
          }
        }
        current := current.next;
        count := count + 1;
        k := k + 1;
      }

      return Raised(OutOfRange(n));
    }

    /** Unlinks the first node by moving `head` to its successor. */
    method UnlinkHead()
      requires Valid() && head != null
      modifies this
      ensures Valid() && Repr == old(Repr) - {old(head)}
      ensures head == old(head.next)
      ensures Spine == old(Spine[1..]) && Contents == old(Contents[1..])
    {
      head := head.next;
      Spine := Spine[1..];
      Contents := Contents[1..];
      Repr := Repr - {old(head)};
    }

    /** Unlinks the successor of `current`, the node at 0-based position `k`,
        by pointing `current.next` past it. */
    method UnlinkAfter(current: Node<T>, ghost k: nat)
      requires Valid() && k + 1 < |Spine| && current == Spine[k]
      modifies Repr
      ensures Valid() && Repr == old(Repr) - {old(Spine[k + 1])}
      ensures head == old(head)
      ensures Spine == old(Spine[..k + 1] + Spine[k + 2..])
      ensures Contents == old(Contents[..k + 1] + Contents[k + 2..])
    {
      ghost var gone := current.next;
      current.next := current.next.next;
      Spine := Spine[..k + 1] + Spine[k + 2..];
      Contents := Contents[..k + 1] + Contents[k + 2..];
      Repr := Repr - {gone};
    }
  }
}

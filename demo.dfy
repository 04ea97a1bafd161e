/**
 Clients of the linked list: the scenario the module runs as a script, and
 building a list by appending values one at a time.
 */
module Demo {
  import opened ListSpec
  import opened LinkedLists

  /** Appending each of `xs` in turn to a new list yields exactly `xs`, in
      append order. */
  method FromValues<T>(xs: seq<T>) returns (list: LinkedList<T>)
    ensures list.Valid() && fresh(list.Repr)
    ensures list.Contents == xs
  {
    list := new LinkedList();
    for i := 0 to |xs|
      invariant list.Valid() && fresh(list.Repr)
      invariant list.Contents == xs[..i]
    {
      list.AddNode(xs[i]);
    }
  }

  /** The script's run: five appends, a deletion in the middle, a deletion
      out of range, a deletion at the front and one at the tail, with the
      payloads the list holds after each step. The list is built by
      appending 10, 20, 30, 40 and 50 in that order. */
  method Scenario() returns (original: seq<int>, afterThird: seq<int>,
                             tenth: Outcome, afterFirst: seq<int>, afterLast: seq<int>)
    ensures original == [10, 20, 30, 40, 50]
    ensures afterThird == [10, 20, 40, 50]
    ensures tenth == Raised(OutOfRange(10))
    ensures afterFirst == [20, 40, 50]
    ensures afterLast == [20, 40]
  {
    var list := FromValues([10, 20, 30, 40, 50]);
    original := list.ToSeq();

    assert DeleteAt(list.Contents, 3) == Ok([10, 20, 40, 50]);
    var third := list.DeleteNode(3);
    assert third == Deleted;
    afterThird := list.ToSeq();

    tenth, afterFirst, afterLast := ScenarioContinued(list);
  }

  /** The rest of the script's run, from the list 10, 20, 40, 50: position
      10 does not exist, then the first and the (new) third node go. */
  method ScenarioContinued(list: LinkedList<int>)
    returns (tenth: Outcome, afterFirst: seq<int>, afterLast: seq<int>)
    requires list.Valid() && list.Contents == [10, 20, 40, 50]
    modifies list.Repr
    ensures list.Valid() && list.Contents == [20, 40]
    ensures tenth == Raised(OutOfRange(10))
    ensures afterFirst == [20, 40, 50]
    ensures afterLast == [20, 40]
  {
    assert DeleteAt(list.Contents, 10) == Err(OutOfRange(10));
    tenth := list.DeleteNode(10);

    assert DeleteAt(list.Contents, 1) == Ok([20, 40, 50]);
    var first := list.DeleteNode(1);
    assert first == Deleted;
    afterFirst := list.ToSeq();

    assert DeleteAt(list.Contents, 3) == Ok([20, 40]);
    var last := list.DeleteNode(3);
    assert last == Deleted;
    afterLast := list.ToSeq();
  }
}

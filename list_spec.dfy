/**
 The abstract view of the singly linked list: the sequence of payloads one
 meets walking `next` from `head`, the errors positional deletion can raise,
 and what deletion does to that sequence.
 */
module ListSpec {

  /** The two ways `delete_node` raises `IndexError`. Only the out-of-range
      error names the requested position; the empty-list one does not. */
  datatype IndexError = EmptyList | OutOfRange(index: int)

  /** What `delete_node` reports: it returns normally or raises. */
  datatype Outcome = Deleted | Raised(error: IndexError)

  /** Deletion as an edit of the payload sequence: either the sequence
      without its `n`th element (1-based), or the error the list raises. */
  datatype Edit<T> = Ok(rest: seq<T>) | Err(error: IndexError)

  /** The effect of deleting the node at 1-based position `n` from a list
      whose payloads are `s`. */
  function DeleteAt<T>(s: seq<T>, n: int): (r: Edit<T>)
    // the only way to succeed is a position that names an existing node
    ensures r.Ok? <==> s != [] && 1 <= n <= |s|
    // an empty list always refuses, whatever `n` is
    ensures s == [] ==> r == Err(EmptyList)
    // a non-empty list refuses an out-of-range position by naming it
    ensures s != [] && r.Err? ==> r.error == OutOfRange(n)
    // deleting the first node leaves the old second node at the front
    ensures s != [] && n == 1 ==> r == Ok(s[1..])
    // exactly one element goes
    ensures r.Ok? ==> |r.rest| == |s| - 1
  {
    if s == [] then Err(EmptyList)
    else if 1 <= n <= |s| then Ok(s[..n - 1] + s[n..])
    else Err(OutOfRange(n))
  }

  /** The survivors of a deletion keep their payloads and their relative
      order: those before position `n` stay where they were, those after it
      move up by one. */
  lemma DeleteAtKeepsOrder<T>(s: seq<T>, n: int)
    requires 1 <= n <= |s|
    ensures forall i :: 0 <= i < n - 1 ==> DeleteAt(s, n).rest[i] == s[i]
    ensures forall i :: n - 1 <= i < |s| - 1 ==> DeleteAt(s, n).rest[i] == s[i + 1]
  {
  }

  /** Reference definition of removing the `n`th element, following the
      chain the way the list does: keep the first node and look for
      position `n - 1` in the rest. */
  function Unlinked<T>(s: seq<T>, n: nat): (r: seq<T>)
    requires 1 <= n <= |s|
    ensures |r| == |s| - 1
    decreases n
  {
    if n == 1 then s[1..] else [s[0]] + Unlinked(s[1..], n - 1)
  }

  /** The slice-based deletion agrees with the node-by-node reference. */
  lemma {:induction false} DeleteAtIsUnlinked<T>(s: seq<T>, n: nat)
    requires 1 <= n <= |s|
    ensures DeleteAt(s, n) == Ok(Unlinked(s, n))
    decreases n
  {
    if n > 1 {
      DeleteAtIsUnlinked(s[1..], n - 1);
      assert s[1..][..n - 2] + s[1..][n - 1..] == s[1..n - 1] + s[n..];
      assert s[..n - 1] == [s[0]] + s[1..n - 1];
    }
  }

  /** Deletion loses exactly the deleted payload: nothing else is dropped
      or duplicated. */
  lemma DeleteAtMultiset<T>(s: seq<T>, n: int)
    requires 1 <= n <= |s|
    ensures multiset(s) == multiset(DeleteAt(s, n).rest) + multiset{s[n - 1]}
  {
    assert s == s[..n - 1] + [s[n - 1]] + s[n..];
  }

  /** Appending a payload and then deleting the last position restores the
      original list: `delete_node(len)` undoes `add_node`. */
  lemma AddThenDeleteLast<T>(s: seq<T>, x: T)
    ensures DeleteAt(s + [x], |s| + 1) == Ok(s)
  {
  }

  /** Deleting a position of the old list commutes with appending. */
  lemma DeleteCommutesWithAdd<T>(s: seq<T>, x: T, n: int)
    requires 1 <= n <= |s|
    ensures DeleteAt(s + [x], n) == Ok(DeleteAt(s, n).rest + [x])
  {
  }
}

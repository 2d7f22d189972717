/** The undo history: a stack over an array that never holds more than three
    dispatched requests. */
module UndoHistory {
  import opened Requests
  import opened Sequences

  /** Java's UNDO_LIMIT. */
  const UndoLimit: int := 3

  /** The history after a push, bottom to top, as the source computes it: when the
      stack is full, `push` first pops, so the most recent entry is the one dropped. */
  function PushBounded<T>(h: seq<T>, r: T): seq<T> {
    if |h| == UndoLimit then h[..|h| - 1] + [r] else h + [r]
  }

  /** A push never takes the history past three entries, puts the new record on top,
      keeps the entries below it (all of them, or all but the old top when full). */
  lemma PushBoundedShape<T>(h: seq<T>, r: T)
    requires |h| <= UndoLimit
    ensures var h' := PushBounded(h, r);
      && |h'| == (if |h| < UndoLimit then |h| + 1 else UndoLimit)
      && h'[|h'| - 1] == r
      && h'[..|h'| - 1] == (if |h| < UndoLimit then h else h[..UndoLimit - 1])
  {
  }

  /** Every entry after a push is the new record or was there before, and a record
      not yet in a history without repetitions does not repeat after it is pushed. */
  lemma PushBoundedMembers<T>(h: seq<T>, r: T)
    ensures forall i :: 0 <= i < |PushBounded(h, r)| ==> PushBounded(h, r)[i] == r || PushBounded(h, r)[i] in h
    ensures Distinct(h) && r !in h ==> Distinct(PushBounded(h, r))
  {
    var h' := PushBounded(h, r);
    assert forall i :: 0 <= i < |h'| - 1 ==> h'[i] == h[i];
  }

  /** After four dispatches D, E, F, G the history is [D, E, G]: F, the newest entry
      when G arrived, is the one evicted, not D, the oldest. */
  lemma FourPushesEvictThird<T>(d: T, e: T, f: T, g: T)
    ensures PushBounded(PushBounded(PushBounded(PushBounded([], d), e), f), g) == [d, e, g]
    ensures d != e ==> PushBounded([d, e, f], g) != [e, f, g]
  {
    assert PushBounded(PushBounded(PushBounded([], d), e), f) == [d, e, f];
    assert [d, e, f][..2] == [d, e];
  }

  class Stack {
    const stack: array<ReliefRequest?>
    var top: int
    /** The entries, bottom to top. */
    ghost var History: seq<ReliefRequest>

    ghost predicate Valid()
      reads this, stack
    {
      && -1 <= top < UndoLimit && top < stack.Length
      && |History| == top + 1
      && forall i :: 0 <= i <= top ==> stack[i] == History[i]
    }

    constructor (capacity: nat)
      ensures Valid() && fresh(stack) && stack.Length == capacity && History == []
    {
      stack := new ReliefRequest?[capacity];
      top := -1;
      History := [];
    }

    /** Pushes a dispatched record; on a full stack the current top is discarded first.
        The source writes `stack[++top]` unguarded, so the array must have room. */
    method Push(request: ReliefRequest)
      requires Valid()
      requires |History| < stack.Length || |History| == UndoLimit
      modifies this, stack
      ensures Valid() && History == PushBounded(old(History), request)
    {
      if top + 1 == UndoLimit {
        var dropped := Pop();
      }
      top := top + 1;
      stack[top] := request;
      History := History + [request];
    }

    /** Removes and returns the most recent entry, or `null` when empty. */
    method Pop() returns (r: ReliefRequest?)
      requires Valid()
      modifies this
      ensures Valid()
      ensures old(History) == [] ==> r == null && History == []
      ensures old(History) != [] ==>
        r == old(History)[|old(History)| - 1] && History == old(History)[..|old(History)| - 1]
    {
      if top == -1 {
        r := null;
      } else {
        r := stack[top];
        top := top - 1;
        History := History[..|History| - 1];
      }
    }

    method IsEmpty() returns (b: bool)
      requires Valid()
      ensures b <==> History == []
    {
      b := top == -1;
    }

    /** Popping right after a push returns the record just pushed and leaves the
        entries that were below it (all but the old top, when the push evicted it). */
    method PushThenPop(request: ReliefRequest) returns (popped: ReliefRequest?)
      requires Valid()
      requires |History| < stack.Length || |History| == UndoLimit
      modifies this, stack
      ensures Valid() && popped == request
      ensures History == if |old(History)| < UndoLimit then old(History) else old(History)[..UndoLimit - 1]
    {
      PushBoundedShape(History, request);
      Push(request);
      popped := Pop();
    }

    /** The entries, bottom to top (Java's `getHistory`). */
    method GetHistory() returns (h: seq<ReliefRequest>)
      requires Valid()
      ensures h == History
    {
      h := [];
      for i := 0 to top + 1
        invariant h == History[..i]
      {
        h := h + [stack[i]];
      }
    }
  }
}

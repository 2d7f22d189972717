/** The allocation engine: owns the priority queue of pending requests, the index by
    location identifier, the bounded undo history and the resource ledger. */
module Allocation {
  import opened Requests
  import opened Sequences
  import opened PriorityQueue
  import opened UndoHistory
  import opened HashIndex

  /** Age after which a pending request is promoted on each allocation cycle (60 s). */
  const MaxWaitMillis: int := 60000
  const QueueCapacity: nat := 100
  const HistoryCapacity: nat := 100
  const IndexSize: int := 50

  /** Resource type to quantity on hand. */
  type Ledger = map<string, int>

  function InitialLedger(): Ledger {
    map["Food" := 50, "Water" := 50, "Medical" := 50]
  }

  /** Stock of `t`, zero when the type is not listed (Java's getOrDefault). */
  function StockOf(s: Ledger, t: string): int {
    if t in s then s[t] else 0
  }

  /** Takes `q` units of `t` out of the ledger; only `t` changes. */
  function Debit(s: Ledger, t: string, q: int): (s': Ledger)
    requires t in s
    ensures s'.Keys == s.Keys
    ensures StockOf(s', t) == StockOf(s, t) - q
    ensures forall u :: u != t ==> StockOf(s', u) == StockOf(s, u)
  {
    s[t := s[t] - q]
  }

  /** Puts `q` units of `t` into the ledger, listing `t` if it was not; only `t` changes. */
  function Credit(s: Ledger, t: string, q: int): (s': Ledger)
    ensures s'.Keys == s.Keys + {t}
    ensures StockOf(s', t) == StockOf(s, t) + q
    ensures forall u :: u != t ==> StockOf(s', u) == StockOf(s, u)
  {
    s[t := StockOf(s, t) + q]
  }

  ghost predicate NonNegative(s: Ledger) {
    forall t :: t in s ==> s[t] >= 0
  }

  /** Crediting back what was debited restores the ledger exactly (undo after dispatch). */
  lemma CreditUndoesDebit(s: Ledger, t: string, q: int)
    requires t in s
    ensures Credit(Debit(s, t, q), t, q) == s
  {
    assert Credit(Debit(s, t, q), t, q)[t] == s[t];
  }

  /** Dispatching `r` never reads a missing ledger entry: a type that is not listed has
      stock 0, which passes the stock test only for a quantity of at most 0, and the
      dispatch branch then reads the entry with `get`. */
  predicate DispatchDefined(r: ReliefRequest, s: Ledger) {
    r.quantity > 0 || r.resType in s
  }

  /** Number of requests in `rs` whose resource type is exactly `t` (the per-type tally
      of the statistics report, which, unlike the analytics report, is case-sensitive). */
  function Occurrences(rs: seq<ReliefRequest>, t: string): nat {
    if rs == [] then 0
    else Occurrences(rs[..|rs| - 1], t) + (if rs[|rs| - 1].resType == t then 1 else 0)
  }

  /** A type occurs in `rs` exactly when some request of `rs` has it, and never more often
      than there are requests. */
  lemma {:induction false} OccurrencesBounds(rs: seq<ReliefRequest>, t: string)
    ensures Occurrences(rs, t) <= |rs|
    ensures Occurrences(rs, t) > 0 <==> exists i :: 0 <= i < |rs| && rs[i].resType == t
  {
    if rs != [] {
      var p := rs[..|rs| - 1];
      OccurrencesBounds(p, t);
      assert forall i :: 0 <= i < |p| ==> p[i] == rs[i];
    }
  }

  /** The exact tally never exceeds the case-insensitive count of the analytics report. */
  lemma {:induction false} OccurrencesAtMostCountType(rs: seq<ReliefRequest>, t: string)
    ensures Occurrences(rs, t) <= CountType(rs, t)
  {
    if rs != [] {
      OccurrencesAtMostCountType(rs[..|rs| - 1], t);
      EqualsIgnoreCaseIsEquivalence(t, t, t);
    }
  }

  lemma OccurrencesSnoc(rs: seq<ReliefRequest>, r: ReliefRequest, t: string)
    ensures Occurrences(rs + [r], t) == Occurrences(rs, t) + (if r.resType == t then 1 else 0)
  {
    assert (rs + [r])[..|rs|] == rs;
  }

  /** The per-type tally of the statistics report (the `resCount` map): every type that
      occurs among `rs`, with how often it occurs. */
  method TallyTypes(rs: seq<ReliefRequest>) returns (counts: map<string, nat>)
    ensures forall t :: t in counts <==> exists i :: 0 <= i < |rs| && rs[i].resType == t
    ensures forall t :: t in counts ==> counts[t] == Occurrences(rs, t)
  {
    counts := map[];
    for i := 0 to |rs|
      invariant forall t :: t in counts <==> exists j :: 0 <= j < i && rs[j].resType == t
      invariant forall t :: t in counts ==> counts[t] == Occurrences(rs[..i], t)
    {
      var t := rs[i].resType;
      var n := if t in counts then counts[t] else 0;
      assert n == Occurrences(rs[..i], t) by {
        OccurrencesBounds(rs[..i], t);
        assert forall j :: 0 <= j < i ==> rs[..i][j] == rs[j];
      }
      counts := counts[t := n + 1];
      forall u ensures Occurrences(rs[..i + 1], u) == Occurrences(rs[..i], u) + (if rs[i].resType == u then 1 else 0) {
        assert rs[..i + 1] == rs[..i] + [rs[i]];
        OccurrencesSnoc(rs[..i], rs[i], u);
      }
    }
    assert rs[..|rs|] == rs;
  }

  /** The "most requested resource" of the statistics report: a type whose tally is
      maximal, or `None` when nothing is pending. Ties go to the type met first in `rs`. */
  method MostRequested(rs: seq<ReliefRequest>, counts: map<string, nat>) returns (best: Option<string>)
    requires forall t :: t in counts <==> exists i :: 0 <= i < |rs| && rs[i].resType == t
    requires forall t :: t in counts ==> counts[t] == Occurrences(rs, t)
    ensures best.None? <==> rs == []
    ensures best.Some? ==> exists i :: 0 <= i < |rs| && rs[i].resType == best.value
    ensures best.Some? ==> forall i :: 0 <= i < |rs| ==> Occurrences(rs, rs[i].resType) <= Occurrences(rs, best.value)
  {
    best := None;
    var bestCount := 0;
    for i := 0 to |rs|
      invariant best.None? <==> i == 0
      invariant best.Some? ==> best.value in counts && bestCount == counts[best.value]
      invariant forall j :: 0 <= j < i ==> rs[j].resType in counts && counts[rs[j].resType] <= bestCount
    {
      var t := rs[i].resType;
      assert t in counts;
      if best.None? || counts[t] > bestCount {
        best := Some(t);
        bestCount := counts[t];
      }
    }
  }

  /** The index `contents` holds exactly the requests of `pending`, each under its own
      identifier, and no request of `history` shares an identifier with an indexed one
      or with another request of `history`. */
  ghost predicate Matches(pending: set<ReliefRequest>, contents: map<string, ReliefRequest>, history: seq<ReliefRequest>) {
    && (forall r :: r in pending ==> r.id in contents && contents[r.id] == r)
    && (forall id :: id in contents ==> contents[id] in pending && contents[id].id == id)
    && (forall i, j :: 0 <= i < j < |history| ==> history[i].id != history[j].id)
    && (forall i :: 0 <= i < |history| ==> history[i].id !in contents)
  }

  /** Queuing and indexing a request whose identifier is in use nowhere keeps the index
      in step with the queue. */
  lemma MatchesAdd(pending: set<ReliefRequest>, contents: map<string, ReliefRequest>, history: seq<ReliefRequest>, r: ReliefRequest)
    requires Matches(pending, contents, history)
    requires r.id !in contents && forall i :: 0 <= i < |history| ==> history[i].id != r.id
    ensures Matches(pending + {r}, contents[r.id := r], history)
  {
  }

  datatype AllocateOutcome =
    | Dispatched(request: ReliefRequest)
    | InsufficientStock(request: ReliefRequest)
    | NoPendingRequests

  datatype UndoOutcome = Undone(request: ReliefRequest) | NothingToUndo

  class DisasterReliefAllocator {
    const queue: PriorityQ
    const stack: Stack
    const index: MyHashMap
    var resourceStock: Ledger
    var dispatchedCount: int

    /** The shape of the owned structures, whatever is pending. */
    ghost predicate Structures()
      reads queue, queue.heap, stack, stack.stack, index, index.buckets
    {
      && queue.Valid() && stack.Valid() && index.Valid()
      && queue.heap != stack.stack
      && queue.heap.Length == QueueCapacity && stack.stack.Length == HistoryCapacity
      && Distinct(stack.History)
    }

    /** No request of `pending` is also in the undo history, and every request the engine
        holds can be dispatched without reading a missing ledger entry. */
    ghost predicate Covers(pending: set<ReliefRequest>)
      reads this, stack
    {
      && (forall i :: 0 <= i < |stack.History| ==> stack.History[i] !in pending)
      && (forall r :: r in pending ==> DispatchDefined(r, resourceStock))
      && (forall i :: 0 <= i < |stack.History| ==> DispatchDefined(stack.History[i], resourceStock))
    }

    ghost predicate Valid()
      reads this, queue, queue.heap, stack, stack.stack, index, index.buckets
    {
      Structures() && Covers(queue.Items())
    }

    /** The middle of an allocation cycle: `r` has been taken out of the queue and is
        neither queued nor in the undo history. */
    ghost predicate InFlight(r: ReliefRequest)
      reads this, queue, queue.heap, stack, stack.stack, index, index.buckets
    {
      && Structures() && queue.size < QueueCapacity
      && r !in queue.Items()
      && Covers(queue.Items() + {r})
    }

    /** The index holds exactly the requests of `pending`, each under its own identifier,
        and no request in the undo history shares an identifier with an indexed one or
        with another request in the history. */
    ghost predicate IndexMatches(pending: set<ReliefRequest>)
      reads stack, index
    {
      Matches(pending, index.Contents, stack.History)
    }

    /** The index holds exactly the pending (queued) requests. */
    ghost predicate Synced()
      reads queue, queue.heap, stack, index
      requires queue.Valid()
    {
      IndexMatches(queue.Items())
    }

    /** No pending request and no request in the undo history uses `id`. */
    ghost predicate IdFree(id: string)
      reads stack, index
    {
      id !in index.Contents && forall i :: 0 <= i < |stack.History| ==> stack.History[i].id != id
    }

    constructor ()
      ensures Valid() && Synced() && queue.IsHeap()
      ensures fresh(queue) && fresh(queue.heap) && fresh(stack) && fresh(stack.stack)
      ensures fresh(index) && fresh(index.buckets)
      ensures queue.Elements() == [] && stack.History == [] && index.Contents == map[]
      ensures resourceStock == InitialLedger() && dispatchedCount == 0
    {
      queue := new PriorityQ(QueueCapacity);
      stack := new Stack(HistoryCapacity);
      index := new MyHashMap(IndexSize);
      resourceStock := InitialLedger();
      dispatchedCount := 0;
    }

    /** Queues a new request and indexes it by its identifier. The queue's array must
        have room. */
    method AddRequest(request: ReliefRequest)
      requires Valid()
      requires queue.size < queue.heap.Length
      requires request !in queue.Items() && request !in stack.History
      requires DispatchDefined(request, resourceStock)
      modifies queue, queue.heap, index, index.buckets
      ensures Valid()
      ensures queue.Items() == old(queue.Items()) + {request}
      ensures index.Contents == old(index.Contents)[request.id := request]
      ensures old(queue.IsHeap()) ==> queue.IsHeap()
      ensures old(Synced()) && old(IdFree(request.id)) ==> Synced()
    {
      ghost var pending := queue.Items();
      ghost var contents := index.Contents;
      ghost var free := Synced() && IdFree(request.id);
      queue.Insert(request);
      index.Put(request.id, request);
      if free {
        MatchesAdd(pending, contents, stack.History, request);
      }
    }

    /** The aging pass of an allocation cycle. Only priorities change. */
    method Promote(now: Millis)
      requires Valid()
      modifies queue.Items()
      ensures Valid()
      ensures forall i :: 0 <= i < queue.size ==>
        queue.heap[i].priority == Promoted(old(queue.heap[i].priority), queue.heap[i].timestamp, now, MaxWaitMillis)
      ensures old(Synced()) ==> Synced()
      ensures old(queue.IsHeap()) && old(queue.NothingToPromote(MaxWaitMillis, now)) ==> queue.IsHeap()
    {
      queue.PromoteOldRequests(MaxWaitMillis, now);
    }

    /** One allocation cycle: age the pending requests, take the most urgent one, and
        dispatch it if the ledger covers its quantity, otherwise put it back. */
    method Allocate(now: Millis) returns (outcome: AllocateOutcome)
      requires Valid()
      modifies this, queue, queue.heap, queue.Items(), index, index.buckets, stack, stack.stack
      ensures Valid()
      ensures forall i :: 0 <= i < old(queue.size) ==>
        old(queue.heap[i]).priority ==
          Promoted(old(queue.heap[i].priority), old(queue.heap[i]).timestamp, now, MaxWaitMillis)
      ensures outcome.NoPendingRequests? <==> old(queue.size) == 0
      ensures !outcome.Dispatched? ==> unchanged(index, index.buckets)
      ensures outcome.NoPendingRequests? ==>
        && queue.Items() == old(queue.Items()) && index.Contents == old(index.Contents)
        && stack.History == old(stack.History)
        && resourceStock == old(resourceStock) && dispatchedCount == old(dispatchedCount)
      ensures !outcome.NoPendingRequests? ==> outcome.request == old(queue.heap[0])
      ensures outcome.Dispatched? <==>
        !outcome.NoPendingRequests? && StockOf(old(resourceStock), outcome.request.resType) >= outcome.request.quantity
      ensures outcome.Dispatched? ==>
        var r := outcome.request;
        && r.resType in old(resourceStock)
        && resourceStock == Debit(old(resourceStock), r.resType, r.quantity)
        && dispatchedCount == old(dispatchedCount) + 1
        && queue.size == old(queue.size) - 1
        && queue.Items() == old(queue.Items()) - {r}
        && index.Contents == old(index.Contents) - {r.id}
        && stack.History == PushBounded(old(stack.History), r)
      ensures outcome.InsufficientStock? ==>
        && queue.Items() == old(queue.Items()) && index.Contents == old(index.Contents)
        && stack.History == old(stack.History)
        && resourceStock == old(resourceStock) && dispatchedCount == old(dispatchedCount)
      ensures NonNegative(old(resourceStock)) ==> NonNegative(resourceStock)
      ensures old(queue.IsHeap()) && old(queue.NothingToPromote(MaxWaitMillis, now)) ==>
        && queue.IsHeap()
        && (!outcome.NoPendingRequests? ==> forall x :: x in queue.Items() ==> !Outranks(x, outcome.request))
      ensures old(Synced()) ==> Synced()
    {
      ghost var synced := Synced();
      ghost var wasHeap := queue.IsHeap() && queue.NothingToPromote(MaxWaitMillis, now);
      Promote(now);
      outcome := DispatchNext(synced, wasHeap);
    }

    /** The part of an allocation cycle after aging: take the most urgent request and
        dispatch it or put it back. */
    method DispatchNext(ghost synced: bool, ghost wasHeap: bool) returns (outcome: AllocateOutcome)
      requires Valid()
      requires synced ==> Synced()
      requires wasHeap ==> queue.IsHeap()
      modifies this, queue, queue.heap, index, index.buckets, stack, stack.stack
      ensures Valid()
      ensures outcome.NoPendingRequests? <==> old(queue.size) == 0
      ensures !outcome.Dispatched? ==> unchanged(index, index.buckets)
      ensures outcome.NoPendingRequests? ==>
        && queue.Items() == old(queue.Items()) && index.Contents == old(index.Contents)
        && stack.History == old(stack.History)
        && resourceStock == old(resourceStock) && dispatchedCount == old(dispatchedCount)
      ensures !outcome.NoPendingRequests? ==> outcome.request == old(queue.heap[0])
      ensures outcome.Dispatched? <==>
        !outcome.NoPendingRequests? && StockOf(old(resourceStock), outcome.request.resType) >= outcome.request.quantity
      ensures outcome.Dispatched? ==>
        var r := outcome.request;
        && r.resType in old(resourceStock)
        && resourceStock == Debit(old(resourceStock), r.resType, r.quantity)
        && dispatchedCount == old(dispatchedCount) + 1
        && queue.size == old(queue.size) - 1
        && queue.Items() == old(queue.Items()) - {r}
        && index.Contents == old(index.Contents) - {r.id}
        && stack.History == PushBounded(old(stack.History), r)
      ensures outcome.InsufficientStock? ==>
        && queue.Items() == old(queue.Items()) && index.Contents == old(index.Contents)
        && stack.History == old(stack.History)
        && resourceStock == old(resourceStock) && dispatchedCount == old(dispatchedCount)
      ensures NonNegative(old(resourceStock)) ==> NonNegative(resourceStock)
      ensures wasHeap ==>
        && queue.IsHeap()
        && (!outcome.NoPendingRequests? ==> forall x :: x in queue.Items() ==> !Outranks(x, outcome.request))
      ensures synced ==> Synced()
    {
      var r := TakeNext(synced, wasHeap);
      if r == null {
        outcome := NoPendingRequests;
      } else if StockOf(resourceStock, r.resType) >= r.quantity {
        Dispatch(r, synced);
        outcome := Dispatched(r);
      } else {
        Requeue(r, synced, wasHeap);
        outcome := InsufficientStock(r);
      }
    }

    /** The extraction step of `allocate`: the most urgent record leaves the queue (the
        index still holds it). */
    method TakeNext(ghost synced: bool, ghost wasHeap: bool) returns (r: ReliefRequest?)
      requires Valid()
      requires synced ==> Synced()
      requires wasHeap ==> queue.IsHeap()
      modifies queue, queue.heap
      ensures r == null <==> old(queue.size) == 0
      ensures r == null ==> Valid() && queue.Items() == old(queue.Items())
      ensures r == null && synced ==> Synced()
      ensures r == null && wasHeap ==> queue.IsHeap()
      ensures r != null ==> r == old(queue.heap[0]) && InFlight(r) && queue.Items() + {r} == old(queue.Items())
      ensures r != null ==> queue.size == old(queue.size) - 1
      ensures r != null && synced ==> IndexMatches(queue.Items() + {r})
      ensures r != null && wasHeap ==> queue.IsHeap() && forall x :: x in queue.Items() ==> !Outranks(x, r)
    {
      ghost var held := queue.Items();
      r := queue.ExtractMin();
      if r != null {
        assert queue.Items() + {r} == held;
        if wasHeap {
          forall x | x in queue.Items() ensures !Outranks(x, r) {
            var i :| 0 <= i < queue.size && queue.heap[..queue.size][i] == x;
          }
        }
      }
    }

    /** The commit branch of `allocate` for a record just taken out of the queue: the
        ledger is debited, the identifier leaves the index and the record goes on the
        undo history. */
    method Dispatch(r: ReliefRequest, ghost synced: bool)
      requires InFlight(r) && StockOf(resourceStock, r.resType) >= r.quantity
      requires synced ==> IndexMatches(queue.Items() + {r})
      modifies this, index, index.buckets, stack, stack.stack
      ensures Valid()
      ensures r.resType in old(resourceStock)
      ensures resourceStock == Debit(old(resourceStock), r.resType, r.quantity)
      ensures dispatchedCount == old(dispatchedCount) + 1
      ensures index.Contents == old(index.Contents) - {r.id}
      ensures stack.History == PushBounded(old(stack.History), r)
      ensures synced ==> Synced()
    {
      ghost var h := stack.History;
      dispatchedCount := dispatchedCount + 1;
      resourceStock := Debit(resourceStock, r.resType, r.quantity);
      index.Remove(r.id);
      stack.Push(r);
      PushBoundedMembers(h, r);
    }

    /** The insufficient-stock branch of `allocate`: the record goes back into the queue;
        the index still holds it. */
    method Requeue(r: ReliefRequest, ghost synced: bool, ghost wasHeap: bool)
      requires InFlight(r)
      requires synced ==> IndexMatches(queue.Items() + {r})
      requires wasHeap ==> queue.IsHeap() && forall x :: x in queue.Items() ==> !Outranks(x, r)
      modifies queue, queue.heap
      ensures Valid()
      ensures queue.Items() == old(queue.Items()) + {r}
      ensures synced ==> Synced()
      ensures wasHeap ==> queue.IsHeap() && forall x :: x in queue.Items() ==> !Outranks(x, r)
    {
      queue.Insert(r);
    }

    /** Takes back the most recent dispatch still in the history: the request is queued
        and indexed again and its quantity returns to the ledger. The dispatch counter is
        left as it is. The queue's array must have room. */
    method Undo() returns (outcome: UndoOutcome)
      requires Valid()
      requires stack.History != [] ==> queue.size < queue.heap.Length
      modifies this, queue, queue.heap, index, index.buckets, stack
      ensures Valid()
      ensures outcome.NothingToUndo? <==> old(stack.History) == []
      ensures outcome.NothingToUndo? ==>
        && queue.Items() == old(queue.Items()) && index.Contents == old(index.Contents)
        && stack.History == old(stack.History) && resourceStock == old(resourceStock)
        && unchanged(queue, queue.heap, index, index.buckets)
      ensures outcome.Undone? ==>
        var r := outcome.request;
        var h := old(stack.History);
        && r == h[|h| - 1] && stack.History == h[..|h| - 1]
        && queue.Items() == old(queue.Items()) + {r}
        && index.Contents == old(index.Contents)[r.id := r]
        && resourceStock == Credit(old(resourceStock), r.resType, r.quantity)
      ensures dispatchedCount == old(dispatchedCount)
      ensures outcome.Undone? && outcome.request.quantity >= 0 && NonNegative(old(resourceStock)) ==>
        NonNegative(resourceStock)
      ensures old(queue.IsHeap()) ==> queue.IsHeap()
      ensures old(Synced()) ==> Synced()
    {
      ghost var synced := Synced();
      var last := PopHistory(synced);
      if last == null {
        outcome := NothingToUndo;
        return;
      }
      AddRequest(last);
      RefillResource(last.resType, last.quantity);
      outcome := Undone(last);
    }

    /** The dispatch/undo round trip: undoing a successful allocation restores the ledger
        and the pending requests exactly, and the history as it was (less its top entry,
        when the push had to evict it). Only aging and the dispatch counter remain. */
    method AllocateThenUndo(now: Millis) returns (first: AllocateOutcome, second: UndoOutcome)
      requires Valid()
      modifies this, queue, queue.heap, queue.Items(), index, index.buckets, stack, stack.stack
      ensures Valid()
      ensures first.Dispatched? ==>
        && second == Undone(first.request)
        && resourceStock == old(resourceStock)
        && queue.Items() == old(queue.Items())
        && dispatchedCount == old(dispatchedCount) + 1
        && stack.History == (if |old(stack.History)| < UndoLimit then old(stack.History) else old(stack.History)[..UndoLimit - 1])
      ensures first.Dispatched? && old(Synced()) ==> index.Contents == old(index.Contents)
    {
      ghost var synced := Synced();
      ghost var items := queue.Items();
      ghost var contents := index.Contents;
      first := Allocate(now);
      if first.Dispatched? {
        assert first.request in items by {
          assert old(queue.heap[..queue.size])[0] == first.request;
        }
        second := UndoDispatch(first.request, old(stack.History), old(resourceStock), items, contents, synced);
      } else {
        second := NothingToUndo;
      }
    }

    /** The second half of the round trip: undo right after `r` was dispatched. */
    method UndoDispatch(ghost r: ReliefRequest, ghost h: seq<ReliefRequest>, ghost stock: Ledger,
                        ghost items: set<ReliefRequest>, ghost contents: map<string, ReliefRequest>, ghost synced: bool)
      returns (second: UndoOutcome)
      requires Valid() && queue.size < queue.heap.Length
      requires |h| <= UndoLimit && stack.History == PushBounded(h, r)
      requires r.resType in stock && resourceStock == Debit(stock, r.resType, r.quantity)
      requires r in items && queue.Items() == items - {r}
      requires synced ==> Synced() && r.id in contents && contents[r.id] == r && index.Contents == contents - {r.id}
      modifies this, queue, queue.heap, index, index.buckets, stack
      ensures Valid() && second == Undone(r)
      ensures resourceStock == stock && queue.Items() == items
      ensures dispatchedCount == old(dispatchedCount)
      ensures stack.History == (if |h| < UndoLimit then h else h[..UndoLimit - 1])
      ensures synced ==> index.Contents == contents
    {
      PushBoundedShape(h, r);
      second := Undo();
      CreditUndoesDebit(stock, r.resType, r.quantity);
    }

    /** The first step of `undo`: the most recent dispatch leaves the history, free to be
        queued and indexed again. */
    method PopHistory(ghost synced: bool) returns (last: ReliefRequest?)
      requires Valid() && (synced ==> Synced())
      modifies stack
      ensures Valid() && (synced ==> Synced())
      ensures last == null <==> old(stack.History) == []
      ensures last == null ==> stack.History == old(stack.History)
      ensures last != null ==>
        var h := old(stack.History);
        && last == h[|h| - 1] && stack.History == h[..|h| - 1]
        && last !in queue.Items() && last !in stack.History && DispatchDefined(last, resourceStock)
      ensures last != null && synced ==> IdFree(last.id)
    {
      ghost var h := stack.History;
      last := stack.Pop();
      if last != null {
        assert last == h[|h| - 1] && last in h;
      }
    }

    /** Adds `quantity` units of `t` to the ledger, listing `t` if it was not. Nothing
        else changes. */
    method RefillResource(t: string, quantity: int)
      requires Valid()
      modifies this
      ensures Valid()
      ensures resourceStock == Credit(old(resourceStock), t, quantity)
      ensures dispatchedCount == old(dispatchedCount)
      ensures quantity >= 0 && NonNegative(old(resourceStock)) ==> NonNegative(resourceStock)
    {
      var current := StockOf(resourceStock, t);
      resourceStock := resourceStock[t := current + quantity];
    }

    /** The values of the statistics report: total requests seen (pending plus
        dispatched), the dispatch counter, the number pending, the most requested
        resource type among pending requests, and the ledger. */
    method Statistics() returns (total: int, dispatched: int, pending: nat, mostRequested: Option<string>, stock: Ledger)
      requires Valid()
      ensures pending == |index.Contents| == |index.Values()|
      ensures dispatched == dispatchedCount && total == pending + dispatchedCount
      ensures stock == resourceStock
      ensures mostRequested.None? <==> index.Contents == map[]
      ensures mostRequested.Some? ==>
        var rs := index.Values();
        && (exists i :: 0 <= i < |rs| && rs[i].resType == mostRequested.value)
        && forall i :: 0 <= i < |rs| ==> Occurrences(rs, rs[i].resType) <= Occurrences(rs, mostRequested.value)
    {
      var all, keys := index.GetAll();
      PendingSize(keys);
      var counts := TallyTypes(all);
      pending := |all|;
      total := pending + dispatchedCount;
      dispatched := dispatchedCount;
      mostRequested := MostRequested(all, counts);
      stock := resourceStock;
    }

    /** The index holds one key per listed value. */
    lemma PendingSize(keys: seq<string>)
      requires Distinct(keys) && forall k :: k in index.Contents <==> k in keys
      ensures |index.Contents| == |keys|
    {
      DistinctSize(keys);
      assert index.Contents.Keys == set k | k in keys;
    }

    /** The values of the analytics report: pending requests per known resource type
        (case-insensitive), and the oldest pending request by timestamp. */
    method Analytics() returns (medical: nat, food: nat, water: nat, oldest: ReliefRequest?)
      requires Valid()
      ensures medical == |KeysOfType(index.Contents, "Medical")|
      ensures food == |KeysOfType(index.Contents, "Food")|
      ensures water == |KeysOfType(index.Contents, "Water")|
      ensures oldest == null <==> queue.size == 0
      ensures oldest != null ==> exists i :: 0 <= i < queue.size && queue.heap[i] == oldest && queue.IsOldestAt(i)
    {
      medical := index.CountRequestsByType("Medical");
      food := index.CountRequestsByType("Food");
      water := index.CountRequestsByType("Water");
      oldest := queue.GetOldestPending();
    }

    /** The requests listed by the urgent-requests report: the `k` most urgent pending
        requests, most urgent first. Nothing changes. */
    method TopUrgent(k: int) returns (urgent: seq<ReliefRequest>)
      requires Valid()
      ensures |urgent| == if k <= 0 then 0 else if k < queue.size then k else queue.size
      ensures multiset(urgent) <= multiset(queue.Elements()) && Distinct(urgent)
      ensures forall r :: r in urgent ==> r in queue.Items()
      ensures forall i, j :: 0 <= i < j < |urgent| ==> !Outranks(urgent[j], urgent[i])
      ensures forall x, i :: x in queue.Items() && x !in urgent && 0 <= i < |urgent| ==> !Outranks(x, urgent[i])
    {
      urgent := queue.GetTopK(k);
      forall i, j | 0 <= i < j < |urgent| ensures urgent[i] != urgent[j] {
        if urgent[i] == urgent[j] {
          RepeatCount(urgent, i, j);
          DistinctCount(queue.Elements(), urgent[i]);
        }
      }
      forall r | r in urgent ensures r in queue.Items() {
        assert r in multiset(urgent);
      }
      forall x, i | x in queue.Items() && x !in urgent && 0 <= i < |urgent| ensures !Outranks(x, urgent[i]) {
        assert x in multiset(queue.Elements()) - multiset(urgent);
      }
    }

    /** The pending request with identifier `id`, or `null` (showRequest). */
    method Lookup(id: string) returns (r: ReliefRequest?)
      requires Valid()
      ensures r == if id in index.Contents then index.Contents[id] else null
      ensures Synced() ==> (r != null <==> exists x :: x in queue.Items() && x.id == id)
      ensures Synced() && r != null ==> r in queue.Items() && r.id == id
    {
      r := index.Get(id);
    }
  }
}

/** The pending-request queue: an array-backed binary min-heap of relief requests. */
module PriorityQueue {
  import opened Requests
  import opened Sequences

  /** Index of the parent of heap slot `i` (for i > 0). */
  function Parent(i: int): int {
    (i - 1) / 2
  }

  /** The records occurring in `s`. */
  ghost function Members(s: seq<ReliefRequest?>): set<ReliefRequest> {
    set r: ReliefRequest | r in s
  }

  ghost predicate NonNull(s: seq<ReliefRequest?>) {
    forall i :: 0 <= i < |s| ==> s[i] != null
  }

  /** Slot `i` is not more urgent than its parent slot. */
  ghost predicate OrderedAt(s: seq<ReliefRequest?>, i: int)
    reads s
    requires NonNull(s) && 0 < i < |s|
  {
    !Outranks(s[i], s[Parent(i)])
  }

  /** The min-heap order: no slot is more urgent than its parent. */
  ghost predicate HeapOrdered(s: seq<ReliefRequest?>)
    reads s
    requires NonNull(s)
  {
    forall i :: 0 < i < |s| ==> OrderedAt(s, i)
  }

  /** The children of slot `c` are not more urgent than the parent of `c`. */
  ghost predicate GrandparentOk(s: seq<ReliefRequest?>, c: int)
    reads s
    requires NonNull(s) && 0 <= c < |s|
  {
    0 < c ==> forall ch :: 0 < ch < |s| && Parent(ch) == c ==> !Outranks(s[ch], s[Parent(c)])
  }

  /** Heap order except between slot `c` and its parent: the state while a record sifts up. */
  ghost predicate OrderedExceptChild(s: seq<ReliefRequest?>, c: int)
    reads s
    requires NonNull(s) && 0 <= c < |s|
  {
    (forall i :: 0 < i < |s| && i != c ==> OrderedAt(s, i)) && GrandparentOk(s, c)
  }

  /** Heap order except between slot `c` and its children: the state while a record sifts down. */
  ghost predicate OrderedExceptParent(s: seq<ReliefRequest?>, c: int)
    reads s
    requires NonNull(s) && 0 <= c < |s|
  {
    (forall i :: 0 < i < |s| && Parent(i) != c ==> OrderedAt(s, i)) && GrandparentOk(s, c)
  }

  function Swapped<T>(s: seq<T>, i: int, j: int): (t: seq<T>)
    requires 0 <= i < |s| && 0 <= j < |s|
    ensures |t| == |s| && multiset(t) == multiset(s)
  {
    s[i := s[j]][j := s[i]]
  }

  /** In heap order, nothing is more urgent than the root. */
  lemma {:induction false} RootMinimal(s: seq<ReliefRequest?>, i: int)
    requires NonNull(s) && HeapOrdered(s) && 0 <= i < |s|
    ensures !Outranks(s[i], s[0])
    decreases i
  {
    if i > 0 {
      assert OrderedAt(s, i);
      RootMinimal(s, Parent(i));
      NotOutrankedTransitive(s[i], s[Parent(i)], s[0]);
    }
  }

  /** Appending to a heap leaves heap order broken at most at the new slot. */
  lemma AppendKeepsOrder(s: seq<ReliefRequest?>, x: ReliefRequest)
    requires NonNull(s) && HeapOrdered(s)
    ensures NonNull(s + [x]) && OrderedExceptChild(s + [x], |s|)
  {
    var t := s + [x];
    forall i | 0 < i < |t| && i != |s| ensures OrderedAt(t, i) {
      assert OrderedAt(s, i);
    }
  }

  /** Replacing the root of a heap leaves heap order broken at most below the root. */
  lemma ReplaceRootKeepsOrder(s: seq<ReliefRequest?>, x: ReliefRequest)
    requires NonNull(s) && HeapOrdered(s) && |s| > 0
    ensures NonNull(s[0 := x]) && OrderedExceptParent(s[0 := x], 0)
  {
    var t := s[0 := x];
    forall i | 0 < i < |t| && Parent(i) != 0 ensures OrderedAt(t, i) {
      assert OrderedAt(s, i);
    }
  }

  /** What `heap[0] = heap[--size]` leaves of the held slots `s`. */
  function RootReplacedByLast(s: seq<ReliefRequest?>): (t: seq<ReliefRequest?>)
    requires |s| > 0
    ensures |t| == |s| - 1
  {
    if |s| == 1 then [] else s[..|s| - 1][0 := s[|s| - 1]]
  }

  /** Moving the last record to the root drops exactly the old root. */
  lemma RootReplacedByLastCount(s: seq<ReliefRequest?>)
    requires |s| > 0
    ensures multiset(RootReplacedByLast(s)) == multiset(s) - multiset{s[0]}
  {
    var n := |s|;
    var p := s[..n - 1];
    assert s == p + [s[n - 1]];
    if n > 1 {
      assert p == [p[0]] + p[1..];
      assert RootReplacedByLast(s) == [s[n - 1]] + p[1..];
    }
  }

  /** A prefix of a sequence in heap order is in heap order. */
  lemma HeapOrderedPrefix(s: seq<ReliefRequest?>, n: int)
    requires NonNull(s) && HeapOrdered(s) && 0 <= n <= |s|
    ensures NonNull(s[..n]) && HeapOrdered(s[..n])
  {
    forall i | 0 < i < n ensures OrderedAt(s[..n], i) {
      assert OrderedAt(s, i);
    }
  }

  /** On a heap, moving the last record to the root leaves the order broken at most
      below the root. */
  lemma RootReplacedByLastOrder(s: seq<ReliefRequest?>)
    requires |s| > 1 && NonNull(s) && HeapOrdered(s)
    ensures NonNull(RootReplacedByLast(s)) && OrderedExceptParent(RootReplacedByLast(s), 0)
  {
    HeapOrderedPrefix(s, |s| - 1);
    ReplaceRootKeepsOrder(s[..|s| - 1], s[|s| - 1]);
  }

  /** Moving the last record to the root keeps the slots non-null, drops exactly the old
      root, and on a heap leaves the order broken at most below the root. */
  lemma RootReplacedByLastFacts(s: seq<ReliefRequest?>)
    requires |s| > 0 && NonNull(s)
    ensures NonNull(RootReplacedByLast(s))
    ensures multiset(RootReplacedByLast(s)) == multiset(s) - multiset{s[0]}
    ensures |s| > 1 && HeapOrdered(s) ==> OrderedExceptParent(RootReplacedByLast(s), 0)
  {
    RootReplacedByLastCount(s);
    if |s| > 1 && HeapOrdered(s) {
      RootReplacedByLastOrder(s);
    }
  }

  /** What extraction promises about the records left behind: they are the old ones
      less the root, still without repetitions, and none outranks the root if the old
      slots were in heap order. */
  lemma ExtractedFacts(before: seq<ReliefRequest?>, after: seq<ReliefRequest?>)
    requires |before| > 0 && NonNull(before) && Distinct(before) && NonNull(after)
    requires multiset(after) == multiset(before) - multiset{before[0]}
    ensures before[0] in Members(before)
    ensures Distinct(after) && Members(after) == Members(before) - {before[0]}
    ensures HeapOrdered(before) ==> forall i :: 0 <= i < |after| ==> !Outranks(after[i], before[0])
  {
    var r := before[0];
    DistinctSubMultiset(before, after, r);
    ElementsAsSetRemove(before, after, r);
    if HeapOrdered(before) {
      forall j | 0 <= j < |before| ensures !Outranks(before[j], r) {
        RootMinimal(before, j);
      }
      StillMinimal(before, after, r);
    }
  }

  /** One step of sift-up: swapping an out-of-order slot with its parent moves the
      break in heap order one level up. */
  lemma SiftUpStep(s: seq<ReliefRequest?>, c: int)
    requires NonNull(s) && 0 < c < |s|
    requires OrderedExceptChild(s, c) && Outranks(s[c], s[Parent(c)])
    ensures NonNull(Swapped(s, c, Parent(c))) && OrderedExceptChild(Swapped(s, c, Parent(c)), Parent(c))
  {
    var p := Parent(c);
    var t := Swapped(s, c, p);
    forall i | 0 < i < |t| && i != p ensures OrderedAt(t, i) {
      if i == c {
      } else if Parent(i) == c {
      } else if Parent(i) == p {
        assert OrderedAt(s, i);
      } else {
        assert OrderedAt(s, i);
      }
    }
    if 0 < p {
      forall ch | 0 < ch < |t| && Parent(ch) == p ensures !Outranks(t[ch], t[Parent(p)]) {
        assert OrderedAt(s, p);
        if ch != c {
          assert OrderedAt(s, ch);
          NotOutrankedTransitive(s[ch], s[p], s[Parent(p)]);
        }
      }
    }
  }

  lemma SiftUpDone(s: seq<ReliefRequest?>, c: int)
    requires NonNull(s) && 0 <= c < |s| && OrderedExceptChild(s, c)
    requires c > 0 ==> !Outranks(s[c], s[Parent(c)])
    ensures HeapOrdered(s)
  {
  }

  /** One step of sift-down: swapping a slot with its most urgent child, when that
      child outranks it, moves the break in heap order one level down. */
  lemma SiftDownStep(s: seq<ReliefRequest?>, c: int, m: int)
    requires NonNull(s) && 0 <= c < m < |s| && Parent(m) == c
    requires OrderedExceptParent(s, c) && Outranks(s[m], s[c])
    requires forall ch :: 0 < ch < |s| && Parent(ch) == c ==> !Outranks(s[ch], s[m])
    ensures NonNull(Swapped(s, c, m)) && OrderedExceptParent(Swapped(s, c, m), m)
  {
    var t := Swapped(s, c, m);
    forall i | 0 < i < |t| && Parent(i) != m ensures OrderedAt(t, i) {
      if i == m {
      } else if Parent(i) == c {
      } else if i == c {
      } else {
        assert OrderedAt(s, i);
      }
    }
    forall ch | 0 < ch < |t| && Parent(ch) == m ensures !Outranks(t[ch], t[Parent(m)]) {
      assert OrderedAt(s, ch);
    }
  }

  /** The children of slot `c` are exactly slots 2c+1 and 2c+2. */
  lemma ChildOf(ch: int, c: int)
    requires 0 <= c
    ensures 0 < ch && Parent(ch) == c <==> ch == 2 * c + 1 || ch == 2 * c + 2
  {
  }

  lemma SiftDownDone(s: seq<ReliefRequest?>, c: int)
    requires NonNull(s) && 0 <= c < |s| && OrderedExceptParent(s, c)
    requires forall ch :: 0 < ch < |s| && Parent(ch) == c ==> !Outranks(s[ch], s[c])
    ensures HeapOrdered(s)
  {
  }

  class PriorityQ {
    const heap: array<ReliefRequest?>
    var size: int

    /** The structural invariant: the first `size` slots hold distinct records. It does not
        cover heap order, because aging changes priorities without restoring it. */
    ghost predicate Valid()
      reads this, heap
    {
      && 0 <= size <= heap.Length
      && NonNull(heap[..size])
      && Distinct(heap[..size])
    }

    /** The records held, in array order. */
    ghost function Elements(): seq<ReliefRequest?>
      reads this, heap
      requires Valid()
    {
      heap[..size]
    }

    /** The records held, as a set. */
    ghost function Items(): set<ReliefRequest>
      reads this, heap
      requires Valid()
    {
      Members(heap[..size])
    }

    /** The min-heap order on the held slots. */
    ghost predicate IsHeap()
      reads this, heap, heap[..]
    {
      0 <= size <= heap.Length && NonNull(heap[..size]) && HeapOrdered(heap[..size])
    }

    /** No held record is old enough (or far enough from priority 1) to be promoted. */
    ghost predicate NothingToPromote(maxWaitMillis: int, now: int)
      reads this, heap, heap[..]
      requires Valid()
    {
      forall i :: 0 <= i < size ==> Promoted(heap[i].priority, heap[i].timestamp, now, maxWaitMillis) == heap[i].priority
    }

    constructor (capacity: nat)
      ensures Valid() && IsHeap() && fresh(heap)
      ensures heap.Length == capacity && size == 0
    {
      heap := new ReliefRequest?[capacity];
      size := 0;
    }

    method Swap(i: int, j: int)
      requires 0 <= i < size <= heap.Length && 0 <= j < size && NonNull(heap[..size])
      modifies heap
      ensures heap[..size] == Swapped(old(heap[..size]), i, j) && NonNull(heap[..size])
    {
      var temp := heap[i];
      heap[i] := heap[j];
      heap[j] := temp;
    }

    /** The sift-up loop of `insert`. */
    method SiftUp(start: int)
      requires 0 <= start < size <= heap.Length && NonNull(heap[..size])
      modifies heap
      ensures NonNull(heap[..size]) && multiset(heap[..size]) == old(multiset(heap[..size]))
      ensures old(OrderedExceptChild(heap[..size], start)) ==> HeapOrdered(heap[..size])
    {
      ghost var ok := OrderedExceptChild(heap[..size], start);
      var current := start;
      while current > 0 && Outranks(heap[current], heap[Parent(current)])
        invariant 0 <= current < size
        invariant NonNull(heap[..size]) && forall i :: 0 <= i < size ==> heap[i] != null
        invariant multiset(heap[..size]) == old(multiset(heap[..size]))
        invariant ok ==> OrderedExceptChild(heap[..size], current)
        decreases current
      {
        assert heap[..size][current] == heap[current] && heap[..size][Parent(current)] == heap[Parent(current)];
        SwapUp(current, ok);
        current := Parent(current);
      }
      if ok {
        if current > 0 {
          assert heap[..size][current] == heap[current] && heap[..size][Parent(current)] == heap[Parent(current)];
        }
        SiftUpDone(heap[..size], current);
      }
    }

    /** One swap of the sift-up loop, with the step of the heap-order proof. */
    method SwapUp(c: int, ghost ok: bool)
      requires 0 < c < size <= heap.Length && NonNull(heap[..size])
      requires ok ==> OrderedExceptChild(heap[..size], c) && Outranks(heap[..size][c], heap[..size][Parent(c)])
      modifies heap
      ensures NonNull(heap[..size]) && multiset(heap[..size]) == old(multiset(heap[..size]))
      ensures ok ==> OrderedExceptChild(heap[..size], Parent(c))
    {
      if ok {
        SiftUpStep(heap[..size], c);
      }
      Swap(c, Parent(c));
    }

    /** One swap of the sift-down loop, with the step of the heap-order proof. */
    method SwapDown(c: int, m: int, ghost ok: bool)
      requires 0 <= c < m < size <= heap.Length && Parent(m) == c && NonNull(heap[..size])
      requires ok ==> OrderedExceptParent(heap[..size], c) && Outranks(heap[..size][m], heap[..size][c])
      requires ok ==> forall ch :: 0 < ch < size && Parent(ch) == c ==> !Outranks(heap[..size][ch], heap[..size][m])
      modifies heap
      ensures NonNull(heap[..size]) && multiset(heap[..size]) == old(multiset(heap[..size]))
      ensures ok ==> OrderedExceptParent(heap[..size], m)
    {
      if ok {
        SiftDownStep(heap[..size], c, m);
      }
      Swap(c, m);
    }

    /** The choice step of the sift-down loop: `c` itself, or the more urgent of its
        children when that child outranks it. */
    method SmallestOf(c: int) returns (smallest: int)
      requires 0 <= c < size <= heap.Length && NonNull(heap[..size])
      ensures smallest == c || (c < smallest < size && Parent(smallest) == c)
      ensures smallest != c ==> Outranks(heap[..size][smallest], heap[..size][c])
      ensures forall ch :: 0 < ch < size && Parent(ch) == c ==> !Outranks(heap[..size][ch], heap[..size][smallest])
    {
      ghost var s := heap[..size];
      var left, right := 2 * c + 1, 2 * c + 2;
      smallest := c;
      if left < size && Outranks(heap[left], heap[smallest]) {
        smallest := left;
      }
      if right < size && Outranks(heap[right], heap[smallest]) {
        smallest := right;
      }
      assert s[smallest] == heap[smallest] && s[c] == heap[c];
      forall ch | 0 < ch < size && Parent(ch) == c ensures !Outranks(s[ch], s[smallest]) {
        ChildOf(ch, c);
      }
      if smallest != c {
        ChildOf(smallest, c);
      }
    }

    /** The sift-down loop of `extractMin`. */
    method SiftDown()
      requires 0 < size <= heap.Length && NonNull(heap[..size])
      modifies heap
      ensures NonNull(heap[..size]) && multiset(heap[..size]) == old(multiset(heap[..size]))
      ensures old(OrderedExceptParent(heap[..size], 0)) ==> HeapOrdered(heap[..size])
    {
      ghost var ok := OrderedExceptParent(heap[..size], 0);
      var current := 0;
      while true
        invariant 0 <= current < size
        invariant NonNull(heap[..size])
        invariant multiset(heap[..size]) == old(multiset(heap[..size]))
        invariant ok ==> OrderedExceptParent(heap[..size], current)
        decreases size - current
      {
        var smallest := SmallestOf(current);
        if smallest != current {
          SwapDown(current, smallest, ok);
          current := smallest;
        } else {
          if ok {
            SiftDownDone(heap[..size], current);
          }
          break;
        }
      }
    }

    /** Places the record at the end and sifts it up (Java's `insert`). The source writes
        `heap[size]` unguarded, so the caller must leave room. */
    method Insert(request: ReliefRequest)
      requires Valid() && size < heap.Length && request !in Items()
      modifies this, heap
      ensures Valid() && size == old(size) + 1
      ensures multiset(Elements()) == old(multiset(Elements())) + multiset{request}
      ensures Items() == old(Items()) + {request}
      ensures old(IsHeap()) ==> IsHeap()
    {
      ghost var before := heap[..size];
      AddLeaf(request);
      InsertedFacts(before, heap[..size], request);
    }

    /** The heap work of `insert`: the record goes into the first free slot and sifts up. */
    method AddLeaf(request: ReliefRequest)
      requires 0 <= size < heap.Length && NonNull(heap[..size])
      modifies this, heap
      ensures size == old(size) + 1 && NonNull(heap[..size])
      ensures multiset(heap[..size]) == old(multiset(heap[..size])) + multiset{request}
      ensures old(HeapOrdered(heap[..size])) ==> HeapOrdered(heap[..size])
    {
      ghost var before := heap[..size];
      heap[size] := request;
      size := size + 1;
      assert heap[..size] == before + [request];
      if HeapOrdered(before) {
        AppendKeepsOrder(before, request);
      }
      SiftUp(size - 1);
    }

    /** Removes and returns the root, moving the last record to the root and sifting
        it down (Java's `extractMin`); `null` when empty. */
    method ExtractMin() returns (r: ReliefRequest?)
      requires Valid()
      modifies this, heap
      ensures Valid()
      ensures old(size) == 0 ==> r == null && size == 0 && heap[..] == old(heap[..])
      ensures old(size) > 0 ==> r != null && r == old(heap[0]) && size == old(size) - 1
      ensures old(size) > 0 ==> multiset(Elements()) + multiset{r} == old(multiset(Elements()))
      ensures old(size) > 0 ==> Items() == old(Items()) - {r} && r in old(Items())
      ensures old(size) > 0 && old(IsHeap()) ==> IsHeap() && forall i :: 0 <= i < size ==> !Outranks(Elements()[i], r)
    {
      if size == 0 {
        return null;
      }
      r := ExtractRoot();
    }

    /** The non-empty case of `extractMin`. */
    method ExtractRoot() returns (r: ReliefRequest)
      requires Valid() && size > 0
      modifies this, heap
      ensures Valid()
      ensures r == old(heap[0]) && size == old(size) - 1
      ensures multiset(Elements()) + multiset{r} == old(multiset(Elements()))
      ensures Items() == old(Items()) - {r} && r in old(Items())
      ensures old(IsHeap()) ==> IsHeap() && forall i :: 0 <= i < size ==> !Outranks(Elements()[i], r)
    {
      ghost var before := heap[..size];
      r := heap[0];
      RemoveRoot(IsHeap());
      ExtractedFacts(before, heap[..size]);
    }

    /** The heap work of `extractMin`: the last record replaces the root and sifts down. */
    method RemoveRoot(ghost ordered: bool)
      requires 0 < size <= heap.Length && NonNull(heap[..size])
      requires ordered ==> HeapOrdered(heap[..size])
      modifies this, heap
      ensures size == old(size) - 1 && NonNull(heap[..size])
      ensures multiset(heap[..size]) == old(multiset(heap[..size])) - multiset{old(heap[0])}
      ensures ordered ==> HeapOrdered(heap[..size])
    {
      ghost var before := heap[..size];
      MoveLastToRoot();
      RootReplacedByLastFacts(before);
      if size > 0 {
        SiftDown();
      } else {
        assert heap[..size] == [];
      }
    }

    /** `heap[0] = heap[--size]`: the last record takes the root's place. */
    method MoveLastToRoot()
      requires 0 < size <= heap.Length
      modifies this, heap
      ensures size == old(size) - 1 && heap[..size] == RootReplacedByLast(old(heap[..size]))
    {
      ghost var before := heap[..size];
      size := size - 1;
      ghost var rest := heap[..size];
      heap[0] := heap[size];
      if size > 0 {
        assert heap[..size] == rest[0 := before[size]];
        assert rest == before[..size];
      }
    }

    /** Linear scan by timestamp (Java's `getOldestPending`): the first record, by array
        position, whose timestamp is smallest; `null` when empty. */
    method GetOldestPending() returns (res: ReliefRequest?)
      requires Valid()
      ensures res == null <==> size == 0
      ensures res != null ==> exists i :: 0 <= i < size && heap[i] == res && IsOldestAt(i)
    {
      var oldest := LongMax;
      res := null;
      ghost var at := -1;
      for i := 0 to size
        invariant res == null <==> i == 0
        invariant res == null ==> oldest == LongMax
        invariant res != null ==> 0 <= at < i && heap[at] == res && oldest == res.timestamp
        invariant res != null ==> forall j :: 0 <= j < i ==> res.timestamp <= heap[j].timestamp
        invariant res != null ==> forall j :: 0 <= j < at ==> heap[j].timestamp > res.timestamp
      {
        if heap[i].timestamp < oldest {
          oldest := heap[i].timestamp;
          res := heap[i];
          at := i;
        }
      }
      if res != null {
        assert IsOldestAt(at);
      }
    }

    /** Slot `i` holds a record with the smallest timestamp, and no earlier slot does. */
    ghost predicate IsOldestAt(i: int)
      reads this, heap
      requires Valid() && 0 <= i < size
    {
      && (forall j :: 0 <= j < size ==> heap[i].timestamp <= heap[j].timestamp)
      && (forall j :: 0 <= j < i ==> heap[j].timestamp > heap[i].timestamp)
    }

    /** The aging pass (Java's `promoteOldRequests`): every held record that has waited at
        least `maxWaitMillis` by `now` and is not at priority 1 moves up one step, in place.
        Heap order is not restored. */
    method PromoteOldRequests(maxWaitMillis: int, now: Millis)
      requires Valid()
      modifies Items()
      ensures Valid()
      ensures forall i :: 0 <= i < size ==>
        heap[i].priority == Promoted(old(heap[i].priority), heap[i].timestamp, now, maxWaitMillis)
      ensures old(IsHeap()) && old(NothingToPromote(maxWaitMillis, now)) ==> IsHeap()
    {
      for i := 0 to size
        invariant forall j :: 0 <= j < i ==>
          heap[j].priority == Promoted(old(heap[j].priority), heap[j].timestamp, now, maxWaitMillis)
        invariant forall j :: i <= j < size ==> heap[j].priority == old(heap[j].priority)
      {
        assert heap[..size][i] == heap[i];
        forall j | 0 <= j < size && j != i ensures heap[j] != heap[i] {
          assert heap[..size][j] == heap[j];
          if j < i {
            assert heap[..size][j] != heap[..size][i];
          } else {
            assert heap[..size][i] != heap[..size][j];
          }
        }
        if now - heap[i].timestamp >= maxWaitMillis && heap[i].priority > 1 {
          heap[i].priority := heap[i].priority - 1;
        }
      }
      if old(IsHeap()) && old(NothingToPromote(maxWaitMillis, now)) {
        forall i | 0 < i < size ensures OrderedAt(heap[..size], i) {
          assert old(OrderedAt(heap[..size], i));
          assert heap[..size][i] == heap[i] && heap[..size][Parent(i)] == heap[Parent(i)];
        }
      }
    }

    method IsEmpty() returns (b: bool)
      requires Valid()
      ensures b <==> Elements() == []
    {
      b := size == 0;
    }

    /** The `k` most urgent records in urgency order (Java's `getTopK`), computed by
        inserting every held record into a scratch queue and draining it. This queue is
        not changed (it has no `modifies` clause), and the answer does not depend on
        whether its own heap order is intact. */
    method GetTopK(k: int) returns (top: seq<ReliefRequest>)
      requires Valid()
      ensures |top| == if k <= 0 then 0 else if k < size then k else size
      ensures multiset(top) <= multiset(Elements())
      ensures forall i, j :: 0 <= i < j < |top| ==> !Outranks(top[j], top[i])
      ensures forall x, i :: x in multiset(Elements()) - multiset(top) && 0 <= i < |top| ==> !Outranks(x, top[i])
    {
      var temp := Copy();
      top := temp.Drain(k);
      assert |multiset(top)| + temp.size == |multiset(Elements())|;
      forall x, i | x in multiset(Elements()) - multiset(top) && 0 <= i < |top| ensures !Outranks(x, top[i]) {
        assert x in multiset(temp.Elements());
      }
    }

    /** The scratch queue of `getTopK`: a fresh heap holding the same records. */
    method Copy() returns (temp: PriorityQ)
      requires Valid()
      ensures fresh(temp) && fresh(temp.heap)
      ensures temp.Valid() && temp.IsHeap() && temp.heap.Length == size
      ensures multiset(temp.Elements()) == multiset(Elements())
    {
      temp := new PriorityQ(size);
      for i := 0 to size
        invariant temp.Valid() && temp.IsHeap() && fresh(temp) && fresh(temp.heap)
        invariant temp.heap.Length == size && temp.size == i
        invariant multiset(temp.Elements()) == multiset(heap[..i])
      {
        assert heap[..i + 1] == heap[..i] + [heap[i]];
        assert heap[i] !in temp.Items() by {
          forall j | 0 <= j < i ensures heap[..i][j] != heap[i] {
            assert heap[..size][j] != heap[..size][i];
          }
          assert heap[i] !in multiset(heap[..i]);
        }
        temp.Insert(heap[i]);
      }
      assert heap[..size] == Elements();
    }

    /** The draining loop of `getTopK`: extracts up to `k` records in heap order. */
    method Drain(k: int) returns (top: seq<ReliefRequest>)
      requires Valid() && IsHeap()
      modifies this, heap
      ensures Valid() && IsHeap()
      ensures |top| == (if k <= 0 then 0 else if k < old(size) then k else old(size))
      ensures multiset(top) + multiset(Elements()) == old(multiset(Elements()))
      ensures DrainedInOrder(top, Elements())
    {
      top := [];
      var n := 0;
      while n < k && size != 0
        invariant Valid() && IsHeap()
        invariant |top| == n && (k <= 0 ==> n == 0) && (k > 0 ==> n <= k)
        invariant multiset(top) + multiset(Elements()) == old(multiset(Elements()))
        invariant DrainedInOrder(top, Elements())
        decreases size
      {
        top := DrainOne(top);
        n := n + 1;
      }
      assert |multiset(top)| + |multiset(Elements())| == old(size);
    }

    /** One round of the draining loop. */
    method DrainOne(top: seq<ReliefRequest>) returns (top': seq<ReliefRequest>)
      requires Valid() && IsHeap() && size > 0 && DrainedInOrder(top, Elements())
      modifies this, heap
      ensures Valid() && IsHeap() && size == old(size) - 1
      ensures |top'| == |top| + 1 && top'[..|top|] == top
      ensures multiset(top') + multiset(Elements()) == multiset(top) + old(multiset(Elements()))
      ensures DrainedInOrder(top', Elements())
    {
      ghost var held := Elements();
      var r := ExtractMin();
      assert r in multiset(held);
      top' := top + [r];
      forall x, i | x in multiset(Elements()) && 0 <= i < |top'| ensures !Outranks(x, top'[i]) {
        var j :| 0 <= j < size && heap[..size][j] == x;
        assert x in multiset(held);
      }
      forall i, j | 0 <= i < j < |top'| ensures !Outranks(top'[j], top'[i]) {
        if j == |top| {
          assert top'[j] == r;
        }
      }
    }
  }

  /** `top` is in urgency order and nothing in `rest` outranks anything in `top`. */
  ghost predicate DrainedInOrder(top: seq<ReliefRequest>, rest: seq<ReliefRequest?>)
    reads top, rest
  {
    && (forall i, j :: 0 <= i < j < |top| ==> !Outranks(top[j], top[i]))
    && (forall x, i :: x in multiset(rest) && 0 <= i < |top| ==> !Outranks(x, top[i]))
  }

  /** Adding a record not yet held keeps the held records distinct and adds exactly it
      to the held set. */
  lemma InsertedFacts(before: seq<ReliefRequest?>, after: seq<ReliefRequest?>, x: ReliefRequest)
    requires Distinct(before) && x !in Members(before)
    requires multiset(after) == multiset(before) + multiset{x}
    ensures Distinct(after) && Members(after) == Members(before) + {x}
  {
    assert x !in before;
    DistinctAppend(before, x);
    assert multiset(before + [x]) == multiset(after);
    DistinctPermutation(before + [x], after);
    ElementsAsSet(before, after, x);
  }

  /** Appending a fresh record to the held sequence adds exactly it to the held set. */
  lemma ElementsAsSet(before: seq<ReliefRequest?>, after: seq<ReliefRequest?>, x: ReliefRequest)
    requires multiset(after) == multiset(before) + multiset{x}
    ensures Members(after) == Members(before) + {x}
  {
    forall r: ReliefRequest ensures r in after <==> r in before || r == x {
      assert r in after <==> r in multiset(after);
      assert r in before <==> r in multiset(before);
    }
  }

  /** Removing one occurrence of a record from a sequence without repetitions removes it from the held set. */
  lemma ElementsAsSetRemove(before: seq<ReliefRequest?>, after: seq<ReliefRequest?>, x: ReliefRequest)
    requires Distinct(before) && x in before
    requires multiset(after) == multiset(before) - multiset{x}
    ensures Members(after) == Members(before) - {x}
  {
    DistinctCount(before, x);
    forall r: ReliefRequest ensures r in after <==> r in before && r != x {
      assert r in after <==> r in multiset(after);
      assert r in before <==> r in multiset(before);
    }
  }

  /** A record that nothing in `before` outranks is outranked by nothing in a part of it. */
  lemma StillMinimal(before: seq<ReliefRequest?>, after: seq<ReliefRequest?>, r: ReliefRequest)
    requires NonNull(before) && NonNull(after) && multiset(after) <= multiset(before)
    requires forall j :: 0 <= j < |before| ==> !Outranks(before[j], r)
    ensures forall i :: 0 <= i < |after| ==> !Outranks(after[i], r)
  {
    forall i | 0 <= i < |after| ensures !Outranks(after[i], r) {
      assert after[i] in multiset(after);
      assert after[i] in before;
    }
  }

  /** Dropping one occurrence keeps a sequence without repetitions. */
  lemma DistinctSubMultiset(before: seq<ReliefRequest?>, after: seq<ReliefRequest?>, x: ReliefRequest)
    requires Distinct(before) && multiset(after) == multiset(before) - multiset{x}
    ensures Distinct(after)
  {
    forall i, j | 0 <= i < j < |after| ensures after[i] != after[j] {
      if after[i] == after[j] {
        RepeatCount(after, i, j);
        DistinctCount(before, after[i]);
      }
    }
  }
}

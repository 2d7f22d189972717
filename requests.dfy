/** Relief requests, the urgency order the priority queue uses, the aging rule,
    and the ASCII case folding used when counting requests by resource type. */
module Requests {

  /** Java's Long.MAX_VALUE: the start value of the oldest-timestamp scan. */
  const LongMax: int := 0x7FFF_FFFF_FFFF_FFFF

  /** A wall-clock reading in milliseconds. Clock readings are never Long.MAX_VALUE. */
  type Millis = t: int | 0 <= t < LongMax

  /** One relief request. Only `priority` ever changes after construction (by aging);
      everything else is fixed. The same object is shared by the queue, the index
      and the undo history. */
  class ReliefRequest {
    const id: string        // the location identifier, key of the index
    const name: string      // the location name
    const resType: string   // "Food", "Water", "Medical", or any other text
    var priority: int       // lower is more urgent
    const quantity: int
    const timestamp: Millis // creation time

    constructor (id: string, name: string, resType: string, priority: int, quantity: int, timestamp: Millis)
      ensures this.id == id && this.name == name && this.resType == resType
      ensures this.priority == priority && this.quantity == quantity && this.timestamp == timestamp
    {
      this.id := id;
      this.name := name;
      this.resType := resType;
      this.priority := priority;
      this.quantity := quantity;
      this.timestamp := timestamp;
    }
  }

  /** Urgency order on (priority, timestamp) pairs: lower priority first, earlier timestamp breaks ties. */
  predicate KeyOutranks(p1: int, t1: int, p2: int, t2: int) {
    p1 < p2 || (p1 == p2 && t1 < t2)
  }

  /** `a` is strictly more urgent than `b` (isHigherPriority). */
  predicate Outranks(a: ReliefRequest, b: ReliefRequest)
    reads a, b
  {
    KeyOutranks(a.priority, a.timestamp, b.priority, b.timestamp)
  }

  lemma KeyOutranksIrreflexive(p: int, t: int)
    ensures !KeyOutranks(p, t, p, t)
  {
  }

  lemma KeyOutranksTransitive(p1: int, t1: int, p2: int, t2: int, p3: int, t3: int)
    requires KeyOutranks(p1, t1, p2, t2) && KeyOutranks(p2, t2, p3, t3)
    ensures KeyOutranks(p1, t1, p3, t3)
  {
  }

  /** Two distinct keys are always comparable, so the order is total on keys. */
  lemma KeyOutranksTotal(p1: int, t1: int, p2: int, t2: int)
    requires (p1, t1) != (p2, t2)
    ensures KeyOutranks(p1, t1, p2, t2) != KeyOutranks(p2, t2, p1, t1)
  {
  }

  /** Not being outranked is transitive: this is what makes the heap root the minimum. */
  lemma NotOutrankedTransitive(a: ReliefRequest, b: ReliefRequest, c: ReliefRequest)
    requires !Outranks(a, b) && !Outranks(b, c)
    ensures !Outranks(a, c)
  {
  }

  /** The aging rule: a request that has waited at least `maxWait` and is not yet at
      priority 1 moves up one priority step. */
  function Promoted(priority: int, timestamp: int, now: int, maxWait: int): int {
    if now - timestamp >= maxWait && priority > 1 then priority - 1 else priority
  }

  /** Aging moves a priority by at most one step, only towards more urgent, never below 1
      (when it started at 1 or above), and never touches a request younger than the threshold. */
  lemma PromotedBounds(priority: int, timestamp: int, now: int, maxWait: int)
    ensures var q := Promoted(priority, timestamp, now, maxWait);
      && (q == priority || q == priority - 1)
      && (priority >= 1 ==> q >= 1)
      && (now - timestamp < maxWait ==> q == priority)
      && (q != priority <==> now - timestamp >= maxWait && priority > 1)
  {
  }

  /** Aging does not respect the heap order: a parent that is not old enough keeps its
      priority while an older child catches up and then outranks it. */
  lemma PromotionCanInvertOrder()
    ensures var threshold, now := 60000, 60050;
      && !KeyOutranks(3, 0, 2, 100)
      && KeyOutranks(Promoted(3, 0, now, threshold), 0, Promoted(2, 100, now, threshold), 100)
  {
  }

  /** ASCII case folding (Java's equalsIgnoreCase restricted to ASCII letters). */
  function ToLowerAscii(c: char): char {
    if 'A' <= c <= 'Z' then (c as int + 32) as char else c
  }

  predicate EqualsIgnoreCase(a: string, b: string) {
    |a| == |b| && forall i :: 0 <= i < |a| ==> ToLowerAscii(a[i]) == ToLowerAscii(b[i])
  }

  lemma EqualsIgnoreCaseIsEquivalence(a: string, b: string, c: string)
    ensures EqualsIgnoreCase(a, a)
    ensures EqualsIgnoreCase(a, b) ==> EqualsIgnoreCase(b, a)
    ensures EqualsIgnoreCase(a, b) && EqualsIgnoreCase(b, c) ==> EqualsIgnoreCase(a, c)
  {
  }

  lemma EqualsIgnoreCaseExample()
    ensures EqualsIgnoreCase("food", "Food") && EqualsIgnoreCase("WATER", "Water")
    ensures !EqualsIgnoreCase("Food", "Water")
  {
    assert "Food"[0] == 'F';
  }
}

/** The location index: a separately chained hash table from location identifier
    to request. Chains are modelled as sequences, head first. */
module HashIndex {
  import opened Requests
  import opened Sequences

  datatype Option<T> = None | Some(value: T)

  /** One chain node: a key and the request stored under it. */
  datatype Entry = Entry(key: string, value: ReliefRequest)

  /** Largest table size for which the Java fold `hash * 31 + ch` stays inside a
      32-bit int: (2^26 - 1) * 31 + 0x10FFFF < 2^31. */
  const MaxTableSize: int := 0x400_0000

  /** The bucket of `key`: the left fold `h := (h * 31 + ch) % size` over its characters. */
  function HashOf(key: string, size: int): (h: int)
    requires 0 < size
    ensures 0 <= h < size
  {
    if key == [] then 0 else (HashOf(key[..|key| - 1], size) * 31 + key[|key| - 1] as int) % size
  }

  /** The value of the first node of `chain` whose key is `k` (how get walks a chain). */
  function Find(chain: seq<Entry>, k: string): (r: Option<ReliefRequest>)
    ensures r.Some? <==> exists j :: 0 <= j < |chain| && chain[j].key == k
  {
    if chain == [] then None
    else if chain[0].key == k then Some(chain[0].value)
    else Find(chain[1..], k)
  }

  function Lookup(c: map<string, ReliefRequest>, k: string): Option<ReliefRequest> {
    if k in c then Some(c[k]) else None
  }

  ghost predicate DistinctKeys(chain: seq<Entry>) {
    forall m, n :: 0 <= m < n < |chain| ==> chain[m].key != chain[n].key
  }

  /** A table `bs` of `size` chains represents the map `c`: each node sits in the chain
      its key hashes to, no chain repeats a key, and looking a key up in its chain gives
      exactly what `c` gives. */
  ghost predicate TableOk(bs: seq<seq<Entry>>, size: int, c: map<string, ReliefRequest>) {
    && 0 < size <= MaxTableSize && |bs| == size
    && (forall i, j :: 0 <= i < |bs| && 0 <= j < |bs[i]| ==> HashOf(bs[i][j].key, size) == i)
    && (forall i :: 0 <= i < |bs| ==> DistinctKeys(bs[i]))
    && (forall k :: Find(bs[HashOf(k, size)], k) == Lookup(c, k))
  }

  /** All nodes, bucket by bucket, each chain head first (the order getAll walks them). */
  function Flatten(bs: seq<seq<Entry>>): seq<Entry> {
    if bs == [] then [] else Flatten(bs[..|bs| - 1]) + bs[|bs| - 1]
  }

  function KeysOf(es: seq<Entry>): seq<string> {
    seq(|es|, n requires 0 <= n < |es| => es[n].key)
  }

  function ValuesOf(es: seq<Entry>): seq<ReliefRequest> {
    seq(|es|, n requires 0 <= n < |es| => es[n].value)
  }

  /** Number of requests in `rs` whose resource type equals `t` ignoring case. */
  function CountType(rs: seq<ReliefRequest>, t: string): nat {
    if rs == [] then 0
    else CountType(rs[..|rs| - 1], t) + (if EqualsIgnoreCase(rs[|rs| - 1].resType, t) then 1 else 0)
  }

  // ---- chain lemmas ----

  /** A chain walk stops at the first matching node. */
  lemma {:induction false} FindFirst(chain: seq<Entry>, k: string, j: int)
    requires 0 <= j < |chain| && chain[j].key == k
    requires forall m :: 0 <= m < j ==> chain[m].key != k
    ensures Find(chain, k) == Some(chain[j].value)
  {
    if j > 0 {
      FindFirst(chain[1..], k, j - 1);
    }
  }

  /** In a chain without repeated keys, every node is the one found for its key. */
  lemma FindDistinct(chain: seq<Entry>, j: int)
    requires DistinctKeys(chain) && 0 <= j < |chain|
    ensures Find(chain, chain[j].key) == Some(chain[j].value)
  {
    FindFirst(chain, chain[j].key, j);
  }

  /** Overwriting the value of the first node for `key` changes the lookup of `key`
      alone. */
  lemma {:induction false} FindUpdate(chain: seq<Entry>, j: int, v: ReliefRequest, k: string)
    requires 0 <= j < |chain|
    requires forall m :: 0 <= m < j ==> chain[m].key != chain[j].key
    ensures Find(chain[j := Entry(chain[j].key, v)], k) ==
      if k == chain[j].key then Some(v) else Find(chain, k)
  {
    if j == 0 {
      assert chain[j := Entry(chain[j].key, v)][1..] == chain[1..];
    } else {
      assert chain[j := Entry(chain[j].key, v)][1..] == chain[1..][j - 1 := Entry(chain[j].key, v)];
      FindUpdate(chain[1..], j - 1, v, k);
    }
  }

  /** Unlinking the node for `key` from a chain without repeated keys makes `key`
      absent and leaves every other lookup alone. */
  lemma {:induction false} FindUnlink(chain: seq<Entry>, j: int, k: string)
    requires DistinctKeys(chain) && 0 <= j < |chain|
    ensures Find(chain[..j] + chain[j + 1..], k) ==
      if k == chain[j].key then None else Find(chain, k)
  {
    if j == 0 {
      assert chain[..j] + chain[j + 1..] == chain[1..];
      if k == chain[0].key {
        assert forall m :: 0 <= m < |chain[1..]| ==> chain[1..][m] == chain[m + 1];
      }
    } else {
      assert (chain[..j] + chain[j + 1..])[1..] == chain[1..][..j - 1] + chain[1..][j..];
      assert DistinctKeys(chain[1..]) by {
        assert forall m :: 0 <= m < |chain[1..]| ==> chain[1..][m] == chain[m + 1];
      }
      FindUnlink(chain[1..], j - 1, k);
    }
  }

  /** Replacing one chain by another that agrees with it on every key except `key`
      turns a table for `c` into a table for `c` with `key` updated as `v` says. */
  lemma TableReplaceChain(bs: seq<seq<Entry>>, size: int, c: map<string, ReliefRequest>,
                          key: string, nb: seq<Entry>, v: Option<ReliefRequest>)
    requires TableOk(bs, size, c)
    requires forall j :: 0 <= j < |nb| ==> HashOf(nb[j].key, size) == HashOf(key, size)
    requires DistinctKeys(nb)
    requires forall k :: Find(nb, k) == if k == key then v else Find(bs[HashOf(key, size)], k)
    ensures TableOk(bs[HashOf(key, size) := nb], size, if v.Some? then c[key := v.value] else c - {key})
  {
    var i := HashOf(key, size);
    var bs': seq<seq<Entry>> := bs[i := nb];
    var c' := if v.Some? then c[key := v.value] else c - {key};
    forall m, j | 0 <= m < |bs'| && 0 <= j < |bs'[m]|
      ensures HashOf(bs'[m][j].key, size) == m
    {
      if m != i {
        assert bs'[m] == bs[m];
      }
    }
    forall m | 0 <= m < |bs'|
      ensures DistinctKeys(bs'[m])
    {
      if m != i {
        assert bs'[m] == bs[m];
      }
    }
    forall k
      ensures Find(bs'[HashOf(k, size)], k) == Lookup(c', k)
    {
      if HashOf(k, size) == i {
        assert Find(nb, k) == if k == key then v else Lookup(c, k);
      } else {
        assert k != key;
      }
    }
  }

  /** Unlinking node `j` keeps a chain's nodes in bucket `i` and its keys distinct, and
      changes only the lookup of the unlinked key. */
  lemma UnlinkChain(b: seq<Entry>, j: int, size: int, i: int)
    requires 0 < size && DistinctKeys(b) && 0 <= j < |b|
    requires forall m :: 0 <= m < |b| ==> HashOf(b[m].key, size) == i
    ensures var nb := b[..j] + b[j + 1..];
      && (forall m :: 0 <= m < |nb| ==> HashOf(nb[m].key, size) == i)
      && DistinctKeys(nb)
      && (forall k :: Find(nb, k) == if k == b[j].key then None else Find(b, k))
  {
    var nb := b[..j] + b[j + 1..];
    assert forall m :: 0 <= m < |nb| ==> nb[m] == b[if m < j then m else m + 1];
    forall k ensures Find(nb, k) == if k == b[j].key then None else Find(b, k) {
      FindUnlink(b, j, k);
    }
  }

  /** Unlinking the node for `key` at position `j` of its chain gives a table for the
      map without `key`. */
  lemma UnlinkKeepsTable(bs: seq<seq<Entry>>, size: int, c: map<string, ReliefRequest>, key: string, j: int)
    requires TableOk(bs, size, c)
    requires 0 <= j < |bs[HashOf(key, size)]| && bs[HashOf(key, size)][j].key == key
    ensures var b := bs[HashOf(key, size)];
      TableOk(bs[HashOf(key, size) := b[..j] + b[j + 1..]], size, c - {key})
  {
    var i := HashOf(key, size);
    var b := bs[i];
    UnlinkChain(b, j, size, i);
    TableReplaceChain(bs, size, c, key, b[..j] + b[j + 1..], None);
  }

  /** Overwriting the value of the node for `key` at position `j` of its chain gives a
      table for the map with `key` updated. */
  lemma OverwriteKeepsTable(bs: seq<seq<Entry>>, size: int, c: map<string, ReliefRequest>, key: string, j: int, v: ReliefRequest)
    requires TableOk(bs, size, c)
    requires 0 <= j < |bs[HashOf(key, size)]| && bs[HashOf(key, size)][j].key == key
    requires forall m :: 0 <= m < j ==> bs[HashOf(key, size)][m].key != key
    ensures var b := bs[HashOf(key, size)];
      TableOk(bs[HashOf(key, size) := b[j := Entry(key, v)]], size, c[key := v])
  {
    var b := bs[HashOf(key, size)];
    var nb := b[j := Entry(key, v)];
    forall k ensures Find(nb, k) == if k == key then Some(v) else Find(b, k) {
      FindUpdate(b, j, v, k);
    }
    TableReplaceChain(bs, size, c, key, nb, Some(v));
  }

  /** Linking a node for a key its chain does not hold at the head of the chain gives a
      table for the map with the key added. */
  lemma PrependKeepsTable(bs: seq<seq<Entry>>, size: int, c: map<string, ReliefRequest>, key: string, v: ReliefRequest)
    requires TableOk(bs, size, c)
    requires forall m :: 0 <= m < |bs[HashOf(key, size)]| ==> bs[HashOf(key, size)][m].key != key
    ensures TableOk(bs[HashOf(key, size) := [Entry(key, v)] + bs[HashOf(key, size)]], size, c[key := v])
  {
    var b := bs[HashOf(key, size)];
    var nb := [Entry(key, v)] + b;
    assert forall k :: Find(nb, k) == if k == key then Some(v) else Find(b, k);
    TableReplaceChain(bs, size, c, key, nb, Some(v));
  }

  lemma KeyListed(es: seq<Entry>, m: int)
    requires 0 <= m < |es|
    ensures es[m].key in KeysOf(es)
  {
    assert KeysOf(es)[m] == es[m].key;
  }

  /** What a prefix of the flattened table holds: nodes of the first `n` buckets, each
      with the value `c` gives, no key twice, and every key of `c` that hashes below `n`. */
  ghost predicate PrefixOk(f: seq<Entry>, size: int, c: map<string, ReliefRequest>, n: int)
    requires 0 < size
  {
    && (forall m :: 0 <= m < |f| ==> HashOf(f[m].key, size) < n)
    && (forall m :: 0 <= m < |f| ==> Lookup(c, f[m].key) == Some(f[m].value))
    && DistinctKeys(f)
    && (forall k :: k in c && HashOf(k, size) < n ==> k in KeysOf(f))
  }

  lemma {:induction false} FlattenPrefix(bs: seq<seq<Entry>>, size: int, c: map<string, ReliefRequest>, n: int)
    requires TableOk(bs, size, c) && 0 <= n <= |bs|
    ensures PrefixOk(Flatten(bs[..n]), size, c, n)
  {
    if n > 0 {
      FlattenPrefix(bs, size, c, n - 1);
      assert bs[..n][..n - 1] == bs[..n - 1];
      assert Flatten(bs[..n]) == Flatten(bs[..n - 1]) + bs[n - 1];
      PrefixStepEntries(bs, size, c, n, Flatten(bs[..n - 1]));
      forall k | k in c && HashOf(k, size) == n - 1 ensures Find(bs[n - 1], k).Some? {
        assert Find(bs[HashOf(k, size)], k) == Lookup(c, k);
      }
      PrefixStepKeys(bs[n - 1], size, c, n, Flatten(bs[..n - 1]));
    }
  }

  /** Appending bucket `n - 1` to a good prefix keeps every node correct and keys distinct. */
  lemma PrefixStepEntries(bs: seq<seq<Entry>>, size: int, c: map<string, ReliefRequest>, n: int, p: seq<Entry>)
    requires TableOk(bs, size, c) && 0 < n <= |bs| && PrefixOk(p, size, c, n - 1)
    ensures var f := p + bs[n - 1];
      && (forall m :: 0 <= m < |f| ==> HashOf(f[m].key, size) < n)
      && (forall m :: 0 <= m < |f| ==> Lookup(c, f[m].key) == Some(f[m].value))
      && DistinctKeys(f)
  {
    var b := bs[n - 1];
    var f := p + b;
    forall m | 0 <= m < |f|
      ensures HashOf(f[m].key, size) < n && Lookup(c, f[m].key) == Some(f[m].value)
    {
      if m >= |p| {
        FindDistinct(b, m - |p|);
      }
    }
  }

  /** Appending bucket `n - 1` to a good prefix lists every key of `c` that hashes below `n`. */
  lemma PrefixStepKeys(b: seq<Entry>, size: int, c: map<string, ReliefRequest>, n: int, p: seq<Entry>)
    requires 0 < size && PrefixOk(p, size, c, n - 1)
    requires forall k :: k in c && HashOf(k, size) == n - 1 ==> Find(b, k).Some?
    ensures forall k :: k in c && HashOf(k, size) < n ==> k in KeysOf(p + b)
  {
    var f := p + b;
    forall k | k in c && HashOf(k, size) < n
      ensures k in KeysOf(f)
    {
      if HashOf(k, size) == n - 1 {
        assert Find(b, k).Some?;
        var j :| 0 <= j < |b| && b[j].key == k;
        KeyListed(f, |p| + j);
      } else {
        var m :| 0 <= m < |p| && KeysOf(p)[m] == k;
        KeyListed(f, m);
      }
    }
  }

  /** The whole flattened table lists every key of `c` exactly once, with its value. */
  lemma FlattenListsContents(bs: seq<seq<Entry>>, size: int, c: map<string, ReliefRequest>)
    requires TableOk(bs, size, c)
    ensures var f := Flatten(bs);
      && DistinctKeys(f)
      && (forall k :: k in c <==> k in KeysOf(f))
      && (forall m :: 0 <= m < |f| ==> f[m].key in c && c[f[m].key] == f[m].value)
  {
    FlattenPrefix(bs, size, c, |bs|);
    assert bs[..|bs|] == bs;
    var f := Flatten(bs);
    forall k | k in KeysOf(f) ensures k in c {
      var m :| 0 <= m < |f| && KeysOf(f)[m] == k;
      assert Lookup(c, f[m].key).Some?;
    }
    forall m | 0 <= m < |f| ensures f[m].key in c && c[f[m].key] == f[m].value {
      assert Lookup(c, f[m].key) == Some(f[m].value);
    }
  }

  lemma ChainStart(prefix: seq<Entry>, b: seq<Entry>)
    ensures prefix + b[..0] == prefix
  {
  }

  lemma ChainStep(prefix: seq<Entry>, b: seq<Entry>, j: int)
    requires 0 <= j < |b|
    ensures prefix + b[..j + 1] == (prefix + b[..j]) + [b[j]]
  {
  }

  lemma FlattenStep(bs: seq<seq<Entry>>, i: int)
    requires 0 <= i < |bs|
    ensures Flatten(bs[..i + 1]) == Flatten(bs[..i]) + bs[i][..|bs[i]|]
  {
    assert bs[..i + 1][..i] == bs[..i];
    assert bs[i][..|bs[i]|] == bs[i];
  }

  lemma CountTypeSnoc(es: seq<Entry>, e: Entry, t: string)
    ensures CountType(ValuesOf(es + [e]), t) ==
      CountType(ValuesOf(es), t) + (if EqualsIgnoreCase(e.value.resType, t) then 1 else 0)
  {
    assert ValuesOf(es + [e])[..|es|] == ValuesOf(es);
  }

  /** Counting by type is insensitive to the case of the type asked for. */
  lemma {:induction false} CountTypeIgnoresCase(rs: seq<ReliefRequest>, t1: string, t2: string)
    requires EqualsIgnoreCase(t1, t2)
    ensures CountType(rs, t1) == CountType(rs, t2)
  {
    if rs != [] {
      CountTypeIgnoresCase(rs[..|rs| - 1], t1, t2);
      var x := rs[|rs| - 1].resType;
      EqualsIgnoreCaseIsEquivalence(x, t1, t2);
      EqualsIgnoreCaseIsEquivalence(x, t2, t1);
      EqualsIgnoreCaseIsEquivalence(t1, t2, x);
    }
  }

  /** The count is at most the number of requests, and counts every request whose
      type matches exactly. */
  lemma {:induction false} CountTypeBounds(rs: seq<ReliefRequest>, t: string)
    ensures CountType(rs, t) <= |rs|
    ensures (forall n :: 0 <= n < |rs| ==> rs[n].resType == t) ==> CountType(rs, t) == |rs|
    ensures (forall n :: 0 <= n < |rs| ==> !EqualsIgnoreCase(rs[n].resType, t)) ==> CountType(rs, t) == 0
  {
    if rs != [] {
      CountTypeBounds(rs[..|rs| - 1], t);
      EqualsIgnoreCaseIsEquivalence(t, t, t);
    }
  }

  /** Keys of the nodes of `es` whose request type equals `t` ignoring case. */
  ghost function MatchingKeys(es: seq<Entry>, t: string): set<string> {
    set m | 0 <= m < |es| && EqualsIgnoreCase(es[m].value.resType, t) :: es[m].key
  }

  /** The keys of `c` whose request type equals `t` ignoring case. */
  ghost function KeysOfType(c: map<string, ReliefRequest>, t: string): set<string> {
    set k | k in c && EqualsIgnoreCase(c[k].resType, t)
  }

  /** Appending a node adds its key to the matching keys exactly when its type matches. */
  lemma MatchingKeysSnoc(p: seq<Entry>, e: Entry, t: string)
    ensures MatchingKeys(p + [e], t) ==
      MatchingKeys(p, t) + (if EqualsIgnoreCase(e.value.resType, t) then {e.key} else {})
  {
    var es := p + [e];
    assert forall m :: 0 <= m < |p| ==> es[m] == p[m];
    assert es[|p|] == e;
  }

  /** Over nodes with distinct keys, the count by type is the number of matching keys. */
  lemma {:induction false} CountTypeMatchingKeys(es: seq<Entry>, t: string)
    requires DistinctKeys(es)
    ensures CountType(ValuesOf(es), t) == |MatchingKeys(es, t)|
  {
    if es != [] {
      var p := es[..|es| - 1];
      var e := es[|es| - 1];
      assert es == p + [e];
      assert DistinctKeys(p);
      CountTypeMatchingKeys(p, t);
      CountTypeSnoc(p, e, t);
      MatchingKeysSnoc(p, e, t);
      assert e.key !in MatchingKeys(p, t);
    }
  }

  /** Counting by type over a table walks every stored request once: the count is the
      number of keys whose request type matches. */
  lemma CountTypeOfTable(bs: seq<seq<Entry>>, size: int, c: map<string, ReliefRequest>, t: string)
    requires TableOk(bs, size, c)
    ensures CountType(ValuesOf(Flatten(bs)), t) == |KeysOfType(c, t)|
  {
    var f := Flatten(bs);
    FlattenListsContents(bs, size, c);
    CountTypeMatchingKeys(f, t);
    forall k ensures k in MatchingKeys(f, t) <==> k in KeysOfType(c, t) {
      if k in KeysOfType(c, t) {
        var m :| 0 <= m < |f| && KeysOf(f)[m] == k;
      }
    }
    assert MatchingKeys(f, t) == KeysOfType(c, t);
  }

  class MyHashMap {
    const buckets: array<seq<Entry>>
    const size: int
    /** The map the table represents. */
    ghost var Contents: map<string, ReliefRequest>

    ghost predicate Valid()
      reads this, buckets
    {
      buckets.Length == size && TableOk(buckets[..], size, Contents)
    }

    /** The stored requests in the order getAll walks them. */
    ghost function Values(): seq<ReliefRequest>
      reads this, buckets
    {
      ValuesOf(Flatten(buckets[..]))
    }

    constructor (size: int)
      requires 0 < size <= MaxTableSize
      ensures Valid() && fresh(buckets) && this.size == size && Contents == map[]
    {
      this.size := size;
      buckets := new seq<Entry>[size](i => []);
      Contents := map[];
    }

    /** Java's getIndex. */
    method GetIndex(key: string) returns (index: int)
      requires 0 < size
      ensures index == HashOf(key, size) && 0 <= index < size
    {
      index := 0;
      for n := 0 to |key|
        invariant index == HashOf(key[..n], size)
      {
        assert key[..n + 1][..n] == key[..n];
        index := (index * 31 + key[n] as int) % size;
      }
      assert key[..|key|] == key;
    }

    /** Stores `value` under `key`, overwriting the node for `key` if there is one,
        otherwise linking a new node at the head of its chain. */
    method Put(key: string, value: ReliefRequest)
      requires Valid()
      modifies this, buckets
      ensures Valid() && Contents == old(Contents)[key := value]
    {
      var i := GetIndex(key);
      var b := buckets[i];
      ghost var bs := buckets[..];
      var j := 0;
      while j < |b|
        invariant 0 <= j <= |b|
        invariant forall m :: 0 <= m < j ==> b[m].key != key
      {
        if b[j].key == key {
          OverwriteKeepsTable(bs, size, Contents, key, j, value);
          buckets[i] := b[j := Entry(key, value)];
          Contents := Contents[key := value];
          return;
        }
        j := j + 1;
      }
      PrependKeepsTable(bs, size, Contents, key, value);
      buckets[i] := [Entry(key, value)] + b;
      Contents := Contents[key := value];
    }

    /** The request stored under `key`, or `null`. */
    method Get(key: string) returns (r: ReliefRequest?)
      requires Valid()
      ensures r == if key in Contents then Contents[key] else null
    {
      var i := GetIndex(key);
      var b := buckets[i];
      assert Find(b, key) == Lookup(Contents, key);
      var j := 0;
      while j < |b|
        invariant 0 <= j <= |b|
        invariant forall m :: 0 <= m < j ==> b[m].key != key
      {
        if b[j].key == key {
          FindFirst(b, key, j);
          return b[j].value;
        }
        j := j + 1;
      }
      return null;
    }

    /** Unlinks the node for `key`, if any. */
    method Remove(key: string)
      requires Valid()
      modifies this, buckets
      ensures Valid() && Contents == old(Contents) - {key}
    {
      var i := GetIndex(key);
      var b := buckets[i];
      ghost var bs := buckets[..];
      var j := 0;
      while j < |b|
        invariant 0 <= j <= |b|
        invariant forall m :: 0 <= m < j ==> b[m].key != key
      {
        if b[j].key == key {
          UnlinkKeepsTable(bs, size, Contents, key, j);
          buckets[i] := b[..j] + b[j + 1..];
          Contents := Contents - {key};
          return;
        }
        j := j + 1;
      }
      assert key !in Contents by {
        assert Find(b, key) == Lookup(Contents, key);
      }
      assert Contents - {key} == Contents;
    }

    /** Every stored request, bucket by bucket, each chain head first: one value per key. */
    method GetAll() returns (all: seq<ReliefRequest>, ghost keys: seq<string>)
      requires Valid()
      ensures all == Values()
      ensures |keys| == |all| && Distinct(keys)
      ensures forall k :: k in Contents <==> k in keys
      ensures forall n :: 0 <= n < |all| ==> keys[n] in Contents && all[n] == Contents[keys[n]]
    {
      all := [];
      for i := 0 to buckets.Length
        invariant all == ValuesOf(Flatten(buckets[..i]))
      {
        var b := buckets[i];
        ghost var pre := Flatten(buckets[..i]);
        ChainStart(pre, b);
        for j := 0 to |b|
          invariant all == ValuesOf(pre + b[..j])
        {
          ChainStep(pre, b, j);
          all := all + [b[j].value];
        }
        FlattenStep(buckets[..], i);
      }
      assert buckets[..buckets.Length] == buckets[..];
      FlattenListsContents(buckets[..], size, Contents);
      keys := KeysOf(Flatten(buckets[..]));
    }

    /** Number of stored requests whose resource type equals `t`, ignoring case. */
    method CountRequestsByType(t: string) returns (count: nat)
      requires Valid()
      ensures count == CountType(Values(), t)
      ensures count == |KeysOfType(Contents, t)|
    {
      count := 0;
      for i := 0 to buckets.Length
        invariant count == CountType(ValuesOf(Flatten(buckets[..i])), t)
      {
        var b := buckets[i];
        ghost var pre := Flatten(buckets[..i]);
        ChainStart(pre, b);
        for j := 0 to |b|
          invariant count == CountType(ValuesOf(pre + b[..j]), t)
        {
          ChainStep(pre, b, j);
          CountTypeSnoc(pre + b[..j], b[j], t);
          if EqualsIgnoreCase(b[j].value.resType, t) {
            count := count + 1;
          }
        }
        FlattenStep(buckets[..], i);
      }
      assert buckets[..buckets.Length] == buckets[..];
      CountTypeOfTable(buckets[..], size, Contents, t);
    }
  }
}

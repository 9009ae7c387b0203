/**
 The mirror of an associative array handed to loadable builtins: a hash table of 128
 buckets whose chains are rebuilt in place on every update.

 `Chained` is the shape of the table.  Every update is proved to leave each entry on the
 chain its hash selects and on no other, exactly once; reading the buckets back yields the
 updated map, and searching one chain decides membership.
 */
module AbiAssoc {
  import opened CText
  import opened Option
  import opened SortedMap

  const BUCKETS: nat := 128

  /** Bitwise exclusive or. */
  function Xor(a: nat, b: nat): nat {
    if a == 0 then b else if b == 0 then a else 2 * Xor(a / 2, b / 2) + if a % 2 != b % 2 then 1 else 0
  }

  /** The 32-bit hash: multiply with wrap-around, then exclusive or with the next byte. */
  function BashHash(s: string): nat {
    if s == "" then 0 else Xor(BashHash(s[..|s| - 1]) * 16_777_619 % 0x1_0000_0000, s[|s| - 1] as int % 256)
  }

  function Slot(hash: nat): (i: nat)
    ensures i < BUCKETS
  {
    hash % BUCKETS
  }

  class Bucket {
    var next: Bucket?
    const key: string
    const data: string
    const hash: nat

    constructor (key: string, data: string)
      ensures this.key == key && this.data == data && Hashed(this)
    {
      next := null;
      this.key, this.data, hash := key, data, BashHash(key);
    }

    function Entry(): (string, string) {
      (key, data)
    }
  }

  ghost predicate Distinct(s: seq<Bucket>) {
    forall i, j :: 0 <= i < j < |s| ==> s[i] != s[j]
  }

  /** The entries that hash to slot `b`, last one first: pushing at the front reverses them. */
  function ChainOf(entries: seq<Bucket>, b: nat): (c: seq<Bucket>)
    ensures |c| <= |entries|
  {
    if entries == [] then []
    else
      var last := entries[|entries| - 1];
      (if Slot(last.hash) == b then [last] else []) + ChainOf(entries[..|entries| - 1], b)
  }

  /** Following `next` from `first` meets exactly the nodes of `c`, in order, and ends. */
  ghost predicate Linked(first: Bucket?, c: seq<Bucket>)
    reads c
  {
    if c == [] then first == null else first == c[0] && Linked(c[0].next, c[1..])
  }

  /** The entries met from `current`, up to `fuel` of them. */
  ghost function Walk(current: Bucket?, fuel: nat): seq<(string, string)>
    reads *
  {
    if fuel == 0 || current == null then [] else [current.Entry()] + Walk(current.next, fuel - 1)
  }

  function EntriesOf(c: seq<Bucket>): (v: seq<(string, string)>)
    ensures |v| == |c| && forall i :: 0 <= i < |c| ==> v[i] == c[i].Entry()
  {
    seq(|c|, i requires 0 <= i < |c| => c[i].Entry())
  }

  lemma EntriesConcat(a: seq<Bucket>, b: seq<Bucket>)
    ensures EntriesOf(a + b) == EntriesOf(a) + EntriesOf(b)
  {}

  lemma {:induction false} ChainWalk(first: Bucket?, c: seq<Bucket>, fuel: nat)
    requires Linked(first, c) && |c| <= fuel
    ensures Walk(first, fuel) == EntriesOf(c)
  {
    if c != [] {
      ChainWalk(c[0].next, c[1..], fuel - 1);
      assert EntriesOf(c) == [c[0].Entry()] + EntriesOf(c[1..]);
    }
  }

  /** All chains, in slot order. */
  function AllChains(entries: seq<Bucket>, n: nat): seq<Bucket> {
    if n == 0 then [] else AllChains(entries, n - 1) + ChainOf(entries, n - 1)
  }

  ghost predicate Within(c: seq<Bucket>, entries: seq<Bucket>) {
    forall i :: 0 <= i < |c| ==> c[i] in entries
  }

  lemma {:induction false} ChainWithin(entries: seq<Bucket>, b: nat)
    ensures Within(ChainOf(entries, b), entries)
  {
    if entries != [] {
      var init := entries[..|entries| - 1];
      ChainWithin(init, b);
      assert forall x :: x in init ==> x in entries;
    }
  }

  lemma ChainSnoc(init: seq<Bucket>, last: Bucket, b: nat)
    ensures ChainOf(init + [last], b) == (if Slot(last.hash) == b then [last] else []) + ChainOf(init, b)
  {
    assert (init + [last])[..|init|] == init;
  }

  lemma {:induction false} OnItsChain(entries: seq<Bucket>, i: nat)
    requires i < |entries|
    ensures entries[i] in ChainOf(entries, Slot(entries[i].hash))
  {
    if i < |entries| - 1 { OnItsChain(entries[..|entries| - 1], i); }
  }

  lemma {:induction false} ChainDistinct(entries: seq<Bucket>, b: nat)
    requires Distinct(entries)
    ensures Distinct(ChainOf(entries, b))
  {
    if entries != [] {
      var init, last := entries[..|entries| - 1], entries[|entries| - 1];
      ChainDistinct(init, b);
      ChainWithin(init, b);
      assert last !in init;
      assert last !in ChainOf(init, b);
    }
  }

  lemma DistinctConcat(a: seq<Bucket>, b: seq<Bucket>)
    requires Distinct(a) && Distinct(b) && forall i, j :: 0 <= i < |a| && 0 <= j < |b| ==> a[i] != b[j]
    ensures Distinct(a + b)
  {}

  lemma WithinJoins(a: seq<Bucket>, b: seq<Bucket>, entries: seq<Bucket>)
    requires Within(a, entries) && Within(b, entries)
    ensures Within(a + b, entries)
  {}

  lemma {:induction false} AllChainsWithin(entries: seq<Bucket>, n: nat)
    ensures Within(AllChains(entries, n), entries)
  {
    if n > 0 {
      AllChainsWithin(entries, n - 1);
      ChainWithin(entries, n - 1);
      WithinJoins(AllChains(entries, n - 1), ChainOf(entries, n - 1), entries);
    }
  }

  /** All nodes belong to slots from `lo` to below `hi`. */
  ghost predicate SlotsIn(c: seq<Bucket>, lo: nat, hi: nat) {
    forall i :: 0 <= i < |c| ==> lo <= Slot(c[i].hash) < hi
  }

  lemma {:induction false} ChainSlots(entries: seq<Bucket>, b: nat)
    ensures SlotsIn(ChainOf(entries, b), b, b + 1)
  {
    if entries != [] { ChainSlots(entries[..|entries| - 1], b); }
  }

  /** Distinct nodes, all of slots below `n`. */
  ghost predicate Apart(c: seq<Bucket>, n: nat) {
    SlotsIn(c, 0, n) && Distinct(c)
  }

  lemma ApartJoins(a: seq<Bucket>, b: seq<Bucket>, n: nat)
    requires Apart(a, n) && SlotsIn(b, n, n + 1) && Distinct(b)
    ensures Apart(a + b, n + 1)
  {
    DistinctConcat(a, b);
  }

  lemma ApartWithChain(a: seq<Bucket>, entries: seq<Bucket>, n: nat)
    requires Distinct(entries) && Apart(a, n)
    ensures Apart(a + ChainOf(entries, n), n + 1)
  {
    ChainSlots(entries, n);
    ChainDistinct(entries, n);
    ApartJoins(a, ChainOf(entries, n), n);
  }

  /** The chains of different slots share no node. */
  lemma {:induction false} AllChainsDistinct(entries: seq<Bucket>, n: nat)
    requires Distinct(entries)
    ensures Apart(AllChains(entries, n), n)
  {
    if n > 0 {
      AllChainsDistinct(entries, n - 1);
      ApartWithChain(AllChains(entries, n - 1), entries, n - 1);
    }
  }

  lemma {:induction false} AllChainsHold(entries: seq<Bucket>, i: nat, n: nat)
    requires i < |entries| && Slot(entries[i].hash) < n
    ensures entries[i] in AllChains(entries, n)
  {
    var b := Slot(entries[i].hash);
    if b < n - 1 {
      AllChainsHold(entries, i, n - 1);
    } else {
      assert entries[i] in ChainOf(entries, n - 1) by { OnItsChain(entries, i); }
    }
    assert AllChains(entries, n) == AllChains(entries, n - 1) + ChainOf(entries, n - 1);
  }

  /** Every entry is on some chain, and no node is met twice. */
  lemma ChainsHoldEachOnce(entries: seq<Bucket>)
    requires Distinct(entries)
    ensures Distinct(AllChains(entries, BUCKETS)) && SameNodes(entries, AllChains(entries, BUCKETS))
  {
    AllChainsDistinct(entries, BUCKETS);
    AllChainsWithin(entries, BUCKETS);
    forall i | 0 <= i < |entries| ensures entries[i] in AllChains(entries, BUCKETS) {
      AllChainsHold(entries, i, BUCKETS);
    }
  }

  ghost predicate SameNodes(a: seq<Bucket>, b: seq<Bucket>) {
    && (forall i :: 0 <= i < |a| ==> a[i] in b)
    && (forall i :: 0 <= i < |b| ==> b[i] in a)
  }

  ghost predicate KeysDistinct(entries: seq<Bucket>) {
    forall i, j :: 0 <= i < j < |entries| ==> entries[i].key != entries[j].key
  }

  lemma {:induction false} ToMapFrom<K, V>(s: seq<(K, V)>, k: K)
    requires k in ToMap(s)
    ensures exists i :: 0 <= i < |s| && s[i] == (k, ToMap(s)[k])
  {
    var init, last := s[..|s| - 1], s[|s| - 1];
    if last.0 == k {
      assert s[|s| - 1] == (k, ToMap(s)[k]);
    } else {
      ToMapFrom(init, k);
      var i :| 0 <= i < |init| && init[i] == (k, ToMap(init)[k]);
      assert s[i] == init[i];
    }
  }

  lemma SubKeys(a: seq<Bucket>, b: seq<Bucket>, k: string)
    requires (forall i :: 0 <= i < |a| ==> a[i] in b) && k in ToMap(EntriesOf(a))
    ensures k in ToMap(EntriesOf(b))
  {
    ToMapFrom(EntriesOf(a), k);
    var i :| 0 <= i < |a| && EntriesOf(a)[i].0 == k;
    var j :| 0 <= j < |b| && b[j] == a[i];
    ToMapKeys(EntriesOf(b));
    assert EntriesOf(b)[j].0 == k;
  }

  lemma SameValue(a: seq<Bucket>, b: seq<Bucket>, k: string)
    requires (forall i :: 0 <= i < |b| ==> b[i] in a) && KeysDistinct(a)
    requires k in ToMap(EntriesOf(b)) && k in ToMap(EntriesOf(a))
    ensures ToMap(EntriesOf(b))[k] == ToMap(EntriesOf(a))[k]
  {
    ToMapFrom(EntriesOf(b), k);
    var i :| 0 <= i < |b| && EntriesOf(b)[i] == (k, ToMap(EntriesOf(b))[k]);
    var j :| 0 <= j < |a| && a[j] == b[i];
    assert DistinctKeys(EntriesOf(a));
    ToMapEntry(EntriesOf(a), j);
  }

  /** A rearrangement of nodes with distinct keys denotes the same map. */
  lemma RearrangedMap(a: seq<Bucket>, b: seq<Bucket>)
    requires SameNodes(a, b) && KeysDistinct(a)
    ensures ToMap(EntriesOf(b)) == ToMap(EntriesOf(a))
  {
    var ma, mb := ToMap(EntriesOf(a)), ToMap(EntriesOf(b));
    forall k | k in ma ensures k in mb { SubKeys(a, b, k); }
    forall k | k in mb ensures k in ma && mb[k] == ma[k] {
      SubKeys(b, a, k);
      SameValue(a, b, k);
    }
  }

  /** Each entry carries the hash of its key. */
  ghost predicate Hashed(e: Bucket) { e.hash == BashHash(e.key) }

  lemma KeyOnChain(entries: seq<Bucket>, key: string) returns (j: nat)
    requires (forall i :: 0 <= i < |entries| ==> Hashed(entries[i])) && key in ToMap(EntriesOf(entries))
    ensures var c := ChainOf(entries, Slot(BashHash(key))); j < |c| && c[j].key == key
  {
    ToMapKeys(EntriesOf(entries));
    var i :| 0 <= i < |entries| && EntriesOf(entries)[i].0 == key;
    assert Hashed(entries[i]) && entries[i].key == key;
    OnItsChain(entries, i);
    var c := ChainOf(entries, Slot(BashHash(key)));
    j :| 0 <= j < |c| && c[j] == entries[i];
  }

  lemma ChainKeyListed(entries: seq<Bucket>, b: nat, i: nat)
    requires i < |ChainOf(entries, b)|
    ensures ChainOf(entries, b)[i].key in ToMap(EntriesOf(entries))
  {
    ChainWithin(entries, b);
    ToMapKeys(EntriesOf(entries));
    var k :| 0 <= k < |entries| && entries[k] == ChainOf(entries, b)[i];
    assert EntriesOf(entries)[k].0 == ChainOf(entries, b)[i].key;
  }

  /** One chain decides membership: the one the key's hash selects. */
  lemma OneChainDecides(entries: seq<Bucket>, key: string)
    requires forall i :: 0 <= i < |entries| ==> Hashed(entries[i])
    ensures var c := ChainOf(entries, Slot(BashHash(key)));
            key in ToMap(EntriesOf(entries)) <==> exists i :: 0 <= i < |c| && c[i].key == key
  {
    var b := Slot(BashHash(key));
    if key in ToMap(EntriesOf(entries)) { var _ := KeyOnChain(entries, key); }
    forall i | 0 <= i < |ChainOf(entries, b)| ensures ChainOf(entries, b)[i].key in ToMap(EntriesOf(entries)) {
      ChainKeyListed(entries, b, i);
    }
  }

  // ----- the table

  /** What reading the first `n` buckets yields, with `fuel` steps allowed in each chain. */
  ghost function ReadBuckets(buckets: seq<Bucket?>, n: nat, fuel: nat): seq<(string, string)>
    requires n <= |buckets|
    reads *
  {
    if n == 0 then [] else ReadBuckets(buckets, n - 1, fuel) + Walk(buckets[n - 1], fuel)
  }

  ghost predicate ChainedUpTo(buckets: seq<Bucket?>, entries: seq<Bucket>)
    requires |buckets| == BUCKETS
    reads entries
  {
    forall b :: 0 <= b < BUCKETS ==> Within(ChainOf(entries, b), entries) && Linked(buckets[b], ChainOf(entries, b))
  }

  /** A node whose link is the head of its chain becomes the new head. */
  lemma PushedChains(heads: seq<Bucket?>, e: Bucket, before: seq<Bucket>)
    requires |heads| == BUCKETS && e.next == heads[Slot(e.hash)]
    requires forall b :: 0 <= b < BUCKETS ==> Linked(heads[b], ChainOf(before, b))
    ensures ChainedUpTo(heads[Slot(e.hash) := e], before + [e])
  {
    var slot := Slot(e.hash);
    forall b | 0 <= b < BUCKETS
      ensures Within(ChainOf(before + [e], b), before + [e]) && Linked(heads[slot := e][b], ChainOf(before + [e], b))
    {
      ChainSnoc(before, e, b);
      ChainWithin(before + [e], b);
      var c := ChainOf(before, b);
      if b == slot { assert ([e] + c)[1..] == c; } else { assert [] + c == c; }
    }
  }

  lemma {:induction false} ReadChained(buckets: seq<Bucket?>, entries: seq<Bucket>, n: nat, fuel: nat)
    requires |buckets| == BUCKETS && ChainedUpTo(buckets, entries) && n <= BUCKETS && |entries| <= fuel
    ensures ReadBuckets(buckets, n, fuel) == EntriesOf(AllChains(entries, n))
  {
    if n > 0 {
      ReadChained(buckets, entries, n - 1, fuel);
      var c := ChainOf(entries, n - 1);
      ChainWalk(buckets[n - 1], c, fuel);
      EntriesConcat(AllChains(entries, n - 1), c);
    }
  }

  ghost predicate NulFree(v: seq<(string, string)>) {
    forall p :: p in v ==> '\0' !in p.0 && '\0' !in p.1
  }

  /** Reading a well-formed table back: no chain is cut short, nothing is repeated, and the map is the entries' own. */
  lemma ReadBack(buckets: seq<Bucket?>, entries: seq<Bucket>)
    requires |buckets| == BUCKETS && ChainedUpTo(buckets, entries) && Distinct(entries)
    ensures var values := ReadBuckets(buckets, BUCKETS, |entries| + 1);
            && values == EntriesOf(AllChains(entries, BUCKETS))
            && (KeysDistinct(entries) ==> ToMap(values) == ToMap(EntriesOf(entries)))
            && (NulFree(EntriesOf(entries)) ==> NulFree(values))
  {
    var all := AllChains(entries, BUCKETS);
    ReadChained(buckets, entries, BUCKETS, |entries| + 1);
    ChainsHoldEachOnce(entries);
    if KeysDistinct(entries) { RearrangedMap(entries, all); }
    forall p | p in EntriesOf(all) ensures p in EntriesOf(entries) {
      var i :| 0 <= i < |all| && EntriesOf(all)[i] == p;
      var j :| 0 <= j < |entries| && entries[j] == all[i];
      assert EntriesOf(entries)[j] == p;
    }
  }

  /** The list a binding replaces the entries by. */
  lemma BoundList(values: seq<(string, string)>, key: string, value: string)
    requires NulFree(values) && '\0' !in key && '\0' !in value
    ensures var list := Put(Collect(values, StringLt), key, value, StringLt);
            && ToMap(list) == ToMap(values)[key := value]
            && DistinctKeys(list) && StripPairs(list) == list
  {
    var list := Put(Collect(values, StringLt), key, value, StringLt);
    StringOrder();
    CollectDenotes(values, StringLt);
    PutIsUpdate(Collect(values, StringLt), key, value, StringLt);
    AscendingIsDistinct(list, StringLt);
    CollectFrom(values, StringLt);
    PutFrom(Collect(values, StringLt), key, value, StringLt);
    forall i | 0 <= i < |list| ensures StripPairs(list)[i] == list[i] { assert list[i] in list; }
  }

  lemma PrefixGrows(entries: seq<Bucket>, i: nat)
    requires Distinct(entries) && i < |entries|
    ensures entries[i] !in entries[..i] && entries[..i + 1] == entries[..i] + [entries[i]]
  {}

  lemma KeysAsListed(entries: seq<Bucket>, list: seq<(string, string)>)
    requires EntriesOf(entries) == list && DistinctKeys(list)
    ensures KeysDistinct(entries)
  {
    assert forall i :: 0 <= i < |entries| ==> entries[i].key == list[i].0;
  }

  method BucketsFor(values: seq<(string, string)>) returns (made: seq<Bucket>)
    ensures Distinct(made) && fresh(set e | e in made)
    ensures EntriesOf(made) == values
    ensures forall j :: 0 <= j < |made| ==> Hashed(made[j])
  {
    made := [];
    for i := 0 to |values|
      invariant |made| == i && Distinct(made) && fresh(set e | e in made)
      invariant forall j :: 0 <= j < i ==> made[j].Entry() == values[j]
      invariant forall j :: 0 <= j < i ==> Hashed(made[j])
    {
      var e := new Bucket(values[i].0, values[i].1);
      made := made + [e];
    }
  }

  method MakeBuckets(values: seq<(string, string)>) returns (made: seq<Bucket>)
    ensures Distinct(made) && fresh(set e | e in made)
    ensures EntriesOf(made) == StripPairs(values)
    ensures forall j :: 0 <= j < |made| ==> Hashed(made[j])
  {
    made := BucketsFor(StripPairs(values));
  }

  class AbiAssoc {
    const buckets: array<Bucket?>
    var entries: seq<Bucket>
    var bucketCount: nat
    var entryCount: nat

    /** Every slot heads the chain of its entries. */
    ghost predicate Chained()
      reads this, buckets, entries
    {
      && buckets.Length == BUCKETS
      && Distinct(entries) && (forall i :: 0 <= i < |entries| ==> Hashed(entries[i]))
      && ChainedUpTo(buckets[..], entries)
    }

    ghost predicate Valid()
      reads this, buckets, entries
    {
      Chained() && bucketCount == BUCKETS && entryCount == |entries| && NulFree(Values())
    }

    ghost function Values(): seq<(string, string)>
      reads this
    {
      EntriesOf(entries)
    }

    constructor (values: seq<(string, string)>)
      ensures Valid() && fresh(buckets) && fresh(set e | e in entries)
      ensures Values() == StripPairs(values)
    {
      buckets := new Bucket?[BUCKETS](_ => null);
      entries, bucketCount, entryCount := [], BUCKETS, 0;
      new;
      Replace(values);
    }

    method ClearBuckets()
      requires buckets.Length == BUCKETS
      modifies buckets
      ensures ChainedUpTo(buckets[..], [])
    {
      for b := 0 to buckets.Length
        invariant forall j :: 0 <= j < b ==> buckets[j] == null
      {
        buckets[b] := null;
      }
    }

    method PushAll()
      requires buckets.Length == BUCKETS && Distinct(entries) && ChainedUpTo(buckets[..], [])
      modifies buckets, entries`next
      ensures ChainedUpTo(buckets[..], entries)
    {
      ghost var done: seq<Bucket> := [];
      for i := 0 to |entries|
        invariant done == entries[..i] && ChainedUpTo(buckets[..], done)
      {
        PrefixGrows(entries, i);
        Push(entries[i], done);
        done := done + [entries[i]];
      }
      assert done == entries;
    }

    /** Clears the buckets and pushes every entry at the front of its chain. */
    method Relink()
      requires buckets.Length == BUCKETS
      requires Distinct(entries) && forall i :: 0 <= i < |entries| ==> Hashed(entries[i])
      modifies buckets, entries`next, this`bucketCount, this`entryCount
      ensures Chained() && bucketCount == BUCKETS && entryCount == |entries|
    {
      ClearBuckets();
      PushAll();
      bucketCount, entryCount := buckets.Length, |entries|;
    }

    method Push(e: Bucket, ghost before: seq<Bucket>)
      requires buckets.Length == BUCKETS && e !in before
      requires ChainedUpTo(buckets[..], before)
      modifies buckets, e`next
      ensures ChainedUpTo(buckets[..], before + [e])
    {
      var slot := Slot(e.hash);
      ghost var heads := buckets[..];
      e.next := buckets[slot];
      forall b | 0 <= b < BUCKETS ensures Linked(heads[b], ChainOf(before, b)) {
        assert e !in ChainOf(before, b);
      }
      buckets[slot] := e;
      assert buckets[..] == heads[slot := e];
      PushedChains(heads, e, before);
    }

    method Replace(values: seq<(string, string)>)
      requires buckets.Length == BUCKETS
      modifies this, buckets
      ensures Valid() && fresh(set e | e in entries)
      ensures Values() == StripPairs(values)
    {
      entries := MakeBuckets(values);
      Relink();
    }

    method ReadChain(first: Bucket?, fuel: nat) returns (values: seq<(string, string)>)
      ensures values == Walk(first, fuel)
    {
      values := [];
      var current, remaining := first, fuel;
      while current != null && remaining > 0
        invariant 0 <= remaining <= fuel
        invariant values + Walk(current, remaining) == Walk(first, fuel)
        decreases remaining
      {
        values := values + [current.Entry()];
        current := current.next;
        remaining := remaining - 1;
      }
    }

    /** Reads every chain back; in each, at most one more step than there are entries. */
    method ValuesFromBuckets() returns (values: seq<(string, string)>)
      requires buckets.Length == BUCKETS
      ensures values == ReadBuckets(buckets[..], BUCKETS, |entries| + 1)
    {
      values := [];
      for b := 0 to buckets.Length
        invariant values == ReadBuckets(buckets[..], b, |entries| + 1)
      {
        var chain := ReadChain(buckets[b], |entries| + 1);
        values := values + chain;
      }
    }

    /** The entries with one more binding. */
    method WithBinding(key: string, value: string) returns (list: seq<(string, string)>)
      requires Valid() && KeysDistinct(entries) && '\0' !in key && '\0' !in value
      ensures ToMap(list) == ToMap(Values())[key := value] && DistinctKeys(list) && StripPairs(list) == list
    {
      var values := ValuesFromBuckets();
      ReadBack(buckets[..], entries);
      BoundList(values, key, value);
      list := Put(Collect(values, StringLt), key, value, StringLt);
    }

    method Bind(key: Option<string>, value: Option<string>)
      requires Valid() && KeysDistinct(entries) && IsCText(key) && IsCText(value)
      modifies this, buckets
      ensures Valid() && fresh(set e | e in entries) && KeysDistinct(entries)
      ensures ToMap(Values()) == ToMap(old(Values()))[TextOf(key) := TextOf(value)]
    {
      var list := WithBinding(TextOf(key), TextOf(value));
      Replace(list);
      KeysAsListed(entries, list);
    }

    method Flush()
      requires Valid()
      modifies this, buckets
      ensures Valid() && fresh(set e | e in entries) && Values() == []
    {
      Replace([]);
    }
  }

  // ----- whole runs

  datatype Update = Set(key: Option<string>, value: Option<string>) | Clear

  function Updated(m: map<string, string>, ops: seq<Update>): map<string, string> {
    if ops == [] then m
    else
      match ops[|ops| - 1]
      case Clear => map[]
      case Set(k, v) => Updated(m, ops[..|ops| - 1])[TextOf(k) := TextOf(v)]
  }

  /** Any run of bindings and flushes leaves a well-formed table over exactly the updated map. */
  method RunUpdates(a: AbiAssoc, ops: seq<Update>)
    requires a.Valid() && KeysDistinct(a.entries)
    requires forall n :: 0 <= n < |ops| && ops[n].Set? ==> IsCText(ops[n].key) && IsCText(ops[n].value)
    modifies a, a.buckets
    ensures a.Valid() && KeysDistinct(a.entries)
    ensures ToMap(a.Values()) == Updated(ToMap(old(a.Values())), ops)
  {
    ghost var start := ToMap(a.Values());
    for n := 0 to |ops|
      invariant a.Valid() && KeysDistinct(a.entries)
      invariant ToMap(a.Values()) == Updated(start, ops[..n])
    {
      assert ops[..n + 1][..n] == ops[..n];
      match ops[n] {
        case Set(k, v) => a.Bind(k, v);
        case Clear => a.Flush();
      }
    }
    assert ops[..|ops|] == ops;
  }
}

/**
 Ordered maps as the standard library's B-tree map iterates them: a list of entries in
 strictly ascending key order, and stable sorting by key.
 */
module SortedMap {

  ghost predicate StrictTotal<K(!new)>(lt: (K, K) -> bool) {
    && (forall a :: !lt(a, a))
    && (forall a, b, c :: lt(a, b) && lt(b, c) ==> lt(a, c))
    && (forall a, b :: a == b || lt(a, b) || lt(b, a))
  }

  ghost predicate Ascending<K, V>(s: seq<(K, V)>, lt: (K, K) -> bool) {
    forall i, j :: 0 <= i < j < |s| ==> lt(s[i].0, s[j].0)
  }

  ghost predicate DistinctKeys<K, V>(s: seq<(K, V)>) {
    forall i, j :: 0 <= i < j < |s| ==> s[i].0 != s[j].0
  }

  /** The map a list of entries denotes: a later entry for a key replaces an earlier one. */
  function ToMap<K, V>(s: seq<(K, V)>): map<K, V> {
    if s == [] then map[] else ToMap(s[..|s| - 1])[s[|s| - 1].0 := s[|s| - 1].1]
  }

  function Put<K(==), V>(s: seq<(K, V)>, k: K, v: V, lt: (K, K) -> bool): seq<(K, V)> {
    if s == [] then [(k, v)]
    else if k == s[0].0 then [(k, v)] + s[1..]
    else if lt(k, s[0].0) then [(k, v)] + s
    else [s[0]] + Put(s[1..], k, v, lt)
  }

  /** Collecting entries into an ordered map. */
  function Collect<K(==), V>(s: seq<(K, V)>, lt: (K, K) -> bool): seq<(K, V)> {
    if s == [] then [] else Put(Collect(s[..|s| - 1], lt), s[|s| - 1].0, s[|s| - 1].1, lt)
  }

  lemma {:induction false} ToMapKeys<K, V>(s: seq<(K, V)>)
    ensures forall k :: k in ToMap(s) <==> exists i :: 0 <= i < |s| && s[i].0 == k
  {
    if s != [] {
      var init, last := s[..|s| - 1], s[|s| - 1];
      ToMapKeys(init);
      assert s == init + [last];
    }
  }

  lemma {:induction false} ToMapEntry<K, V>(s: seq<(K, V)>, i: nat)
    requires DistinctKeys(s) && i < |s|
    ensures s[i].0 in ToMap(s) && ToMap(s)[s[i].0] == s[i].1
  {
    if i < |s| - 1 {
      ToMapEntry(s[..|s| - 1], i);
      assert s[i].0 != s[|s| - 1].0;
    }
  }

  lemma {:induction false} ToMapSize<K, V>(s: seq<(K, V)>)
    requires DistinctKeys(s)
    ensures |ToMap(s)| == |s|
  {
    if s != [] {
      var init, last := s[..|s| - 1], s[|s| - 1];
      ToMapSize(init);
      ToMapKeys(init);
      assert last.0 !in ToMap(init);
      assert ToMap(s).Keys == ToMap(init).Keys + {last.0};
    }
  }

  /** A list with distinct keys is determined, as a map, by its entries. */
  lemma ToMapIs<K(!new), V>(s: seq<(K, V)>, m: map<K, V>)
    requires DistinctKeys(s)
    requires forall k :: k in m <==> exists i :: 0 <= i < |s| && s[i].0 == k
    requires forall i :: 0 <= i < |s| ==> s[i].0 in m && m[s[i].0] == s[i].1
    ensures ToMap(s) == m
  {
    ToMapKeys(s);
    var t := ToMap(s);
    forall k ensures k in t <==> k in m {
      assert k in m <==> exists i :: 0 <= i < |s| && s[i].0 == k;
    }
    forall k | k in m ensures k in t && t[k] == m[k] {
      var i :| 0 <= i < |s| && s[i].0 == k;
      ToMapEntry(s, i);
    }
    assert t.Keys == m.Keys;
  }

  lemma {:induction false} PutKeepsOrder<K(!new), V>(s: seq<(K, V)>, k: K, v: V, lt: (K, K) -> bool)
    requires StrictTotal(lt) && Ascending(s, lt)
    ensures var r := Put(s, k, v, lt);
            && Ascending(r, lt)
            && (forall i :: 0 <= i < |r| ==> r[i] == (k, v) || (r[i] in s && r[i].0 != k))
            && (k, v) in r
            && (forall i :: 0 <= i < |s| && s[i].0 != k ==> s[i] in r)
  {
    if s != [] && k != s[0].0 && !lt(k, s[0].0) {
      PutKeepsOrder(s[1..], k, v, lt);
      var t := Put(s[1..], k, v, lt);
      var r := Put(s, k, v, lt);
      assert r == [s[0]] + t;
      forall i | 0 <= i < |t| ensures lt(s[0].0, t[i].0) {
        if t[i] != (k, v) { assert t[i] in s[1..]; }
      }
      forall i | 0 <= i < |s| && s[i].0 != k ensures s[i] in r {
        if i > 0 { assert s[i] == s[1..][i - 1]; assert s[i] in t; }
      }
      assert (k, v) in t;
    } else if s != [] && k == s[0].0 {
      var r := Put(s, k, v, lt);
      forall i | 0 <= i < |s| && s[i].0 != k ensures s[i] in r { assert r[i] == s[i]; }
      forall i | 0 <= i < |r| ensures r[i] == (k, v) || (r[i] in s && r[i].0 != k) {
        if i > 0 { assert r[i] == s[i] && lt(s[0].0, s[i].0); }
      }
      assert r[0] == (k, v);
    } else {
      var r := Put(s, k, v, lt);
      assert r[0] == (k, v);
      forall i | 0 <= i < |s| ensures s[i] in r && s[i].0 != k {
        assert r[i + 1] == s[i];
        assert i == 0 || lt(s[0].0, s[i].0);
      }
    }
  }

  lemma {:induction false} PutFrom<K, V>(s: seq<(K, V)>, k: K, v: V, lt: (K, K) -> bool)
    ensures forall p :: p in Put(s, k, v, lt) ==> p == (k, v) || p in s
  {
    if s != [] { PutFrom(s[1..], k, v, lt); }
  }

  /** Collecting invents no entries. */
  lemma {:induction false} CollectFrom<K, V>(s: seq<(K, V)>, lt: (K, K) -> bool)
    ensures forall p :: p in Collect(s, lt) ==> p in s
  {
    if s != [] {
      CollectFrom(s[..|s| - 1], lt);
      PutFrom(Collect(s[..|s| - 1], lt), s[|s| - 1].0, s[|s| - 1].1, lt);
    }
  }

  lemma AscendingIsDistinct<K(!new), V>(s: seq<(K, V)>, lt: (K, K) -> bool)
    requires StrictTotal(lt) && Ascending(s, lt)
    ensures DistinctKeys(s)
  {
    forall i, j | 0 <= i < j < |s| ensures s[i].0 != s[j].0 {
      assert lt(s[i].0, s[j].0);
    }
  }

  lemma PutIsUpdate<K(!new), V>(s: seq<(K, V)>, k: K, v: V, lt: (K, K) -> bool)
    requires StrictTotal(lt) && Ascending(s, lt)
    ensures Ascending(Put(s, k, v, lt), lt)
    ensures ToMap(Put(s, k, v, lt)) == ToMap(s)[k := v]
  {
    var r := Put(s, k, v, lt);
    PutKeepsOrder(s, k, v, lt);
    AscendingIsDistinct(s, lt);
    AscendingIsDistinct(r, lt);
    ToMapKeys(s);
    var m := ToMap(s)[k := v];
    forall x ensures x in m <==> exists i :: 0 <= i < |r| && r[i].0 == x {
      if x in m && x != k {
        var i :| 0 <= i < |s| && s[i].0 == x;
        assert s[i] in r;
      }
    }
    forall i | 0 <= i < |r| ensures m[r[i].0] == r[i].1 {
      if r[i] != (k, v) {
        var j :| 0 <= j < |s| && s[j] == r[i];
        ToMapEntry(s, j);
      }
    }
    ToMapIs(r, m);
  }

  lemma {:induction false} CollectDenotes<K(!new), V>(s: seq<(K, V)>, lt: (K, K) -> bool)
    requires StrictTotal(lt)
    ensures Ascending(Collect(s, lt), lt) && ToMap(Collect(s, lt)) == ToMap(s)
  {
    if s != [] {
      CollectDenotes(s[..|s| - 1], lt);
      PutIsUpdate(Collect(s[..|s| - 1], lt), s[|s| - 1].0, s[|s| - 1].1, lt);
    }
  }

  // ----- the two key orders in use

  predicate IntLt(a: int, b: int) { a < b }

  predicate IntLe(a: int, b: int) { a <= b }

  /** Byte order of strings. */
  predicate StringLt(a: string, b: string) {
    b != "" && (a == "" || a[0] < b[0] || (a[0] == b[0] && StringLt(a[1..], b[1..])))
  }

  lemma IntOrder()
    ensures StrictTotal(IntLt)
  {}

  lemma {:induction false} StringOrderAt(a: string, b: string, c: string)
    ensures !StringLt(a, a)
    ensures StringLt(a, b) && StringLt(b, c) ==> StringLt(a, c)
    ensures a == b || StringLt(a, b) || StringLt(b, a)
  {
    if a != "" && b != "" {
      if c != "" { StringOrderAt(a[1..], b[1..], c[1..]); } else { StringOrderAt(a[1..], b[1..], ""); }
      assert a == [a[0]] + a[1..] && b == [b[0]] + b[1..];
    } else if a != "" {
      StringOrderAt(a[1..], "", "");
    }
  }

  lemma StringOrder()
    ensures StrictTotal(StringLt)
  {
    forall a, b, c ensures !StringLt(a, a)
                        && (StringLt(a, b) && StringLt(b, c) ==> StringLt(a, c))
                        && (a == b || StringLt(a, b) || StringLt(b, a)) {
      StringOrderAt(a, b, c);
    }
  }

  // ----- stable sort by key

  function InsertAfter<V>(s: seq<(int, V)>, p: (int, V)): seq<(int, V)> {
    if s == [] || p.0 < s[0].0 then [p] + s else [s[0]] + InsertAfter(s[1..], p)
  }

  function SortByKey<V>(s: seq<(int, V)>): seq<(int, V)> {
    if s == [] then [] else InsertAfter(SortByKey(s[..|s| - 1]), s[|s| - 1])
  }

  lemma {:induction false} InsertAfterIsPut<V>(s: seq<(int, V)>, p: (int, V))
    requires forall i :: 0 <= i < |s| ==> s[i].0 != p.0
    ensures InsertAfter(s, p) == Put(s, p.0, p.1, IntLt)
  {
    if s != [] && p.0 > s[0].0 {
      InsertAfterIsPut(s[1..], p);
    }
  }

  /** With distinct keys, sorting yields the ascending list of the same map. */
  lemma {:induction false} SortByKeyAscends<V>(s: seq<(int, V)>)
    requires DistinctKeys(s)
    ensures SortByKey(s) == Collect(s, IntLt)
    ensures Ascending(SortByKey(s), IntLt) && ToMap(SortByKey(s)) == ToMap(s)
  {
    IntOrder();
    CollectDenotes(s, IntLt);
    if s != [] {
      var init, last := s[..|s| - 1], s[|s| - 1];
      SortByKeyAscends(init);
      var t := SortByKey(init);
      ToMapKeys(init);
      ToMapKeys(t);
      forall i | 0 <= i < |t| ensures t[i].0 != last.0 {
        assert t[i].0 in ToMap(init);
      }
      InsertAfterIsPut(t, last);
    }
  }

  lemma ToMapCons<K(!new), V>(p: (K, V), s: seq<(K, V)>)
    ensures ToMap([p] + s) == map[p.0 := p.1] + ToMap(s)
  {
    if s == [] {
      assert [p] + s == [p] && [p][..0] == [];
    } else {
      var n := |s| - 1;
      assert ([p] + s)[..n + 1] == [p] + s[..n];
      ToMapCons(p, s[..n]);
    }
  }

  lemma {:induction false} ToMapConcat<K(!new), V>(a: seq<(K, V)>, b: seq<(K, V)>)
    ensures ToMap(a + b) == ToMap(a) + ToMap(b)
  {
    if b == [] {
      assert a + b == a;
    } else {
      var init, last := b[..|b| - 1], b[|b| - 1];
      assert (a + b)[..|a + b| - 1] == a + init && (a + b)[|a + b| - 1] == last;
      ToMapConcat(a, init);
      assert (ToMap(a) + ToMap(init))[last.0 := last.1] == ToMap(a) + ToMap(init)[last.0 := last.1];
    }
  }

  lemma PutFront<V>(s: seq<(int, V)>, p: (int, V))
    requires Ascending(s, IntLe) && (s == [] || p.0 < s[0].0)
    ensures ToMap([p] + s) == ToMap(s)[p.0 := p.1] && Ascending([p] + s, IntLe)
  {
    ToMapCons(p, s);
    ToMapKeys(s);
    forall i | 0 <= i < |s| ensures p.0 < s[i].0 { assert i > 0 ==> IntLe(s[0].0, s[i].0); }
    assert p.0 !in ToMap(s);
    assert map[p.0 := p.1] + ToMap(s) == ToMap(s)[p.0 := p.1];
  }

  lemma TailAscends<V>(s: seq<(int, V)>)
    requires s != [] && Ascending(s, IntLe)
    ensures Ascending(s[1..], IntLe)
  {
    forall i, j | 0 <= i < j < |s[1..]| ensures IntLe(s[1..][i].0, s[1..][j].0) {
      assert IntLe(s[i + 1].0, s[j + 1].0);
    }
  }

  lemma UpdateOver<V>(head: (int, V), m: map<int, V>, p: (int, V))
    ensures map[head.0 := head.1] + m[p.0 := p.1] == (map[head.0 := head.1] + m)[p.0 := p.1]
  {}

  /** An entry that goes after all its equals takes effect over them. */
  lemma {:induction false} InsertAfterDenotes<V>(s: seq<(int, V)>, p: (int, V))
    requires Ascending(s, IntLe)
    ensures ToMap(InsertAfter(s, p)) == ToMap(s)[p.0 := p.1] && Ascending(InsertAfter(s, p), IntLe)
    ensures forall q :: q in InsertAfter(s, p) <==> q == p || q in s
    ensures |InsertAfter(s, p)| == |s| + 1
  {
    if s == [] || p.0 < s[0].0 {
      PutFront(s, p);
    } else {
      var rest := s[1..];
      TailAscends(s);
      InsertAfterDenotes(rest, p);
      HeadFirst(s, InsertAfter(rest, p), p);
      ToMapCons(s[0], InsertAfter(rest, p));
      assert ToMap(s) == map[s[0].0 := s[0].1] + ToMap(rest) by {
        ToMapCons(s[0], rest);
        assert s == [s[0]] + rest;
      }
      UpdateOver(s[0], ToMap(rest), p);
    }
  }

  lemma HeadFirst<V>(s: seq<(int, V)>, t: seq<(int, V)>, p: (int, V))
    requires s != [] && Ascending(s, IntLe) && Ascending(t, IntLe) && s[0].0 <= p.0
    requires forall q :: q in t <==> q == p || q in s[1..]
    ensures Ascending([s[0]] + t, IntLe) && forall q :: q in [s[0]] + t <==> q == p || q in s
  {
    var r := [s[0]] + t;
    forall q | q in s[1..] ensures s[0].0 <= q.0 {
      var k :| 0 <= k < |s[1..]| && s[1..][k] == q;
      assert IntLe(s[0].0, s[k + 1].0);
    }
    forall i, j | 0 <= i < j < |r| ensures IntLe(r[i].0, r[j].0) {
      assert r[j] == t[j - 1] && t[j - 1] in t;
      if i > 0 { assert r[i] == t[i - 1] && IntLe(t[i - 1].0, t[j - 1].0); }
    }
    assert s == [s[0]] + s[1..];
  }

  /** Sorting keeps every entry, puts them in order, and denotes the same map, later equals last. */
  lemma {:induction false} SortByKeyDenotes<V>(s: seq<(int, V)>)
    ensures Ascending(SortByKey(s), IntLe) && ToMap(SortByKey(s)) == ToMap(s)
    ensures |SortByKey(s)| == |s| && forall q :: q in SortByKey(s) <==> q in s
  {
    if s != [] {
      var init, last := s[..|s| - 1], s[|s| - 1];
      SortByKeyDenotes(init);
      InsertAfterDenotes(SortByKey(init), last);
      assert s == init + [last];
    }
  }
}

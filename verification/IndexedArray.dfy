/**
 The shell's indexed array: a dense vector for low indices, a sparse ordered map for
 the rest, and a running element count.

 `Contents` is what a caller can see through lookups.  An insertion is proved to be
 the map update it stands for exactly when it does not grow the dense part over an
 index held in the sparse part; where it does, an element is lost or counted twice.
 */
module IndexedArray {
  import opened Option
  import S = SortedMap

  const MAX_DENSE_GAP: nat := 1024
  const MAX_DENSE_LEN: nat := 65_536

  datatype Hybrid = Hybrid(dense: seq<Option<string>>, sparse: map<int, string>, len: nat)

  const EMPTY := Hybrid([], map[], 0)

  function FromValues(values: seq<string>): Hybrid {
    Hybrid(seq(|values|, i requires 0 <= i < |values| => Some(values[i])), map[], |values|)
  }

  predicate InDense(h: Hybrid, index: int) {
    0 <= index < |h.dense|
  }

  predicate StoresDense(h: Hybrid, index: int) {
    InDense(h, index) || (0 <= index < MAX_DENSE_LEN && index <= |h.dense| + MAX_DENSE_GAP)
  }

  function Lookup(h: Hybrid, index: int): Option<string> {
    if InDense(h, index) then h.dense[index]
    else if index in h.sparse then Some(h.sparse[index]) else None
  }

  function Padding(n: nat): (p: seq<Option<string>>)
    ensures |p| == n && forall i :: 0 <= i < n ==> p[i] == None
  {
    seq(n, _ => None)
  }

  function Trimmed(dense: seq<Option<string>>): (t: seq<Option<string>>)
    ensures t <= dense && forall i :: |t| <= i < |dense| ==> dense[i] == None
    ensures t == [] || t[|t| - 1].Some?
  {
    if dense != [] && dense[|dense| - 1] == None then Trimmed(dense[..|dense| - 1]) else dense
  }

  function InsertedDense(h: Hybrid, index: nat, value: string): Hybrid {
    var counted := if index in h.sparse then (if h.len > 0 then h.len - 1 else 0) else h.len;
    var dense := if index < |h.dense| then h.dense else h.dense + Padding(index + 1 - |h.dense|);
    Hybrid(dense[index := Some(value)], h.sparse - {index}, if dense[index] == None then counted + 1 else counted)
  }

  function Inserted(h: Hybrid, index: int, value: string): Hybrid {
    if index == |h.dense| && index < MAX_DENSE_LEN then
      Hybrid(h.dense + [Some(value)], h.sparse, h.len + 1)
    else if StoresDense(h, index) then InsertedDense(h, index, value)
    else Hybrid(Trimmed(h.dense), h.sparse[index := value], if index in h.sparse then h.len else h.len + 1)
  }

  function Removed(h: Hybrid, index: int): Hybrid {
    var less := if h.len > 0 then h.len - 1 else 0;
    if InDense(h, index) && h.dense[index].Some? then Hybrid(Trimmed(h.dense[index := None]), h.sparse, less)
    else if index in h.sparse then Hybrid(h.dense, h.sparse - {index}, less)
    else h
  }

  // ----- the map an array denotes

  function DenseMap(dense: seq<Option<string>>): (m: map<int, string>)
    ensures forall k :: k in m <==> 0 <= k < |dense| && dense[k].Some?
    ensures forall k :: k in m ==> m[k] == dense[k].value
  {
    map k: int | 0 <= k < |dense| && dense[k].Some? :: dense[k].value
  }

  lemma DenseMapSnoc(dense: seq<Option<string>>, x: Option<string>)
    ensures DenseMap(dense + [x]) == if x.Some? then DenseMap(dense)[|dense| := x.value] else DenseMap(dense)
  {}

  /** The elements a lookup can find. */
  function Contents(h: Hybrid): (m: map<int, string>)
    ensures forall k :: k in m <==> Lookup(h, k).Some?
    ensures forall k :: k in m ==> m[k] == Lookup(h, k).value
  {
    var hidden := set k | k in h.sparse && InDense(h, k);
    (h.sparse - hidden) + DenseMap(h.dense)
  }

  /** No sparse element is behind the dense part. */
  ghost predicate NothingHidden(h: Hybrid) {
    forall k :: k in h.sparse ==> !InDense(h, k)
  }

  /** Nothing is hidden and the count is right. */
  ghost predicate Sound(h: Hybrid) {
    NothingHidden(h) && h.len == |Contents(h)|
  }

  /** The insertion would grow the dense part over an element of the sparse part. */
  predicate Collides(h: Hybrid, index: int) {
    && StoresDense(h, index) && index >= |h.dense|
    && if index == |h.dense| then index in h.sparse else exists k :: k in h.sparse && |h.dense| <= k < index
  }

  lemma Inhabited(s: set<int>)
    ensures s == {} || exists k :: k in s
  {
    if forall k :: k !in s { assert s == {}; }
  }

  lemma SizeOfUpdate(m: map<int, string>, k: int, v: string)
    ensures |m[k := v]| == if k in m then |m| else |m| + 1
  {
    assert m[k := v].Keys == m.Keys + {k};
  }

  lemma SizeOfRemoval(m: map<int, string>, k: int)
    requires k in m
    ensures |m - {k}| == |m| - 1
  {
    assert (m - {k}).Keys == m.Keys - {k};
  }

  lemma InsertLookup(h: Hybrid, index: int, value: string, k: int)
    requires NothingHidden(h) && !Collides(h, index)
    ensures var h' := Inserted(h, index, value);
            && Lookup(h', k) == (if k == index then Some(value) else Lookup(h, k))
            && (k in h'.sparse ==> !InDense(h', k))
  {
    var h' := Inserted(h, index, value);
    if !(index == |h.dense| && index < MAX_DENSE_LEN) && StoresDense(h, index) {
      assert k in h.sparse && k != index ==> !(|h.dense| <= k < index);
    }
  }

  lemma InsertCount(h: Hybrid, index: int, value: string)
    requires Sound(h) && !Collides(h, index)
    ensures Inserted(h, index, value).len == if index in Contents(h) then h.len else h.len + 1
  {
    if index in Contents(h) {
      assert h.len > 0 by { assert Contents(h) != map[]; }
    }
  }

  lemma ContentsAre(h: Hybrid, m: map<int, string>)
    requires forall k :: Lookup(h, k) == if k in m then Some(m[k]) else None
    ensures Contents(h) == m
  {}

  lemma InsertSound(h: Hybrid, index: int, value: string)
    requires Sound(h) && !Collides(h, index)
    ensures Sound(Inserted(h, index, value)) && Contents(Inserted(h, index, value)) == Contents(h)[index := value]
  {
    var h' := Inserted(h, index, value);
    var m := Contents(h)[index := value];
    forall k ensures Lookup(h', k) == (if k in m then Some(m[k]) else None)
                     && (k in h'.sparse ==> !InDense(h', k)) {
      InsertLookup(h, index, value, k);
    }
    ContentsAre(h', m);
    InsertCount(h, index, value);
    SizeOfUpdate(Contents(h), index, value);
  }

  /** Appending to the dense part next to a sparse element of the same index counts it twice. */
  lemma AppendCountsTwice(h: Hybrid, index: int, value: string)
    requires Sound(h) && index == |h.dense| < MAX_DENSE_LEN && index in h.sparse
    ensures Inserted(h, index, value).len == |Contents(Inserted(h, index, value))| + 1
  {
    var h' := Inserted(h, index, value);
    assert h' == Hybrid(h.dense + [Some(value)], h.sparse, h.len + 1);
    assert |Contents(h')| == h.len by {
      AppendContents(h, value);
      SizeOfUpdate(Contents(h), index, value);
      assert Lookup(h, index).Some?;
    }
  }

  lemma AppendContents(h: Hybrid, value: string)
    ensures Contents(Hybrid(h.dense + [Some(value)], h.sparse, h.len + 1)) == Contents(h)[|h.dense| := value]
  {
    var h' := Hybrid(h.dense + [Some(value)], h.sparse, h.len + 1);
    var m := Contents(h)[|h.dense| := value];
    forall k ensures Lookup(h', k) == if k in m then Some(m[k]) else None {
      assert k in Contents(h) <==> Lookup(h, k).Some?;
    }
    ContentsAre(h', m);
  }

  /** Growing the dense part over a sparse element hides it from every lookup. */
  lemma GrowthHides(h: Hybrid, index: int, value: string, k: int)
    requires NothingHidden(h) && StoresDense(h, index) && k in h.sparse && |h.dense| <= k < index
    ensures Lookup(h, k).Some? && Lookup(Inserted(h, index, value), k) == None
  {}

  lemma InsertUnsound(h: Hybrid, index: int, value: string)
    requires Sound(h) && Collides(h, index)
    ensures var h' := Inserted(h, index, value);
            Contents(h') != Contents(h)[index := value] || h'.len != |Contents(h')|
  {
    if index == |h.dense| {
      AppendCountsTwice(h, index, value);
    } else {
      var k :| k in h.sparse && |h.dense| <= k < index;
      GrowthHides(h, index, value, k);
      assert k in Contents(h)[index := value] && k !in Contents(Inserted(h, index, value));
    }
  }

  /** Insertion is the map update, in contents and count, exactly when it does not collide. */
  lemma InsertExact(h: Hybrid, index: int, value: string)
    requires Sound(h)
    ensures var h' := Inserted(h, index, value);
            (Contents(h') == Contents(h)[index := value] && h'.len == |Contents(h')|) <==> !Collides(h, index)
  {
    if Collides(h, index) { InsertUnsound(h, index, value); } else { InsertSound(h, index, value); }
  }

  lemma RemoveLookup(h: Hybrid, index: int, k: int)
    requires NothingHidden(h)
    ensures var h' := Removed(h, index);
            && Lookup(h', k) == (if k == index then None else Lookup(h, k))
            && (k in h'.sparse ==> !InDense(h', k))
  {
    assert k in h.sparse ==> !InDense(h, k);
    assert index in h.sparse ==> !InDense(h, index);
    if InDense(h, index) && h.dense[index].Some? {
      var d := h.dense[index := None];
      var t := Trimmed(d);
      assert InDense(h, k) ==> if k < |t| then t[k] == d[k] else d[k] == None;
    }
  }

  lemma RemoveSound(h: Hybrid, index: int)
    requires Sound(h)
    ensures Sound(Removed(h, index)) && Contents(Removed(h, index)) == Contents(h) - {index}
  {
    var h' := Removed(h, index);
    var m := Contents(h) - {index};
    forall k ensures Lookup(h', k) == (if k in m then Some(m[k]) else None)
                     && (k in h'.sparse ==> !InDense(h', k)) {
      RemoveLookup(h, index, k);
    }
    ContentsAre(h', m);
    if index in Contents(h) {
      SizeOfRemoval(Contents(h), index);
    } else {
      assert h' == h;
    }
  }

  // ----- whole runs

  datatype Op = Set(index: int, value: string) | Unset(index: int)

  function Apply(h: Hybrid, op: Op): Hybrid {
    match op
    case Set(i, v) => Inserted(h, i, v)
    case Unset(i) => Removed(h, i)
  }

  function ApplyToMap(m: map<int, string>, op: Op): map<int, string> {
    match op
    case Set(i, v) => m[i := v]
    case Unset(i) => m - {i}
  }

  function Run(h: Hybrid, ops: seq<Op>): Hybrid {
    if ops == [] then h else Apply(Run(h, ops[..|ops| - 1]), ops[|ops| - 1])
  }

  function RunMap(m: map<int, string>, ops: seq<Op>): map<int, string> {
    if ops == [] then m else ApplyToMap(RunMap(m, ops[..|ops| - 1]), ops[|ops| - 1])
  }

  /** No insertion of the run collides with the state it meets. */
  ghost predicate NeverCollides(h: Hybrid, ops: seq<Op>) {
    forall n :: 0 <= n < |ops| && ops[n].Set? ==> !Collides(Run(h, ops[..n]), ops[n].index)
  }

  /** A run without collisions keeps the array equal to the map it stands for. */
  lemma {:induction false} RunExact(h: Hybrid, ops: seq<Op>)
    requires Sound(h) && NeverCollides(h, ops)
    ensures Sound(Run(h, ops)) && Contents(Run(h, ops)) == RunMap(Contents(h), ops)
  {
    if ops != [] {
      var init, last := ops[..|ops| - 1], ops[|ops| - 1];
      forall n | 0 <= n < |init| && init[n].Set? ensures !Collides(Run(h, init[..n]), init[n].index) {
        assert init[..n] == ops[..n] && init[n] == ops[n];
      }
      RunExact(h, init);
      var g := Run(h, init);
      match last {
        case Set(i, v) => InsertSound(g, i, v);
        case Unset(i) => RemoveSound(g, i);
      }
    }
  }

  /** Runs over indices up to the dense gap never touch the sparse part, so they never collide. */
  lemma {:induction false} SmallIndicesStayDense(ops: seq<Op>)
    requires forall n :: 0 <= n < |ops| ==> 0 <= ops[n].index <= MAX_DENSE_GAP
    ensures Run(EMPTY, ops).sparse == map[]
    ensures NeverCollides(EMPTY, ops)
  {
    forall n | 0 <= n < |ops| ensures Run(EMPTY, ops[..n]).sparse == map[] {
      SmallIndicesStayDense(ops[..n]);
    }
    if ops != [] {
      assert StoresDense(Run(EMPTY, ops[..|ops| - 1]), ops[|ops| - 1].index);
    }
  }

  /** What ascending insertions into an empty array keep: every sparse index is out of the dense part's reach. */
  ghost predicate OutOfReach(h: Hybrid, below: int) {
    && (forall k :: k in h.sparse && k >= 0 ==> k >= MAX_DENSE_LEN || k > |h.dense| + MAX_DENSE_GAP)
    && (forall k :: k in h.sparse ==> k < below)
    && (h.dense != [] ==> |h.dense| <= below)
  }

  function Inserts(pairs: seq<(int, string)>): seq<Op> {
    seq(|pairs|, i requires 0 <= i < |pairs| => Set(pairs[i].0, pairs[i].1))
  }

  lemma InsertStaysOut(g: Hybrid, index: int, value: string)
    requires OutOfReach(g, index + 1)
    ensures !Collides(g, index) && OutOfReach(Inserted(g, index, value), index + 1)
  {}

  /** Insertions in ascending order, as the write-back and array restores make them, never collide. */
  lemma {:induction false} AscendingNeverCollides(pairs: seq<(int, string)>)
    requires S.Ascending(pairs, S.IntLe)
    ensures NeverCollides(EMPTY, Inserts(pairs))
    ensures pairs != [] ==> OutOfReach(Run(EMPTY, Inserts(pairs)), pairs[|pairs| - 1].0 + 1)
    ensures pairs == [] ==> Run(EMPTY, Inserts(pairs)) == EMPTY
  {
    if pairs != [] {
      var init, last := pairs[..|pairs| - 1], pairs[|pairs| - 1];
      AscendingNeverCollides(init);
      var ops := Inserts(pairs);
      assert ops[..|ops| - 1] == Inserts(init);
      var g := Run(EMPTY, Inserts(init));
      assert OutOfReach(g, last.0 + 1) by {
        if init != [] {
          assert S.IntLe(init[|init| - 1].0, last.0) by { assert init[|init| - 1] == pairs[|pairs| - 2]; }
        }
      }
      InsertStaysOut(g, last.0, last.1);
      forall n | 0 <= n < |ops| ensures !Collides(Run(EMPTY, ops[..n]), ops[n].index) {
        if n < |ops| - 1 { assert ops[..n] == Inserts(init)[..n] && ops[n] == Inserts(init)[n]; }
      }
    }
  }

  /** So rebuilding an array from entries in order gives the map they denote; of equal indices the last counts. */
  lemma RebuildExact(pairs: seq<(int, string)>)
    requires S.Ascending(pairs, S.IntLe)
    ensures Sound(Run(EMPTY, Inserts(pairs))) && Contents(Run(EMPTY, Inserts(pairs))) == S.ToMap(pairs)
  {
    AscendingNeverCollides(pairs);
    assert Contents(EMPTY) == map[];
    RunExact(EMPTY, Inserts(pairs));
    RunMapIsToMap(pairs);
  }

  lemma {:induction false} RunMapIsToMap(pairs: seq<(int, string)>)
    ensures RunMap(map[], Inserts(pairs)) == S.ToMap(pairs)
  {
    if pairs != [] {
      RunMapIsToMap(pairs[..|pairs| - 1]);
      assert Inserts(pairs)[..|pairs| - 1] == Inserts(pairs[..|pairs| - 1]);
    }
  }

  /** `a[1500]=x a[600]=y a[1600]=z` loses `a[1500]`, though three elements are still counted. */
  lemma ElementLost()
    ensures var h := Run(EMPTY, [Set(1500, "x"), Set(600, "y"), Set(1600, "z")]);
            Lookup(h, 1500) == None && h.len == 3 && h.sparse == map[1500 := "x"]
  {
    var ops := [Set(1500, "x"), Set(600, "y"), Set(1600, "z")];
    assert ops[..2][..1] == [Set(1500, "x")] && ops[..1] == [Set(1500, "x")] && ops[..0] == [];
    var a := Inserted(EMPTY, 1500, "x");
    var b := Inserted(a, 600, "y");
    var c := Inserted(b, 1600, "z");
    assert Run(EMPTY, ops[..1]) == a by { assert ops[..1][..0] == []; }
    assert Run(EMPTY, ops[..2]) == b by { assert ops[..2][..1] == ops[..1]; }
    assert Run(EMPTY, ops) == c;
    assert a == Hybrid([], map[1500 := "x"], 1);
    assert |b.dense| == 601 && b.sparse == map[1500 := "x"] && b.len == 2;
    assert |c.dense| == 1601 && c.dense[1500] == None && c.len == 3;
  }

  // ----- what listing an array yields

  /** The elements of both parts; of an index in both, the sparse one. */
  function Listed(h: Hybrid): map<int, string> {
    DenseMap(h.dense) + h.sparse
  }

  /** Every sparse index inside the dense part has the same value there. */
  predicate HiddenAgree(h: Hybrid) {
    forall k :: k in h.sparse && InDense(h, k) ==> h.dense[k] == Some(h.sparse[k])
  }

  /** A listing agrees with lookup if and only if nothing hidden differs. */
  lemma ListedExactly(h: Hybrid)
    ensures Listed(h) == Contents(h) <==> HiddenAgree(h)
  {
    if HiddenAgree(h) {
      assert forall k :: k in Listed(h) <==> k in Contents(h);
      assert forall k :: k in Listed(h) ==> Listed(h)[k] == Contents(h)[k];
    } else {
      var k :| k in h.sparse && InDense(h, k) && h.dense[k] != Some(h.sparse[k]);
      assert k in Listed(h) && Listed(h)[k] == h.sparse[k];
      assert k in Contents(h) ==> Contents(h)[k] != h.sparse[k];
    }
  }

  /** The element that lookup lost is listed. */
  lemma LostElementListed()
    ensures var h := Run(EMPTY, [Set(1500, "x"), Set(600, "y"), Set(1600, "z")]);
            1500 !in Contents(h) && 1500 in Listed(h) && Listed(h)[1500] == "x"
  {
    var h := Run(EMPTY, [Set(1500, "x"), Set(600, "y"), Set(1600, "z")]);
    ElementLost();
    assert h.sparse == map[1500 := "x"];
  }

  /** What a listing is: all elements of both parts, in index order, the sparse one last of two. */
  ghost predicate Lists(h: Hybrid, entries: seq<(int, string)>) {
    && S.Ascending(entries, S.IntLe) && S.ToMap(entries) == Listed(h)
    && |entries| == |DenseMap(h.dense)| + |h.sparse|
    && forall e :: e in entries ==>
         (e.0 in DenseMap(h.dense) && DenseMap(h.dense)[e.0] == e.1)
         || (e.0 in h.sparse && h.sparse[e.0] == e.1)
  }

  // ----- the array itself

  class Array {
    var dense: seq<Option<string>>
    var sparse: map<int, string>
    var len: nat

    ghost function State(): Hybrid
      reads this
    {
      Hybrid(dense, sparse, len)
    }

    constructor ()
      ensures State() == EMPTY
    {
      dense, sparse, len := [], map[], 0;
    }

    method Get(index: int) returns (value: Option<string>)
      ensures value == if index in Contents(State()) then Some(Contents(State())[index]) else None
    {
      if 0 <= index < |dense| { return dense[index]; }
      value := if index in sparse then Some(sparse[index]) else None;
    }

    method TrimDenseTail()
      modifies this`dense
      ensures dense == Trimmed(old(dense))
    {
      while dense != [] && dense[|dense| - 1] == None
        invariant Trimmed(dense) == Trimmed(old(dense))
        decreases |dense|
      {
        dense := dense[..|dense| - 1];
      }
    }

    method Insert(index: int, value: string)
      modifies this
      ensures State() == Inserted(old(State()), index, value)
    {
      if index == |dense| && index < MAX_DENSE_LEN {
        dense := dense + [Some(value)];
        len := len + 1;
        return;
      }
      if StoresDense(Hybrid(dense, sparse, len), index) {
        if index in sparse {
          sparse := sparse - {index};
          len := if len > 0 then len - 1 else 0;
        } else {
          assert sparse - {index} == sparse;
        }
        if index >= |dense| { dense := dense + Padding(index + 1 - |dense|); }
        if dense[index] == None { len := len + 1; }
        dense := dense[index := Some(value)];
        return;
      }
      if index !in sparse { len := len + 1; }
      sparse := sparse[index := value];
      TrimDenseTail();
    }

    /** Returns the element a lookup sees, or else a hidden one, or nothing. */
    method Remove(index: int) returns (removed: Option<string>)
      modifies this
      ensures State() == Removed(old(State()), index)
      ensures index in old(Contents(State())) ==> removed == Some(old(Contents(State()))[index])
      ensures index !in old(Contents(State())) ==>
                removed == if index in old(sparse) then Some(old(sparse)[index]) else None
    {
      if 0 <= index < |dense| && dense[index].Some? {
        removed := dense[index];
        dense := dense[index := None];
        len := if len > 0 then len - 1 else 0;
        TrimDenseTail();
        return;
      }
      removed := None;
      if index in sparse {
        removed := Some(sparse[index]);
        sparse := sparse - {index};
        len := if len > 0 then len - 1 else 0;
      }
    }

    method DenseMax() returns (max: Option<int>)
      ensures max == None ==> forall j :: 0 <= j < |dense| ==> dense[j] == None
      ensures max.Some? ==> 0 <= max.value < |dense| && dense[max.value].Some?
      ensures max.Some? ==> forall j :: max.value < j < |dense| ==> dense[j] == None
    {
      for i := |dense| downto 0
        invariant forall j :: i <= j < |dense| ==> dense[j] == None
      {
        if dense[i].Some? { return Some(i); }
      }
      max := None;
    }

    method SparseMax() returns (max: Option<int>)
      ensures max == None ==> sparse == map[]
      ensures max.Some? ==> max.value in sparse && forall j :: j in sparse ==> j <= max.value
    {
      max := None;
      var rest: set<int> := sparse.Keys;
      while rest != {}
        invariant rest <= sparse.Keys
        invariant max == None ==> rest == sparse.Keys
        invariant max.Some? ==> max.value in sparse
        invariant max.Some? ==> forall j :: j in sparse && j !in rest ==> j <= max.value
        decreases rest
      {
        Inhabited(rest);
        var k :| k in rest;
        rest := rest - {k};
        if max == None || k > max.value { max := Some(k); }
      }
    }

    /** The largest index that would be listed, hidden or not. */
    method MaxIndex() returns (max: Option<int>)
      ensures max == None <==> Listed(State()) == map[]
      ensures max.Some? ==> max.value in Listed(State()) && forall j :: j in Listed(State()) ==> j <= max.value
    {
      var d := DenseMax();
      var s := SparseMax();
      max := if d == None || (s.Some? && s.value > d.value) then s else d;
      assert d == None ==> DenseMap(dense) == map[];
      assert max.Some? ==> max.value in Listed(State());
    }

    method DenseEntries() returns (entries: seq<(int, string)>)
      ensures S.DistinctKeys(entries) && S.Ascending(entries, S.IntLe) && S.ToMap(entries) == DenseMap(dense)
    {
      entries := [];
      for i := 0 to |dense|
        invariant S.DistinctKeys(entries) && S.Ascending(entries, S.IntLe)
        invariant forall n :: 0 <= n < |entries| ==> entries[n].0 < i
        invariant S.ToMap(entries) == DenseMap(dense[..i])
      {
        assert dense[..i + 1] == dense[..i] + [dense[i]];
        DenseMapSnoc(dense[..i], dense[i]);
        if dense[i].Some? {
          Appended(entries, i, dense[i].value);
          entries := entries + [(i, dense[i].value)];
        }
      }
      assert dense[..|dense|] == dense;
    }

    /** The sparse elements, in any order. */
    method SparseEntries() returns (entries: seq<(int, string)>)
      ensures S.DistinctKeys(entries) && S.ToMap(entries) == sparse
    {
      entries := [];
      var rest: set<int> := sparse.Keys;
      ghost var done: map<int, string> := map[];
      while rest != {}
        invariant rest <= sparse.Keys && done.Keys == sparse.Keys - rest
        invariant forall k :: k in done ==> done[k] == sparse[k]
        invariant S.DistinctKeys(entries) && S.ToMap(entries) == done
        decreases rest
      {
        Inhabited(rest);
        var k :| k in rest;
        rest := rest - {k};
        Appended(entries, k, sparse[k]);
        entries := entries + [(k, sparse[k])];
        done := done[k := sparse[k]];
      }
      assert sparse.Keys - rest == sparse.Keys;
      SameMap(done, sparse);
    }

    /** Every element of both parts, in index order. */
    method All() returns (entries: seq<(int, string)>)
      ensures Lists(State(), entries)
    {
      var low := DenseEntries();
      var high := SparseEntries();
      BothListed(State(), low, high);
      if sparse == map[] { return low; }
      S.SortByKeyDenotes(low + high);
      entries := S.SortByKey(low + high);
    }
  }

  /** Entries that denote a map hold its values and are as many as it has. */
  lemma EntriesOfMap(s: seq<(int, string)>, m: map<int, string>)
    requires S.DistinctKeys(s) && S.ToMap(s) == m
    ensures |s| == |m| && forall e :: e in s ==> e.0 in m && m[e.0] == e.1
  {
    S.ToMapSize(s);
    forall e | e in s ensures e.0 in m && m[e.0] == e.1 {
      var n :| 0 <= n < |s| && s[n] == e;
      S.ToMapEntry(s, n);
    }
  }

  lemma BothListed(h: Hybrid, low: seq<(int, string)>, high: seq<(int, string)>)
    requires S.DistinctKeys(low) && S.Ascending(low, S.IntLe) && S.ToMap(low) == DenseMap(h.dense)
    requires S.DistinctKeys(high) && S.ToMap(high) == h.sparse
    ensures S.ToMap(low + high) == Listed(h) && |low + high| == |DenseMap(h.dense)| + |h.sparse|
    ensures forall e :: e in low + high ==>
              (e.0 in DenseMap(h.dense) && DenseMap(h.dense)[e.0] == e.1) || (e.0 in h.sparse && h.sparse[e.0] == e.1)
    ensures h.sparse == map[] ==> Lists(h, low)
  {
    S.ToMapConcat(low, high);
    EntriesOfMap(low, DenseMap(h.dense));
    EntriesOfMap(high, h.sparse);
    if h.sparse == map[] { assert DenseMap(h.dense) + h.sparse == DenseMap(h.dense); }
  }

  lemma SameMap(a: map<int, string>, b: map<int, string>)
    requires a.Keys == b.Keys && forall k :: k in a.Keys ==> a[k] == b[k]
    ensures a == b
  {
    assert forall k :: k in a ==> k in b && a[k] == b[k];
  }

  lemma Appended(s: seq<(int, string)>, k: int, v: string)
    requires S.DistinctKeys(s) && k !in S.ToMap(s)
    ensures S.DistinctKeys(s + [(k, v)]) && S.ToMap(s + [(k, v)]) == S.ToMap(s)[k := v]
  {
    S.ToMapKeys(s);
    assert (s + [(k, v)])[..|s|] == s;
  }
}

/** Variables lent to a loadable builtin and written back: attribute flags, then elements. */
module Sync {
  import A = AbiArray
  import Ascii
  import H = AbiAssoc
  import I = IndexedArray
  import opened ApplyAssignment
  import opened CText
  import opened Environment
  import opened Option
  import S = SortedMap
  import opened Variables

  // ---- Attribute flags, as sets of bit positions

  /** The nine attributes that have a flag, with the position of its bit. */
  const TABLE: seq<(nat, Attr)> := [
    (0, Export), (1, Readonly), (4, Integer), (5, Local), (7, Trace), (8, Uppercase),
    (9, Lowercase), (10, Capcase), (11, Nameref)]

  const MAPPED: set<Attr> := {Export, Readonly, Integer, Local, Trace, Uppercase, Lowercase, Capcase, Nameref}

  const ARRAY_BIT: nat := 2
  const ASSOC_BIT: nat := 6

  function BitOf(attr: Attr): nat {
    match attr
    case Export => 0
    case Readonly => 1
    case ArrayAttr => ARRAY_BIT
    case Integer => 4
    case Local => 5
    case AssocAttr => ASSOC_BIT
    case Trace => 7
    case Uppercase => 8
    case Lowercase => 9
    case Capcase => 10
    case Nameref => 11
  }

  const BITS: set<nat> := {0, 1, 2, 4, 5, 6, 7, 8, 9, 10, 11}

  /** Whether a variable sets the flag at a position: its kind decides the two array bits, its attributes the others. */
  predicate Sets(kind: Kind, attrs: set<Attr>, n: nat) {
    match n
    case 0 => Export in attrs
    case 1 => Readonly in attrs
    case 2 => kind == Indexed
    case 4 => Integer in attrs
    case 5 => Local in attrs
    case 6 => kind == Assoc
    case 7 => Trace in attrs
    case 8 => Uppercase in attrs
    case 9 => Lowercase in attrs
    case 10 => Capcase in attrs
    case 11 => Nameref in attrs
    case _ => false
  }

  function Flags(kind: Kind, attrs: set<Attr>): set<nat> {
    set n | n in BITS && Sets(kind, attrs, n)
  }

  lemma FlagsAre(kind: Kind, attrs: set<Attr>)
    ensures forall a :: a in MAPPED ==> (BitOf(a) in Flags(kind, attrs) <==> a in attrs)
    ensures ARRAY_BIT in Flags(kind, attrs) <==> kind == Indexed
    ensures ASSOC_BIT in Flags(kind, attrs) <==> kind == Assoc
  {
    forall a | a in MAPPED ensures BitOf(a) in Flags(kind, attrs) <==> a in attrs {
      assert BitOf(a) in BITS && (Sets(kind, attrs, BitOf(a)) <==> a in attrs);
    }
  }

  method Attributes(flags: set<nat>) returns (attrs: set<Attr>)
    ensures attrs <= MAPPED && forall a :: a in MAPPED ==> (a in attrs <==> BitOf(a) in flags)
  {
    attrs := {};
    for n := 0 to |TABLE|
      invariant forall a :: a in attrs <==> exists k :: 0 <= k < n && TABLE[k].1 == a && TABLE[k].0 in flags
    {
      if TABLE[n].0 in flags { attrs := attrs + {TABLE[n].1}; }
    }
    TableIsBits();
  }

  lemma TableIsBits()
    ensures forall k :: 0 <= k < |TABLE| ==> TABLE[k].1 in MAPPED && TABLE[k].0 == BitOf(TABLE[k].1)
    ensures forall a :: a in MAPPED ==> exists k :: 0 <= k < |TABLE| && TABLE[k].1 == a
  {
    assert TABLE[0].1 == Export && TABLE[1].1 == Readonly && TABLE[2].1 == Integer && TABLE[3].1 == Local;
    assert TABLE[4].1 == Trace && TABLE[5].1 == Uppercase && TABLE[6].1 == Lowercase;
    assert TABLE[7].1 == Capcase && TABLE[8].1 == Nameref;
  }

  /** The nine attributes come back from the flags as they went in, whatever the kind. */
  method FlagsRoundTrip(kind: Kind, attrs: set<Attr>) returns (back: set<Attr>)
    ensures back == attrs * MAPPED
  {
    FlagsAre(kind, attrs);
    back := Attributes(Flags(kind, attrs));
  }

  // ---- Writing attributes back

  const RESTORED: seq<Attr> := [Export, Readonly, Integer, Uppercase, Lowercase, Capcase, Trace, Nameref, Local]

  function RestoreEach(b: Binding, attrs: set<Attr>, list: seq<Attr>): Binding {
    if list == [] then b
    else
      var last := list[|list| - 1];
      WithAttr(RestoreEach(b, attrs, list[..|list| - 1]), last, last in attrs)
  }

  /** One attribute written back. */
  lemma AttrSet(b: Binding, a: Attr, on: bool)
    requires a != ArrayAttr && a != AssocAttr
    ensures var r := WithAttr(b, a, on);
            && r.entry.Some? && r.indexed == b.indexed && r.assoc == b.assoc
            && AttrsOf(r) == (if on then AttrsOf(b) + {a} else AttrsOf(b) - {a})
            && (a != Nameref ==> r.nameref == b.nameref) && (a == Nameref && !on ==> r.nameref == None)
  {}

  predicate WantedAttr(b: Binding, attrs: set<Attr>, list: seq<Attr>, a: Attr) {
    if a in list then a in attrs else a in AttrsOf(b)
  }

  /** The attributes are the wanted ones; nothing else is touched. */
  ghost predicate Restored(b: Binding, attrs: set<Attr>, list: seq<Attr>, r: Binding) {
    && (list != [] ==> r.entry.Some?) && r.indexed == b.indexed && r.assoc == b.assoc
    && (forall a :: a in AttrsOf(r) <==> WantedAttr(b, attrs, list, a))
    && (Nameref !in attrs && Nameref in list ==> r.nameref == None)
  }

  lemma RestoredSnoc(b: Binding, attrs: set<Attr>, init: seq<Attr>, last: Attr, r: Binding)
    requires Restored(b, attrs, init, r) && last != ArrayAttr && last != AssocAttr
    ensures Restored(b, attrs, init + [last], WithAttr(r, last, last in attrs))
  {
    AttrSet(r, last, last in attrs);
    var list := init + [last];
    forall a ensures a in AttrsOf(WithAttr(r, last, last in attrs)) <==> WantedAttr(b, attrs, list, a) {
      assert a in list <==> a in init || a == last;
      assert a in AttrsOf(r) <==> WantedAttr(b, attrs, init, a);
    }
  }

  lemma {:induction false} RestoreEachSets(b: Binding, attrs: set<Attr>, list: seq<Attr>)
    requires ArrayAttr !in list && AssocAttr !in list
    ensures Restored(b, attrs, list, RestoreEach(b, attrs, list))
  {
    if list != [] {
      var init, last := list[..|list| - 1], list[|list| - 1];
      assert list == init + [last];
      RestoreEachSets(b, attrs, init);
      RestoredSnoc(b, attrs, init, last, RestoreEach(b, attrs, init));
    }
  }

  function RestoreAll(b: Binding, attrs: set<Attr>): Binding { RestoreEach(b, attrs, RESTORED) }

  lemma RestoredAreMapped()
    ensures forall a :: a in RESTORED <==> a in MAPPED
  {
    assert RESTORED[0] == Export && RESTORED[1] == Readonly && RESTORED[2] == Integer && RESTORED[3] == Uppercase;
    assert RESTORED[4] == Lowercase && RESTORED[5] == Capcase && RESTORED[6] == Trace && RESTORED[7] == Nameref;
    assert RESTORED[8] == Local;
  }

  lemma RestoreListSets(b: Binding, attrs: set<Attr>, list: seq<Attr>)
    requires list != [] && forall a :: a in list <==> a in MAPPED
    ensures var r := RestoreEach(b, attrs, list);
            && r.entry.Some? && r.indexed == b.indexed && r.assoc == b.assoc
            && AttrsOf(r) == (AttrsOf(b) - MAPPED) + attrs * MAPPED
            && (Nameref !in attrs ==> r.nameref == None)
  {
    RestoreEachSets(b, attrs, list);
    var r := RestoreEach(b, attrs, list);
    forall a ensures a in AttrsOf(r) <==> a in (AttrsOf(b) - MAPPED) + attrs * MAPPED {
      assert a in AttrsOf(r) <==> WantedAttr(b, attrs, list, a);
    }
  }

  /** Writing attributes back sets the nine, and touches no element. */
  lemma RestoreSets(b: Binding, attrs: set<Attr>)
    ensures var r := RestoreAll(b, attrs);
            && r.entry.Some? && r.indexed == b.indexed && r.assoc == b.assoc
            && AttrsOf(r) == (AttrsOf(b) - MAPPED) + attrs * MAPPED
            && (Nameref !in attrs ==> r.nameref == None)
  {
    RestoredAreMapped();
    RestoreListSets(b, attrs, RESTORED);
  }

  method RestoreList(shell: Shell, x: string, attrs: set<Attr>, list: seq<Attr>)
    requires list != []
    modifies shell
    ensures shell.env == Put(old(shell.env), x, RestoreEach(Get(old(shell.env), x), attrs, list))
  {
    ghost var b := Get(shell.env, x);
    for n := 0 to |list|
      invariant n == 0 ==> shell.env == old(shell.env)
      invariant n > 0 ==> shell.env == Put(old(shell.env), x, RestoreEach(b, attrs, list[..n]))
    {
      ghost var done := RestoreEach(b, attrs, list[..n]);
      assert Get(shell.env, x) == done;
      assert list[..n + 1][..n] == list[..n];
      shell.SetAttr(x, list[n], list[n] in attrs, false);
      WriteTwice(old(shell.env), x, done, WithAttr(done, list[n], list[n] in attrs), false);
    }
    assert list[..|list|] == list;
  }

  method RestoreAttributes(shell: Shell, x: string, attrs: set<Attr>)
    modifies shell
    ensures shell.env == Put(old(shell.env), x, RestoreAll(Get(old(shell.env), x), attrs))
  {
    RestoreList(shell, x, attrs, RESTORED);
  }

  // ---- Indexed arrays

  function SyncedIndexed(b: Binding, pairs: seq<(int, string)>, attrs: set<Attr>): Binding {
    RestoreAll(FillElements(WithArray(b, []), pairs), attrs)
  }

  lemma NoCase(v: string)
    ensures Recase(v, {ArrayAttr}) == v
  {}

  lemma EmptyArray(b: Binding)
    ensures WithArray(b, []).indexed == Some(I.EMPTY)
  {
    var none: seq<string> := [];
    var recased := seq(|none|, i requires 0 <= i < |none| => Recase(none[i], AttrsOf(b)));
    assert recased == [];
    assert I.FromValues(recased).dense == [];
  }

  lemma {:induction false} FilledIs(b: Binding, pairs: seq<(int, string)>)
    ensures var r := FillElements(WithArray(b, []), pairs);
            r.indexed == Some(I.Run(I.EMPTY, I.Inserts(pairs))) && AttrsOf(r) == {ArrayAttr} && r.nameref == b.nameref
  {
    if pairs == [] {
      assert I.Inserts(pairs) == [];
      EmptyArray(b);
    } else {
      var n := |pairs| - 1;
      FilledIs(b, pairs[..n]);
      NoCase(pairs[n].1);
      assert I.Inserts(pairs)[..n] == I.Inserts(pairs[..n]);
    }
  }

  lemma KindIndexed(r: Binding)
    requires r.nameref == None && ArrayAttr in AttrsOf(r) && AssocAttr !in AttrsOf(r)
    ensures KindOf(r) == Indexed
  {}

  lemma IndexedContents(b: Binding, pairs: seq<(int, string)>, attrs: set<Attr>)
    requires S.Ascending(pairs, S.IntLe)
    ensures var r := SyncedIndexed(b, pairs, attrs);
            r.indexed.Some? && I.Sound(r.indexed.value) && I.Contents(r.indexed.value) == S.ToMap(pairs)
  {
    FilledIs(b, pairs);
    I.RebuildExact(pairs);
    RestoreSets(FillElements(WithArray(b, []), pairs), attrs);
  }

  lemma RestoredIndexed(filled: Binding, attrs: set<Attr>)
    requires AttrsOf(filled) == {ArrayAttr}
    ensures AttrsOf(RestoreAll(filled, attrs)) == {ArrayAttr} + attrs * MAPPED
    ensures Nameref !in attrs ==> KindOf(RestoreAll(filled, attrs)) == Indexed
  {
    RestoreSets(filled, attrs);
    assert {ArrayAttr} - MAPPED == {ArrayAttr};
    if Nameref !in attrs { KindIndexed(RestoreAll(filled, attrs)); }
  }

  lemma IndexedAttrs(b: Binding, pairs: seq<(int, string)>, attrs: set<Attr>)
    ensures AttrsOf(SyncedIndexed(b, pairs, attrs)) == {ArrayAttr} + attrs * MAPPED
    ensures Nameref !in attrs ==> KindOf(SyncedIndexed(b, pairs, attrs)) == Indexed
  {
    FilledIs(b, pairs);
    RestoredIndexed(FillElements(WithArray(b, []), pairs), attrs);
  }

  /** Whatever the variable held, it then holds exactly the written elements, with the attributes of the mirror. */
  lemma IndexedExact(b: Binding, pairs: seq<(int, string)>, attrs: set<Attr>)
    requires S.Ascending(pairs, S.IntLe)
    ensures var r := SyncedIndexed(b, pairs, attrs);
            && r.indexed.Some? && I.Sound(r.indexed.value) && I.Contents(r.indexed.value) == S.ToMap(pairs)
            && AttrsOf(r) == {ArrayAttr} + attrs * MAPPED
            && (Nameref !in attrs ==> KindOf(r) == Indexed)
  {
    IndexedContents(b, pairs, attrs);
    IndexedAttrs(b, pairs, attrs);
  }

  method WriteElements(shell: Shell, x: string, values: seq<(int, string)>)
    requires x in shell.env.vars
    modifies shell
    ensures shell.env == Put(old(shell.env), x, FillElements(Get(old(shell.env), x), values))
  {
    ghost var e := shell.env;
    ghost var b := Get(e, x);
    WriteRead(e, x, false);
    for n := 0 to |values|
      invariant shell.env == Put(e, x, FillElements(b, values[..n]))
    {
      assert values[..n + 1][..n] == values[..n];
      WriteTwice(e, x, FillElements(b, values[..n]), FillElements(b, values[..n + 1]), false);
      shell.env := Put(shell.env, x, WithElement(Get(shell.env, x), values[n].0, values[n].1));
    }
    assert values[..|values|] == values;
  }

  method RewriteIndexed(shell: Shell, x: string, values: seq<(int, string)>)
    modifies shell
    ensures shell.env == Put(old(shell.env), x, FillElements(WithArray(Get(old(shell.env), x), []), values))
  {
    ghost var e := shell.env;
    ghost var emptied := WithArray(Get(e, x), []);
    shell.env := Put(shell.env, x, WithArray(Get(shell.env, x), []));
    WriteElements(shell, x, values);
    WriteTwice(e, x, emptied, FillElements(emptied, values), false);
  }

  method SyncValues(shell: Shell, x: string, values: seq<(int, string)>, attrs: set<Attr>)
    modifies shell
    ensures shell.env == Put(old(shell.env), x, SyncedIndexed(Get(old(shell.env), x), values, attrs))
  {
    ghost var e := shell.env;
    RewriteIndexed(shell, x, values);
    ghost var filled := Get(shell.env, x);
    RestoreAttributes(shell, x, attrs);
    WriteTwice(e, x, filled, RestoreAll(filled, attrs), false);
  }

  /** Write-back of a mirrored indexed array. */
  method SyncIndexed(shell: Shell, x: string, mirror: A.AbiArray, flags: set<nat>) returns (attrs: set<Attr>)
    requires mirror.Valid()
    modifies shell
    ensures attrs <= MAPPED && forall a :: a in MAPPED ==> (a in attrs <==> BitOf(a) in flags)
    ensures shell.env == Put(old(shell.env), x, SyncedIndexed(Get(old(shell.env), x), mirror.Values(), attrs))
  {
    var values := mirror.ValuesFromLinks();
    attrs := Attributes(flags);
    SyncValues(shell, x, values, attrs);
  }

  // ---- Lending an indexed array

  /** A variable of indexed kind may have no array yet. */
  function HybridOf(b: Binding): I.Hybrid {
    if b.indexed.Some? then b.indexed.value else I.EMPTY
  }

  /** Sorted and stripped for the mirror, a snapshot still denotes the same elements. */
  lemma SnapshotKept(snapshot: seq<(int, string)>)
    requires A.NulFree(snapshot)
    ensures var values := StripValues(S.SortByKey(snapshot));
            S.Ascending(values, S.IntLe) && S.ToMap(values) == S.ToMap(snapshot)
  {
    S.SortByKeyDenotes(snapshot);
    A.StripIdentity(S.SortByKey(snapshot));
  }

  lemma StrictIsWeak(values: seq<(int, string)>)
    requires S.Ascending(values, S.IntLt)
    ensures S.Ascending(values, S.IntLe)
  {
    forall i, j | 0 <= i < j < |values| ensures S.IntLe(values[i].0, values[j].0) {
      assert S.IntLt(values[i].0, values[j].0);
    }
  }

  /** The mirror of a snapshot after a run of updates. */
  method Mirrored(snapshot: seq<(int, string)>, ops: seq<A.Update>) returns (mirror: A.AbiArray)
    requires A.NulFree(snapshot)
    requires forall n :: 0 <= n < |ops| && ops[n].Set? ==> IsCText(ops[n].value)
    ensures fresh(mirror) && mirror.Valid() && S.Ascending(mirror.Values(), S.IntLe)
    ensures S.ToMap(mirror.Values()) == A.Updated(S.ToMap(snapshot), ops)
  {
    mirror := new A.AbiArray(snapshot);
    SnapshotKept(snapshot);
    A.RunUpdates(mirror, ops);
    if ops != [] { StrictIsWeak(mirror.Values()); }
  }

  /** Attributes that went through the flags come back as the mapped ones. */
  lemma ThroughFlags(kind: Kind, attrs: set<Attr>, back: set<Attr>)
    requires back <= MAPPED && forall a :: a in MAPPED ==> (a in back <==> BitOf(a) in Flags(kind, attrs))
    ensures back == attrs * MAPPED && back * MAPPED == attrs * MAPPED
  {
    FlagsAre(kind, attrs);
  }

  /** A mirror's elements and the lent attributes, written back. */
  method WriteBack(shell: Shell, x: string, mirror: A.AbiArray, attrs: set<Attr>)
    requires mirror.Valid() && S.Ascending(mirror.Values(), S.IntLe)
    modifies shell
    ensures var r := Get(shell.env, x);
            && r.indexed.Some? && I.Contents(r.indexed.value) == S.ToMap(mirror.Values())
            && AttrsOf(r) == {ArrayAttr} + attrs * MAPPED && shell.env == Put(old(shell.env), x, r)
  {
    ghost var b := Get(shell.env, x);
    ghost var values := mirror.Values();
    var back := SyncIndexed(shell, x, mirror, Flags(Indexed, attrs));
    ThroughFlags(Indexed, attrs, back);
    IndexedExact(b, values, back);
  }

  /** A snapshot mirrored, changed and written back. */
  method LendSnapshot(shell: Shell, x: string, snapshot: seq<(int, string)>, ops: seq<A.Update>, attrs: set<Attr>)
    requires A.NulFree(snapshot)
    requires forall n :: 0 <= n < |ops| && ops[n].Set? ==> IsCText(ops[n].value)
    modifies shell
    ensures var r := Get(shell.env, x);
            && r.indexed.Some? && I.Contents(r.indexed.value) == A.Updated(S.ToMap(snapshot), ops)
            && AttrsOf(r) == {ArrayAttr} + attrs * MAPPED && shell.env == Put(old(shell.env), x, r)
  {
    var mirror := Mirrored(snapshot, ops);
    WriteBack(shell, x, mirror, attrs);
  }

  /**
   A variable lent to a builtin, changed by any run of inserts and flushes, and written back when it was changed or
   asked for as changeable: its elements are those a listing of it yields, so changed, and its attributes its own.
   */
  method LendIndexed(shell: Shell, x: string, snapshot: seq<(int, string)>, ops: seq<A.Update>, dirty: bool)
    requires KindOf(Get(shell.env, x)) == Indexed && I.Lists(HybridOf(Get(shell.env, x)), snapshot)
             && A.NulFree(snapshot)
    requires forall n :: 0 <= n < |ops| && ops[n].Set? ==> IsCText(ops[n].value)
    modifies shell
    ensures ops == [] && !dirty ==> shell.env == old(shell.env)
    ensures ops != [] || dirty ==>
      var b, r := Get(old(shell.env), x), Get(shell.env, x);
      && r.indexed.Some? && I.Contents(r.indexed.value) == A.Updated(I.Listed(HybridOf(b)), ops)
      && AttrsOf(r) == {ArrayAttr} + AttrsOf(b) * MAPPED
      && shell.env == Put(old(shell.env), x, r)
  {
    if ops != [] || dirty { LendSnapshot(shell, x, snapshot, ops, AttrsOf(Get(shell.env, x))); }
  }

  lemma OneUpdate(m: map<int, string>, i: int, v: Option<string>)
    ensures A.Updated(m, [A.Set(i, v)]) == m[i := TextOf(v)]
  {
    assert [A.Set(i, v)][..0] == [];
  }

  lemma DiffersAt(l: map<int, string>, c: map<int, string>, k: int, i: int)
    requires k != i && k in l && (k in c ==> c[k] != l[k])
    ensures l[i := ""] != c[i := ""]
  {
    assert k in l[i := ""] && l[i := ""][k] == l[k];
    assert k in c[i := ""] ==> c[i := ""][k] == c[k];
  }

  /**
   Lending yields the same updates of the elements a lookup sees, for all updates, if and only if nothing hidden
   differs.
   */
  lemma LentExactly(h: I.Hybrid)
    ensures (forall ops :: ops != [] ==> A.Updated(I.Listed(h), ops) == A.Updated(I.Contents(h), ops))
            <==> I.HiddenAgree(h)
  {
    I.ListedExactly(h);
    if !I.HiddenAgree(h) {
      var k :| k in h.sparse && I.InDense(h, k) && h.dense[k] != Some(h.sparse[k]);
      var l, c := I.Listed(h), I.Contents(h);
      OneUpdate(l, -1, None);
      OneUpdate(c, -1, None);
      DiffersAt(l, c, k, -1);
      assert A.Updated(l, [A.Set(-1, None)]) != A.Updated(c, [A.Set(-1, None)]);
    }
  }

  /** The array of `ElementLost`, lent and given one more element, has its lost element back. */
  lemma LendingRevives()
    ensures var h := I.Run(I.EMPTY, [I.Set(1500, "x"), I.Set(600, "y"), I.Set(1600, "z")]);
            var r := A.Updated(I.Listed(h), [A.Set(0, Some("w"))]);
            1500 !in I.Contents(h) && 1500 in r && r[1500] == "x"
  {
    I.LostElementListed();
    OneUpdate(I.Listed(I.Run(I.EMPTY, [I.Set(1500, "x"), I.Set(600, "y"), I.Set(1600, "z")])), 0, Some("w"));
  }

  // ---- Associative arrays

  function Elements(b: Binding): map<string, string> {
    if b.assoc.Some? then b.assoc.value else map[]
  }

  const CASES: set<Attr> := {Uppercase, Lowercase, Capcase}

  /** What the write-back starts from. */
  function Cleared(e: Env, x: string): Binding { Get(UnsetVar(e, x), x) }

  function SyncedAssoc(e: Env, x: string, values: seq<(string, string)>, attrs: set<Attr>): Binding {
    RestoreAll(FillKeys(Cleared(e, x), values), attrs)
  }

  lemma NoCaseAttrs(v: string, attrs: set<Attr>)
    requires attrs * CASES == {}
    ensures Recase(v, attrs) == v
  {
    assert Uppercase in attrs ==> Uppercase in attrs * CASES;
    assert Lowercase in attrs ==> Lowercase in attrs * CASES;
    assert Capcase in attrs ==> Capcase in attrs * CASES;
  }

  lemma {:induction false} FilledKeys(b: Binding, values: seq<(string, string)>)
    requires AttrsOf(b) * CASES == {}
    ensures var r := FillKeys(b, values);
            && Elements(r) == Elements(b) + S.ToMap(values) && AttrsOf(r) * CASES == {}
            && (values == [] || (r.assoc.Some? && AttrsOf(r) == AttrsOf(b) + {AssocAttr}))
  {
    if values != [] {
      var n := |values| - 1;
      FilledKeys(b, values[..n]);
      NoCaseAttrs(values[n].1, AttrsOf(FillKeys(b, values[..n])));
      if n > 0 { assert AttrsOf(b) + {AssocAttr} + {AssocAttr} == AttrsOf(b) + {AssocAttr}; }
    }
  }

  /** Nothing to merge with: no associative elements and no case attribute below. */
  predicate CleanBelow(e: Env, x: string) {
    Elements(Cleared(e, x)) == map[] && AttrsOf(Cleared(e, x)) * CASES == {}
  }

  /** A name that is not a caller's local, or any name under `localvar_unset`, is always clean. */
  lemma UsuallyClean(e: Env, x: string)
    requires e.localvarUnset || InLastScope(e, x) || Innermost(e.scopes, x) == |e.scopes|
    ensures CleanBelow(e, x)
  {}

  /** Otherwise what the caller's local hides has to be without elements and without a case attribute. */
  lemma HiddenDecides(e: Env, x: string)
    requires !e.localvarUnset && !InLastScope(e, x) && Innermost(e.scopes, x) < |e.scopes|
    ensures var hidden := e.scopes[Innermost(e.scopes, x)][x];
            Cleared(e, x) == hidden
            && (CleanBelow(e, x) <==> Elements(hidden) == map[] && AttrsOf(hidden) * CASES == {})
  {}

  lemma MapTwo(a: char, b: char, f: char -> char)
    ensures MapText([a, b], f) == [f(a), f(b)]
  {}

  /** Every case attribute changes this text. */
  lemma CaseChanges(attrs: set<Attr>)
    requires attrs * CASES != {}
    ensures Recase("aA", attrs) != "aA"
  {
    var v := "aA";
    MapTwo('a', 'A', ToUpper);
    MapTwo('a', 'A', Ascii.ToLower);
    MapTwo('A', 'A', Ascii.ToLower);
    assert ToUpper('a') == 'A' && ToUpper('A') == 'A' && Ascii.ToLower('A') == 'a' && Ascii.ToLower('a') == 'a';
    var upper := if Uppercase in attrs then "AA" else v;
    var lower := if Lowercase in attrs then "aa" else upper;
    if Capcase in attrs {
      assert Recase(v, attrs) == ['A'] + MapText(lower[1..], Ascii.ToLower);
    } else {
      assert Recase(v, attrs) == lower;
      var a :| a in attrs * CASES;
      assert a == Uppercase || a == Lowercase;
    }
  }

  /** The written elements are exactly the mirror's, for all mirrors, if and only if nothing is left below. */
  lemma AssocExactly(e: Env, x: string, attrs: set<Attr>)
    ensures (forall values :: Elements(SyncedAssoc(e, x, values, attrs)) == S.ToMap(values)) <==> CleanBelow(e, x)
  {
    var b := Cleared(e, x);
    if CleanBelow(e, x) {
      forall values ensures Elements(SyncedAssoc(e, x, values, attrs)) == S.ToMap(values) {
        FilledKeys(b, values);
        RestoreSets(FillKeys(b, values), attrs);
        assert map[] + S.ToMap(values) == S.ToMap(values);
      }
    } else if Elements(b) != map[] {
      RestoreSets(b, attrs);
      assert FillKeys(b, []) == b;
      assert Elements(SyncedAssoc(e, x, [], attrs)) != S.ToMap([]);
    } else {
      var values := [("k", "aA")];
      CaseChanges(AttrsOf(b));
      assert values[..0] == [] && FillKeys(b, values) == WithKey(b, "k", "aA");
      RestoreSets(WithKey(b, "k", "aA"), attrs);
      assert S.ToMap(values) == map["k" := "aA"];
      assert Elements(SyncedAssoc(e, x, values, attrs))["k"] != "aA";
    }
  }

  /** A global array with one element, a function whose empty local array hides it, and a second function. */
  function Lender(): Env {
    var e1 := PushScope(Put(Env(map[], [], false), "x", WithKey(ABSENT, "k", "v")));
    var e2 := MakeLocal(e1, "x");
    PushScope(Put(e2, "x", WithAttr(Get(e2, "x"), AssocAttr, true)))
  }

  lemma LenderIs()
    ensures var e, hidden := Lender(), WithKey(ABSENT, "k", "v");
            && KindOf(Get(e, "x")) == Assoc && Elements(Get(e, "x")) == map[] && !e.localvarUnset
            && e.scopes == [map["x" := hidden], map[]] && Elements(hidden) == map["k" := "v"]
  {
    var e1 := PushScope(Put(Env(map[], [], false), "x", WithKey(ABSENT, "k", "v")));
    assert e1.scopes == [map[]] && Get(e1, "x") == WithKey(ABSENT, "k", "v");
    var e2 := MakeLocal(e1, "x");
    assert e2.scopes == [map["x" := Get(e1, "x")]] && Get(e2, "x") == Fresh(false);
  }

  /** The second function lends its caller's empty array and gets the hidden element of the global one back. */
  lemma LendingUncovers()
    ensures KindOf(Get(Lender(), "x")) == Assoc && Elements(Get(Lender(), "x")) == map[] && !CleanBelow(Lender(), "x")
    ensures forall attrs :: Elements(SyncedAssoc(Lender(), "x", [], attrs)) == map["k" := "v"]
  {
    LenderIs();
    var e := Lender();
    assert Innermost(e.scopes, "x") == 0;
    HiddenDecides(e, "x");
    assert "k" in Elements(Cleared(e, "x"));
    forall attrs ensures Elements(SyncedAssoc(e, "x", [], attrs)) == map["k" := "v"] {
      assert FillKeys(Cleared(e, "x"), []) == Cleared(e, "x");
      RestoreSets(Cleared(e, "x"), attrs);
    }
  }

  // ---- The kind of an associative array written back

  /** What unsetting a name leaves, read before the call: what a caller's local hides, or nothing of an array. */
  function Below(e: Env, x: string): Binding {
    if UncoversHidden(e, x) then e.scopes[Innermost(e.scopes, x)][x] else ABSENT
  }

  /** The name is a local of a caller, and unsetting it brings back what it hides. */
  predicate UncoversHidden(e: Env, x: string) {
    !e.localvarUnset && !InLastScope(e, x) && Innermost(e.scopes, x) < |e.scopes|
  }

  lemma BelowIsCleared(e: Env, x: string)
    ensures var b, c := Below(e, x), Cleared(e, x);
            && c.assoc == b.assoc && c.nameref == b.nameref && ValueOf(c) == ValueOf(b)
            && (AssocAttr in AttrsOf(c) <==> AssocAttr in AttrsOf(b))
            && (ArrayAttr in AttrsOf(c) <==> ArrayAttr in AttrsOf(b))
            && Elements(c) == Elements(b)
  {}

  predicate WritesZero(values: seq<(string, string)>) {
    exists i :: 0 <= i < |values| && values[i].0 == "0"
  }

  /** Whether the key writes leave the name a value of its own: that of element 0, or the one it had. */
  predicate ValueAfter(b: Binding, values: seq<(string, string)>) {
    || WritesZero(values)
    || if values != [] && AssocAttr !in AttrsOf(b) then "0" in Elements(b) else ValueOf(b).Some?
  }

  lemma WritesZeroSnoc(values: seq<(string, string)>)
    requires values != []
    ensures WritesZero(values) <==> WritesZero(values[..|values| - 1]) || values[|values| - 1].0 == "0"
  {
    var n := |values| - 1;
    if i :| 0 <= i < |values| && values[i].0 == "0" && i < n { assert values[..n][i].0 == "0"; }
    if i :| 0 <= i < n && values[..n][i].0 == "0" { assert values[i].0 == "0"; }
  }

  /** What key writes do to everything but the elements. */
  lemma {:induction false} FilledKind(b: Binding, values: seq<(string, string)>)
    ensures var r := FillKeys(b, values);
            && r.nameref == b.nameref && (ValueOf(r).Some? <==> ValueAfter(b, values))
            && ("0" in Elements(r) <==> WritesZero(values) || "0" in Elements(b))
            && AttrsOf(r) == (if values == [] then AttrsOf(b) else AttrsOf(b) + {AssocAttr})
            && r.assoc.Some? == (b.assoc.Some? || values != [])
  {
    if values != [] {
      var n := |values| - 1;
      FilledKind(b, values[..n]);
      WritesZeroSnoc(values);
      if n > 0 { assert AttrsOf(b) + {AssocAttr} + {AssocAttr} == AttrsOf(b) + {AssocAttr}; }
    }
  }

  /** The reference the attribute writes leave: an own one, or the value turned into one. */
  ghost predicate Refers(b: Binding, attrs: set<Attr>, list: seq<Attr>, r: Binding) {
    && ValueOf(r) == ValueOf(b)
    && if Nameref !in list then r.nameref == b.nameref
       else r.nameref.Some? <==> Nameref in attrs && (b.nameref.Some? || ValueOf(b).Some?)
  }

  lemma RefersSnoc(b: Binding, attrs: set<Attr>, init: seq<Attr>, last: Attr, r: Binding)
    requires Refers(b, attrs, init, r)
    ensures Refers(b, attrs, init + [last], WithAttr(r, last, last in attrs))
  {
    assert Nameref in init + [last] <==> Nameref in init || last == Nameref;
  }

  lemma {:induction false} RestoreEachRefers(b: Binding, attrs: set<Attr>, list: seq<Attr>)
    ensures Refers(b, attrs, list, RestoreEach(b, attrs, list))
  {
    if list != [] {
      var init, last := list[..|list| - 1], list[|list| - 1];
      assert list == init + [last];
      RestoreEachRefers(b, attrs, init);
      RefersSnoc(b, attrs, init, last, RestoreEach(b, attrs, init));
    }
  }

  lemma RestoreRefers(b: Binding, attrs: set<Attr>)
    ensures RestoreAll(b, attrs).nameref.Some? <==> Nameref in attrs && (b.nameref.Some? || ValueOf(b).Some?)
  {
    RestoredAreMapped();
    RestoreEachRefers(b, attrs, RESTORED);
  }

  lemma AssocKind(b: Binding)
    ensures KindOf(b) == Assoc <==>
              && b.nameref == None
              && (AssocAttr in AttrsOf(b) || (ArrayAttr !in AttrsOf(b) && b.assoc.Some?))
  {}

  lemma KindAfter(c: Binding, values: seq<(string, string)>, attrs: set<Attr>)
    ensures KindOf(RestoreAll(FillKeys(c, values), attrs)) == Assoc <==>
              && !(Nameref in attrs && (c.nameref.Some? || ValueAfter(c, values)))
              && (values != [] || AssocAttr in AttrsOf(c) || (ArrayAttr !in AttrsOf(c) && c.assoc.Some?))
  {
    var filled := FillKeys(c, values);
    var r := RestoreAll(filled, attrs);
    FilledKind(c, values);
    RestoreSets(filled, attrs);
    RestoreRefers(filled, attrs);
    AssocKind(r);
    assert AssocAttr in AttrsOf(r) <==> AssocAttr in AttrsOf(filled);
    assert ArrayAttr in AttrsOf(r) <==> ArrayAttr in AttrsOf(filled);
  }

  /**
   An array written back is still associative if and only if the nameref attribute finds nothing to refer to, and the
   mirror has elements or what unsetting the name uncovers is associative itself.
   */
  lemma KindExactly(e: Env, x: string, values: seq<(string, string)>, attrs: set<Attr>)
    ensures var b := Below(e, x);
            KindOf(SyncedAssoc(e, x, values, attrs)) == Assoc <==>
              && !(Nameref in attrs && (b.nameref.Some? || ValueAfter(b, values)))
              && (values != [] || AssocAttr in AttrsOf(b) || (ArrayAttr !in AttrsOf(b) && b.assoc.Some?))
  {
    BelowIsCleared(e, x);
    KindAfter(Cleared(e, x), values, attrs);
  }

  /** An empty global array, lent and written back as it was, is a scalar. */
  lemma EmptyLosesKind(attrs: set<Attr>)
    ensures var e := Put(Env(map[], [], false), "x", WithAttr(ABSENT, AssocAttr, true));
            KindOf(Get(e, "x")) == Assoc && Elements(Get(e, "x")) == map[]
            && KindOf(SyncedAssoc(e, "x", [], attrs)) == Scalar
  {
    var e := Put(Env(map[], [], false), "x", WithAttr(ABSENT, AssocAttr, true));
    var b := Cleared(e, "x");
    assert b == ABSENT && FillKeys(b, []) == b;
    RestoreSets(b, attrs);
    RestoreRefers(b, attrs);
  }

  /**
   With elements, an array without the nameref attribute stays one; the nine attributes come back with every mirror.
   */
  lemma FilledKeepsKind(e: Env, x: string, values: seq<(string, string)>, attrs: set<Attr>)
    ensures values != [] && Nameref !in attrs ==> KindOf(SyncedAssoc(e, x, values, attrs)) == Assoc
    ensures AttrsOf(SyncedAssoc(e, x, values, attrs)) * MAPPED == attrs * MAPPED
  {
    KindExactly(e, x, values, attrs);
    RestoreSets(FillKeys(Cleared(e, x), values), attrs);
  }

  method WriteKeys(shell: Shell, x: string, values: seq<(string, string)>)
    requires x in shell.env.vars
    modifies shell
    ensures shell.env == Put(old(shell.env), x, FillKeys(Get(old(shell.env), x), values))
  {
    shell.AddKeys(x, values, false);
  }

  /** Write-back of a mirrored associative array. */
  method SyncAssoc(shell: Shell, x: string, mirror: H.AbiAssoc, flags: set<nat>)
    returns (values: seq<(string, string)>, attrs: set<Attr>)
    requires mirror.Valid() && H.KeysDistinct(mirror.entries)
    modifies shell
    ensures attrs <= MAPPED && forall a :: a in MAPPED ==> (a in attrs <==> BitOf(a) in flags)
    ensures S.ToMap(values) == S.ToMap(mirror.Values())
    ensures shell.env == Put(UnsetVar(old(shell.env), x), x, SyncedAssoc(old(shell.env), x, values, attrs))
  {
    ghost var cleared := UnsetVar(shell.env, x);
    values := mirror.ValuesFromBuckets();
    H.ReadBack(mirror.buckets[..], mirror.entries);
    shell.env := UnsetVar(shell.env, x);
    WriteKeys(shell, x, values);
    ghost var filled := Get(shell.env, x);
    attrs := Attributes(flags);
    RestoreAttributes(shell, x, attrs);
    WriteTwice(cleared, x, filled, RestoreAll(filled, attrs), false);
  }

  /** The same for an associative array; exact where nothing is left below. */
  method LendAssoc(shell: Shell, x: string, snapshot: seq<(string, string)>, ops: seq<H.Update>, dirty: bool)
    requires KindOf(Get(shell.env, x)) == Assoc && S.DistinctKeys(snapshot)
             && S.ToMap(snapshot) == Elements(Get(shell.env, x))
    requires H.NulFree(snapshot)
    requires forall n :: 0 <= n < |ops| && ops[n].Set? ==> IsCText(ops[n].key) && IsCText(ops[n].value)
    modifies shell
    ensures ops == [] && !dirty ==> shell.env == old(shell.env)
    ensures ops != [] || dirty ==>
      var b, r := Get(old(shell.env), x), Get(shell.env, x);
      && (CleanBelow(old(shell.env), x) ==> Elements(r) == H.Updated(Elements(b), ops))
      && AttrsOf(r) * MAPPED == AttrsOf(b) * MAPPED
      && shell.env == Put(UnsetVar(old(shell.env), x), x, r)
  {
    var attrs := AttrsOf(Get(shell.env, x));
    var mirror := new H.AbiAssoc(snapshot);
    PairsKept(snapshot);
    H.KeysAsListed(mirror.entries, snapshot);
    H.RunUpdates(mirror, ops);
    if ops == [] && !dirty { return; }
    var values, back := SyncAssoc(shell, x, mirror, Flags(Assoc, attrs));
    ThroughFlags(Assoc, attrs, back);
    AssocExactly(old(shell.env), x, back);
    RestoreSets(FillKeys(Cleared(old(shell.env), x), values), back);
  }

  lemma PairsKept(snapshot: seq<(string, string)>)
    requires H.NulFree(snapshot)
    ensures StripPairs(snapshot) == snapshot
  {
    forall i | 0 <= i < |snapshot| ensures StripPairs(snapshot)[i] == snapshot[i] { assert snapshot[i] in snapshot; }
  }
}

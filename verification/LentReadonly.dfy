/**
 Lending and readonly variables. The write-back of a scalar asks whether it is readonly; the write-back of an array does
 not, and for both kinds of array it is settled exactly when all readonly bindings stay as they were.
 */
module LentReadonly {
  import opened Assignments
  import opened Environment
  import I = IndexedArray
  import opened Option
  import S = SortedMap
  import opened Sync
  import opened Variables

  /** The flag is the one the mirror gives. */
  ghost predicate Locks(attrs: set<Attr>, list: seq<Attr>, r: Binding) {
    Readonly in list ==> r.entry.Some? && (r.entry.value.readonly <==> Readonly in attrs)
  }

  lemma LocksSnoc(attrs: set<Attr>, init: seq<Attr>, last: Attr, r: Binding)
    requires Locks(attrs, init, r)
    ensures Locks(attrs, init + [last], WithAttr(r, last, last in attrs))
  {
    assert Readonly in init + [last] <==> Readonly in init || last == Readonly;
  }

  lemma {:induction false} RestoreEachLocks(b: Binding, attrs: set<Attr>, list: seq<Attr>)
    ensures Locks(attrs, list, RestoreEach(b, attrs, list))
  {
    if list != [] {
      var init, last := list[..|list| - 1], list[|list| - 1];
      assert list == init + [last];
      RestoreEachLocks(b, attrs, init);
      LocksSnoc(attrs, init, last, RestoreEach(b, attrs, init));
    }
  }

  lemma LockedBoth(r: Binding, attrs: set<Attr>)
    requires r.entry.Some? && (r.entry.value.readonly <==> Readonly in attrs)
    requires Readonly in AttrsOf(r) <==> Readonly in attrs
    ensures Consistent(r) && (IsReadonly(r) <==> Readonly in attrs)
  {}

  /** Written back, a variable is readonly, flag and attribute, exactly when the mirror says so. */
  lemma RestoreLocks(b: Binding, attrs: set<Attr>)
    ensures var r := RestoreAll(b, attrs); Consistent(r) && (IsReadonly(r) <==> Readonly in attrs)
  {
    assert Readonly in RESTORED by { assert RESTORED[1] == Readonly; }
    RestoreEachLocks(b, attrs, RESTORED);
    RestoreSets(b, attrs);
    LockedBoth(RestoreAll(b, attrs), attrs);
  }

  lemma HeldAtTop(prefix: seq<Binding>, a: Binding, b: Binding)
    requires IsReadonly(a) && a != b
    ensures prefix + Lock(a) != prefix + Lock(b)
  {
    assert |prefix + Lock(a)| == |prefix| + 1 && (prefix + Lock(a))[|prefix|] == a;
    if IsReadonly(b) { assert (prefix + Lock(b))[|prefix|] == b; }
  }

  /** A pair of elements that the binding does not hold. */
  lemma OtherElements(b: Binding) returns (pairs: seq<(int, string)>)
    ensures S.Ascending(pairs, S.IntLe) && SyncedIndexed(b, pairs, AttrsOf(b)) != b
  {
    var blank := b.indexed.Some? && I.Contents(b.indexed.value) == map[0 := ""];
    pairs := [(0, if blank then "x" else "")];
    IndexedExact(b, pairs, AttrsOf(b));
    assert pairs[..0] == [] && S.ToMap(pairs) == map[0 := pairs[0].1];
    if blank { assert S.ToMap(pairs)[0] != map[0 := ""][0]; }
  }

  /**
   Writing an indexed array back keeps every readonly binding, for all mirrors, if and only if it is not readonly
   itself.
   */
  lemma LentIndexedReadonly(e: Env, x: string)
    ensures var b := Get(e, x);
            (forall pairs :: S.Ascending(pairs, S.IntLe) ==>
               Preserved(e, Put(e, x, SyncedIndexed(b, pairs, AttrsOf(b)))))
            <==> !IsReadonly(b)
  {
    var b := Get(e, x);
    if IsReadonly(b) {
      var pairs := OtherElements(b);
      var after := Put(e, x, SyncedIndexed(b, pairs, AttrsOf(b)));
      HeldAtTop(LockedIn(e.scopes, x), b, Get(after, x));
      assert Held(after, x) != Held(e, x);
    } else {
      forall pairs ensures Preserved(e, Put(e, x, SyncedIndexed(b, pairs, AttrsOf(b)))) {
        RestoreLocks(FillElements(WithArray(b, []), pairs), AttrsOf(b));
        PutKeeps(e, x, SyncedIndexed(b, pairs, AttrsOf(b)));
      }
    }
  }

  /** What a write-back of an associative array leaves. */
  function AssocWritten(e: Env, x: string, values: seq<(string, string)>): Env {
    Put(UnsetVar(e, x), x, SyncedAssoc(e, x, values, AttrsOf(Get(e, x))))
  }

  lemma OtherKey(e: Env, x: string)
    ensures SyncedAssoc(e, x, [("k", NewValue(Get(e, x)))], AttrsOf(Get(e, x))) != Get(e, x)
  {
    var b, c := Get(e, x), Cleared(e, x);
    var values := [("k", NewValue(b))];
    assert values[..0] == [] && FillKeys(c, values) == WithKey(c, "k", NewValue(b));
    RestoreSets(FillKeys(c, values), AttrsOf(b));
    var r := SyncedAssoc(e, x, values, AttrsOf(b));
    assert r.assoc.Some? && |r.assoc.value["k"]| == |NewValue(b)|;
  }

  lemma AssocHeld(e: Env, x: string)
    ensures Held(e, x) == LockedIn(UnsetVar(e, x).scopes, x) + Lock(Below(e, x)) + Lock(Get(e, x))
  {
    if UncoversHidden(e, x) { UncoverSame(e.scopes, Innermost(e.scopes, x), x); }
  }

  lemma WrittenReadonly(e: Env, x: string)
    requires IsReadonly(Get(e, x))
    ensures !Preserved(e, AssocWritten(e, x, [("k", NewValue(Get(e, x)))]))
  {
    var values := [("k", NewValue(Get(e, x)))];
    var after := AssocWritten(e, x, values);
    var prefix := LockedIn(UnsetVar(e, x).scopes, x);
    AssocHeld(e, x);
    assert Held(after, x) == prefix + Lock(Get(after, x));
    if IsReadonly(Below(e, x)) {
      assert |Held(e, x)| == |prefix| + 2;
    } else {
      OtherKey(e, x);
      HeldAtTop(prefix, Get(e, x), Get(after, x));
      assert prefix + [] == prefix;
    }
    assert Held(after, x) != Held(e, x);
  }

  lemma WrittenUncovered(e: Env, x: string)
    requires !IsReadonly(Get(e, x)) && Hazard(e, x)
    ensures !Preserved(e, AssocWritten(e, x, []))
  {
    var after := AssocWritten(e, x, []);
    var prefix := LockedIn(UnsetVar(e, x).scopes, x);
    AssocHeld(e, x);
    RestoreLocks(FillKeys(Cleared(e, x), []), AttrsOf(Get(e, x)));
    assert Held(after, x) == prefix + [] && Held(e, x) == prefix + [Below(e, x)] + [];
    assert |Held(after, x)| != |Held(e, x)|;
  }

  /**
   Writing an associative array back keeps every readonly binding, for all mirrors, if and only if it is not readonly
   itself and unsetting it uncovers no readonly binding.
   */
  lemma LentAssocReadonly(e: Env, x: string)
    ensures (forall values :: Preserved(e, AssocWritten(e, x, values))) <==> !IsReadonly(Get(e, x)) && !Hazard(e, x)
  {
    if IsReadonly(Get(e, x)) {
      WrittenReadonly(e, x);
    } else if Hazard(e, x) {
      WrittenUncovered(e, x);
    } else {
      forall values ensures Preserved(e, AssocWritten(e, x, values)) {
        UnsetKeeps(e, x);
        RestoreLocks(FillKeys(Cleared(e, x), values), AttrsOf(Get(e, x)));
        PutKeeps(UnsetVar(e, x), x, SyncedAssoc(e, x, values, AttrsOf(Get(e, x))));
        KeepsTrans(e, UnsetVar(e, x), AssocWritten(e, x, values));
      }
    }
  }

  /** Written back with one element, a readonly variable has that element and is readonly still. */
  lemma ElementWritten(b: Binding, value: string)
    requires Readonly in AttrsOf(b)
    ensures var r := SyncedIndexed(b, [(0, value)], AttrsOf(b));
            IsReadonly(r) && I.Contents(HybridOf(r)) == map[0 := value]
  {
    var pairs := [(0, value)];
    assert pairs[..0] == [] && S.ToMap(pairs) == map[0 := value];
    IndexedExact(b, pairs, AttrsOf(b));
    RestoreLocks(FillElements(WithArray(b, []), pairs), AttrsOf(b));
  }

  /** A readonly array without elements, lent and given one, has it and is readonly still. */
  lemma ReadonlyArrayWritten()
    ensures var b := WithAttr(WithArray(ABSENT, []), Readonly, true);
            var r := SyncedIndexed(b, [(0, "v")], AttrsOf(b));
            && IsReadonly(b) && KindOf(b) == Indexed && I.Contents(HybridOf(b)) == map[]
            && IsReadonly(r) && I.Contents(HybridOf(r)) == map[0 := "v"]
  {
    EmptyArray(ABSENT);
    ElementWritten(WithAttr(WithArray(ABSENT, []), Readonly, true), "v");
  }
}

/** The builtins' ways to assign and to unset elements, and what they do to readonly variables. */
module Assignments {
  import opened Environment
  import opened Option
  import opened Variables

  /**
   * One call of the family after its text was read. `index` is the value of an indexed subscript, where it has one;
   * `next` is the index after the last element; `keys` are the indices present.
   */
  datatype Call =
    | Assign(name: string, value: string, targetOk: bool, global: bool)
    | SetElement(name: string, key: string, index: Option<int>, value: string, global: bool)
    | SetTargetElement(name: string, key: string, index: Option<int>, value: string)
    | UnsetElement(name: string, key: string, index: Option<int>)
    | UnsetAll(name: string, keys: seq<int>, compat: bool)
    | IndexedElem(name: string, at: int, value: string, global: bool)
    | AssocElem(name: string, key: string, value: string, global: bool)
    | IndexedList(name: string, entries: seq<(Option<int>, string)>, append: bool, next: int, global: bool)
    | AssocList(name: string, values: seq<(string, string)>, append: bool, global: bool)

  predicate IsGlobal(c: Call) {
    !c.SetTargetElement? && !c.UnsetElement? && !c.UnsetAll? && c.global
  }

  /** Elements without an index follow the one before. */
  function Numbered(entries: seq<(Option<int>, string)>, next: int): seq<(int, string)> {
    if entries == [] then []
    else
      var i := if entries[0].0.Some? then entries[0].0.value else next;
      [(i, entries[0].1)] + Numbered(entries[1..], i + 1)
  }

  /** A plain assignment. One through a nameref is the assignment to its target, a call of its own. */
  function Assigned(b: Binding, x: string, value: string, targetOk: bool, hidden: bool): Binding {
    if Nameref !in AttrsOf(b) then WithValue(b, value)
    else if b.nameref.None? then (if targetOk then WithTarget(b, value) else b)
    else if b.nameref.value != x || hidden then b
    else WithValue(b, value)
  }

  function ElementSet(b: Binding, key: string, index: Option<int>, value: string): Binding {
    if KindOf(b) == Assoc then WithKey(b, key, value)
    else if index.Some? then WithElement(b, index.value, value) else b
  }

  function ElementUnset(b: Binding, key: string, index: Option<int>): Binding {
    match KindOf(b)
    case Assoc => WithoutKey(b, key, index)
    case Indexed => if index.Some? then WithoutKey(b, key, index) else b
    case _ => b
  }

  function Listed(b: Binding, c: Call, attrs: set<Attr>, exported: bool): Binding
    requires c.IndexedList?
  {
    if !c.append then FillElements(ResetIndexed(b, attrs, exported), Numbered(c.entries, 0))
    else if c.entries == [] then EnsureIndexed(b, attrs, exported)
    else FillElements(b, Numbered(c.entries, c.next))
  }

  /** What a call that is not refused makes of a binding; `hidden` says that some scope saved the name. */
  function Payload(c: Call, b: Binding, attrs: set<Attr>, exported: bool, hidden: bool): Binding {
    match c
    case Assign(x, v, ok, _) => Assigned(b, x, v, ok, hidden)
    case SetElement(_, k, i, v, _) => ElementSet(b, k, i, v)
    case SetTargetElement(_, k, i, v) =>
      ElementSet(if Nameref in AttrsOf(b) then WithArray(WithAttr(b, Nameref, false), []) else b, k, i, v)
    case UnsetElement(_, k, i) => ElementUnset(b, k, i)
    case UnsetAll(_, keys, _) => if KindOf(b) == Indexed then WithAttr(RemoveKeys(b, keys), ArrayAttr, true) else b
    case IndexedElem(_, i, v, _) => WithElement(b, i, v)
    case AssocElem(_, k, v, _) => WithKey(b, k, v)
    case IndexedList(_, _, _, _, _) => Listed(b, c, attrs, exported)
    case AssocList(_, values, append, _) =>
      FillAssoc(if append then b else Remade(b, attrs, exported, AssocAttr), values)
  }

  /** Removing element 0 of a scalar, or all elements the old way, unsets the name. */
  predicate UnsetsName(c: Call, b: Binding) {
    || (c.UnsetElement? && KindOf(b) == Scalar && c.index == Some(0))
    || (c.UnsetAll? && KindOf(b) == Indexed && c.compat)
  }

  predicate ClearsAssoc(c: Call) { c.AssocList? && !c.append }

  /** The guard. For globals it reads the flag of the saved entry, or the visible binding where that has no entry. */
  predicate Refused(e: Env, c: Call) {
    var g := GetGlobal(e, c.name);
    if !IsGlobal(c) then IsReadonly(Get(e, c.name))
    else if c.Assign? then IsReadonly(g)
    else if Outermost(e.scopes, c.name) < |e.scopes| && g.entry.Some? then g.entry.value.readonly
    else IsReadonly(Get(e, c.name))
  }

  function GlobalEntry(e: Env, x: string): Binding {
    if GetGlobal(e, x).entry.Some? then GetGlobal(e, x) else Get(e, x)
  }

  function Apply(e: Env, c: Call): Env {
    var x := c.name;
    var hidden := Outermost(e.scopes, x) < |e.scopes|;
    if Refused(e, c) then e
    else if IsGlobal(c) then
      var g := GlobalEntry(e, x);
      var cleared := if ClearsAssoc(c) then UnsetGlobal(e, x) else e;
      PutGlobal(cleared, x, Payload(c, GetGlobal(cleared, x), AttrsOf(g), IsExported(g), hidden))
    else
      var b := Get(e, x);
      var cleared := if ClearsAssoc(c) then UnsetVar(e, x) else e;
      if UnsetsName(c, b) then UnsetVar(e, x)
      else Put(cleared, x, Payload(c, Get(cleared, x), AttrsOf(b), IsExported(b), hidden))
  }

  lemma ElementSetFree(b: Binding, key: string, index: Option<int>, value: string)
    requires Free(b)
    ensures Free(ElementSet(b, key, index, value))
  {
    StepsStayFree(b);
  }

  lemma ListedFree(b: Binding, c: Call, attrs: set<Attr>, exported: bool)
    requires Free(b) && c.IndexedList?
    ensures Free(Listed(b, c, attrs, exported))
  {
    StepsStayFree(b);
    RemadeFree(WithArray(b, []), attrs, exported, ArrayAttr);
    if !c.append {
      FillElementsFree(ResetIndexed(b, attrs, exported), Numbered(c.entries, 0));
    } else if c.entries == [] {
      if ValueOf(b).Some? { RemadeFree(WithArray(b, [ValueOf(b).value]), attrs, exported, ArrayAttr); }
    } else {
      FillElementsFree(b, Numbered(c.entries, c.next));
    }
  }

  /** No call makes a free binding readonly. */
  lemma PayloadFree(c: Call, b: Binding, attrs: set<Attr>, exported: bool, hidden: bool)
    requires Free(b)
    ensures Free(Payload(c, b, attrs, exported, hidden))
  {
    StepsStayFree(b);
    match c
    case SetElement(_, k, i, v, _) => ElementSetFree(b, k, i, v);
    case SetTargetElement(_, k, i, v) =>
      StepsStayFree(WithAttr(b, Nameref, false));
      ElementSetFree(if Nameref in AttrsOf(b) then WithArray(WithAttr(b, Nameref, false), []) else b, k, i, v);
    case UnsetAll(_, keys, _) =>
      RemoveKeysFree(b, keys);
      StepsStayFree(RemoveKeys(b, keys));
    case IndexedList(_, _, _, _, _) => ListedFree(b, c, attrs, exported);
    case AssocList(_, values, append, _) =>
      RemadeFree(b, attrs, exported, AssocAttr);
      FillAssocFree(if append then b else Remade(b, attrs, exported, AssocAttr), values);
    case _ =>
  }

  // ---- Every readonly binding stays, in order and unchanged

  ghost predicate Preserved(e: Env, after: Env) {
    forall x :: Held(after, x) == Held(e, x)
  }

  ghost predicate Sane(e: Env) {
    && (forall x :: x in e.vars ==> Consistent(e.vars[x]))
    && (forall i, x :: 0 <= i < |e.scopes| && x in e.scopes[i] ==> Consistent(e.scopes[i][x]))
  }

  ghost predicate Keeps(e: Env, after: Env) {
    Preserved(e, after) && (Sane(e) ==> Sane(after))
  }

  lemma PutKeeps(e: Env, x: string, b: Binding)
    requires !IsReadonly(Get(e, x)) && Free(b)
    ensures Keeps(e, Put(e, x, b))
  {
    forall y ensures Held(Put(e, x, b), y) == Held(e, y) {
      assert y != x ==> Get(Put(e, x, b), y) == Get(e, y);
    }
  }

  /** A scope may change where its readonly bindings stay the same. */
  lemma ScopeKeeps(e: Env, i: nat, m: Scope)
    requires i < |e.scopes|
    requires forall y :: LockIn(m, y) == LockIn(e.scopes[i], y)
    requires forall y :: y in m ==> Consistent(m[y]) || (y in e.scopes[i] && m[y] == e.scopes[i][y])
    ensures Keeps(e, e.(scopes := e.scopes[i := m]))
  {
    forall y ensures LockedIn(e.scopes[i := m], y) == LockedIn(e.scopes, y) {
      LockedAt(e.scopes, i, y);
      LockedSplit(e.scopes, i, m, y);
      assert LockIn(m, y) == LockIn(e.scopes[i], y);
    }
    assert Preserved(e, e.(scopes := e.scopes[i := m])) by {
      forall y ensures Held(e.(scopes := e.scopes[i := m]), y) == Held(e, y) {
        assert LockedIn(e.scopes[i := m], y) == LockedIn(e.scopes, y);
      }
    }
  }

  lemma PutGlobalKeeps(e: Env, x: string, b: Binding)
    requires !IsReadonly(GetGlobal(e, x)) && Free(b)
    ensures Keeps(e, PutGlobal(e, x, b))
  {
    var i := Outermost(e.scopes, x);
    if i == |e.scopes| { PutKeeps(e, x, b); } else { ScopeKeeps(e, i, e.scopes[i][x := b]); }
  }

  /** A scope may drop a binding that is not readonly. */
  lemma DropKeeps(e: Env, j: nat, x: string)
    requires j < |e.scopes| && x in e.scopes[j] && !IsReadonly(e.scopes[j][x])
    ensures Keeps(e, e.(scopes := e.scopes[j := e.scopes[j] - {x}]))
  {
    ScopeKeeps(e, j, e.scopes[j] - {x});
  }

  /** Uncovering what a local of a caller hid. */
  lemma UncoverKeeps(e: Env, j: nat, x: string)
    requires j == Innermost(e.scopes, x) < |e.scopes| && !IsReadonly(Get(e, x))
    ensures Keeps(e, Put(e, x, e.scopes[j][x]).(scopes := e.scopes[j := e.scopes[j] - {x}]))
  {
    var after := Put(e, x, e.scopes[j][x]).(scopes := e.scopes[j := e.scopes[j] - {x}]);
    assert Preserved(e, after) by {
      forall y ensures Held(after, y) == Held(e, y) {
        if y == x { UncoverSame(e.scopes, j, x); } else { UncoverOther(e.scopes, j, x, y); }
      }
    }
    UncoverSane(e, j, x);
  }

  lemma UncoverSane(e: Env, j: nat, x: string)
    requires j < |e.scopes| && x in e.scopes[j]
    ensures Sane(e) ==> Sane(Put(e, x, e.scopes[j][x]).(scopes := e.scopes[j := e.scopes[j] - {x}]))
  {}

  /** The last saved binding, taken out of its scope and put on top. */
  lemma UncoverSame(scopes: seq<Scope>, j: nat, x: string)
    requires j == Innermost(scopes, x) < |scopes|
    ensures LockedIn(scopes[j := scopes[j] - {x}], x) + Lock(scopes[j][x]) == LockedIn(scopes, x)
  {
    LockedAt(scopes, j, x);
    LockedSplit(scopes, j, scopes[j] - {x}, x);
    LockedNowhere(scopes[j + 1..], x);
  }

  lemma UncoverOther(scopes: seq<Scope>, j: nat, x: string, y: string)
    requires j < |scopes| && x != y
    ensures LockedIn(scopes[j := scopes[j] - {x}], y) == LockedIn(scopes, y)
  {
    LockedAt(scopes, j, y);
    LockedSplit(scopes, j, scopes[j] - {x}, y);
  }

  lemma UnsetKeeps(e: Env, x: string)
    requires !IsReadonly(Get(e, x))
    ensures Keeps(e, UnsetVar(e, x))
  {
    var j := Innermost(e.scopes, x);
    if InLastScope(e, x) {
      PutKeeps(e, x, Fresh(IsExported(e.scopes[|e.scopes| - 1][x])));
    } else if j == |e.scopes| {
      PutKeeps(e, x, ABSENT);
    } else if e.localvarUnset {
      PutKeeps(e, x, Fresh(false));
    } else {
      UncoverKeeps(e, j, x);
    }
  }

  /** Unsetting would uncover a readonly binding: the name is a local of a caller that hides one. */
  predicate Hazard(e: Env, x: string) {
    var j := Innermost(e.scopes, x);
    !e.localvarUnset && j < |e.scopes| && !InLastScope(e, x) && IsReadonly(e.scopes[j][x])
  }

  lemma UnsetFree(e: Env, x: string)
    requires Sane(e) && !Hazard(e, x)
    ensures Free(Get(UnsetVar(e, x), x))
  {}

  /** Same scopes, and the same visible bindings. */
  ghost predicate Same(e: Env, after: Env) {
    e.scopes == after.scopes && forall y :: Get(e, y) == Get(after, y)
  }

  /** The cleared global: what `UnsetVar` makes of the global binding, put back into the outermost scope. */
  lemma UnsetGlobalPuts(e: Env, x: string)
    requires Outermost(e.scopes, x) < |e.scopes| && (InLastScope(e, x) || e.localvarUnset)
    ensures exists b :: Free(b) && Same(UnsetGlobal(e, x), PutGlobal(e, x, b))
  {
    var i := Outermost(e.scopes, x);
    var f := (s: Env) => UnsetVar(s, x);
    var mid := Put(e, x, e.scopes[i][x]);
    var b := Fresh(InLastScope(e, x) && IsExported(e.scopes[|e.scopes| - 1][x]));
    assert f(mid) == Put(mid, x, b);
    assert Same(UnsetGlobal(e, x), PutGlobal(e, x, b));
  }

  lemma UnsetGlobalMoves(e: Env, x: string)
    requires Outermost(e.scopes, x) < |e.scopes| && !InLastScope(e, x) && !e.localvarUnset
    ensures var i := Outermost(e.scopes, x);
            var j := Innermost(e.scopes, x);
            i <= j < |e.scopes|
            && Same(UnsetGlobal(e, x),
                    if i == j then e
                    else e.(scopes := e.scopes[j := e.scopes[j] - {x}][i := e.scopes[i][x := e.scopes[j][x]]]))
  {
    var i := Outermost(e.scopes, x);
    var j := Innermost(e.scopes, x);
    var f := (s: Env) => UnsetVar(s, x);
    var mid := Put(e, x, e.scopes[i][x]);
    assert f(mid) == Put(mid, x, e.scopes[j][x]).(scopes := e.scopes[j := e.scopes[j] - {x}]);
    if i == j {
      assert (e.scopes[i] - {x})[x := e.scopes[i][x]] == e.scopes[i];
      assert e.scopes[j := e.scopes[j] - {x}][i := e.scopes[i]] == e.scopes;
    }
  }

  lemma KeepsSame(e: Env, a: Env, b: Env)
    requires Keeps(e, a) && Same(b, a)
    ensures Keeps(e, b)
  {
    forall x ensures Held(b, x) == Held(e, x) {
      assert Get(b, x) == Get(a, x) && Held(b, x) == Held(a, x);
    }
    if Sane(e) {
      forall x | x in b.vars ensures Consistent(b.vars[x]) { assert Get(b, x) == Get(a, x); }
    }
  }

  lemma KeepsTrans(a: Env, b: Env, c: Env)
    requires Keeps(a, b) && Keeps(b, c)
    ensures Keeps(a, c)
  {
    forall x ensures Held(c, x) == Held(a, x) {
      assert Held(b, x) == Held(a, x);
    }
  }

  lemma OutermostIs(scopes: seq<Scope>, x: string, i: nat)
    requires i < |scopes| && x in scopes[i] && forall k :: 0 <= k < i ==> x !in scopes[k]
    ensures Outermost(scopes, x) == i
  {}

  /** Where a saved binding moves into the outermost scope, it must not be readonly. */
  lemma MoveKeeps(e: Env, i: nat, j: nat, x: string)
    requires i == Outermost(e.scopes, x) < j < |e.scopes| && x in e.scopes[j]
    requires !IsReadonly(e.scopes[i][x]) && Free(e.scopes[j][x])
    ensures Keeps(e, e.(scopes := e.scopes[j := e.scopes[j] - {x}][i := e.scopes[i][x := e.scopes[j][x]]]))
  {
    var s := e.scopes[j][x];
    var dropped := e.(scopes := e.scopes[j := e.scopes[j] - {x}]);
    DropKeeps(e, j, x);
    OutermostIs(dropped.scopes, x, i);
    PutGlobalKeeps(dropped, x, s);
    KeepsTrans(e, dropped, PutGlobal(dropped, x, s));
  }

  lemma GlobalAfterPut(e: Env, x: string, b: Binding)
    ensures GetGlobal(PutGlobal(e, x, b), x) == b
  {
    var i := Outermost(e.scopes, x);
    if i < |e.scopes| { OutermostIs(PutGlobal(e, x, b).scopes, x, i); }
  }

  lemma UnsetGlobalKeeps(e: Env, x: string)
    requires Sane(e) && !IsReadonly(GetGlobal(e, x)) && !Hazard(e, x)
    ensures Keeps(e, UnsetGlobal(e, x)) && Free(GetGlobal(UnsetGlobal(e, x), x))
  {
    var i := Outermost(e.scopes, x);
    var j := Innermost(e.scopes, x);
    var after := UnsetGlobal(e, x);
    if i == |e.scopes| {
      UnsetKeeps(e, x);
      UnsetFree(e, x);
      assert after == UnsetVar(e, x);
    } else if InLastScope(e, x) || e.localvarUnset {
      UnsetGlobalPuts(e, x);
      var b :| Free(b) && Same(after, PutGlobal(e, x, b));
      PutGlobalKeeps(e, x, b);
      KeepsSame(e, PutGlobal(e, x, b), after);
      GlobalAfterPut(e, x, b);
    } else {
      UnsetGlobalMoves(e, x);
      if i == j {
        KeepsSame(e, e, after);
      } else {
        MoveKeeps(e, i, j, x);
        var moved := e.(scopes := e.scopes[j := e.scopes[j] - {x}][i := e.scopes[i][x := e.scopes[j][x]]]);
        KeepsSame(e, moved, after);
        OutermostIs(moved.scopes, x, i);
      }
    }
  }

  lemma GuardFree(e: Env, c: Call)
    requires Sane(e) && !Refused(e, c)
    ensures IsGlobal(c) ==> Free(GetGlobal(e, c.name))
    ensures !IsGlobal(c) ==> Free(Get(e, c.name))
  {}

  /** The exception: an associative list assignment that would uncover a readonly binding. */
  predicate Uncovers(e: Env, c: Call) {
    ClearsAssoc(c) && Hazard(e, c.name)
  }

  lemma GlobalCallKeeps(e: Env, c: Call)
    requires Sane(e) && IsGlobal(c) && !Refused(e, c) && !Uncovers(e, c)
    ensures Keeps(e, Apply(e, c))
  {
    var x := c.name;
    GuardFree(e, c);
    var cleared := if ClearsAssoc(c) then UnsetGlobal(e, x) else e;
    if ClearsAssoc(c) { UnsetGlobalKeeps(e, x); }
    var g := GlobalEntry(e, x);
    var b := Payload(c, GetGlobal(cleared, x), AttrsOf(g), IsExported(g), Outermost(e.scopes, x) < |e.scopes|);
    PayloadFree(c, GetGlobal(cleared, x), AttrsOf(g), IsExported(g), Outermost(e.scopes, x) < |e.scopes|);
    PutGlobalKeeps(cleared, x, b);
    KeepsTrans(e, cleared, PutGlobal(cleared, x, b));
  }

  lemma LocalCallKeeps(e: Env, c: Call)
    requires Sane(e) && !IsGlobal(c) && !Refused(e, c) && !Uncovers(e, c)
    ensures Keeps(e, Apply(e, c))
  {
    var x := c.name;
    GuardFree(e, c);
    UnsetKeeps(e, x);
    if !UnsetsName(c, Get(e, x)) {
      var cleared := if ClearsAssoc(c) then UnsetVar(e, x) else e;
      if ClearsAssoc(c) { UnsetFree(e, x); }
      var g := Get(e, x);
      var b := Payload(c, Get(cleared, x), AttrsOf(g), IsExported(g), Outermost(e.scopes, x) < |e.scopes|);
      PayloadFree(c, Get(cleared, x), AttrsOf(g), IsExported(g), Outermost(e.scopes, x) < |e.scopes|);
      PutKeeps(cleared, x, b);
      KeepsTrans(e, cleared, Put(cleared, x, b));
    }
  }

  /** Every call but the exception leaves every readonly binding of every name as it was. */
  lemma CallKeeps(e: Env, c: Call)
    requires Sane(e) && !Uncovers(e, c)
    ensures Preserved(e, Apply(e, c)) && Sane(Apply(e, c))
  {
    if !Refused(e, c) {
      if IsGlobal(c) { GlobalCallKeeps(e, c); } else { LocalCallKeeps(e, c); }
    }
  }

  function RunCalls(e: Env, cs: seq<Call>): Env
    decreases |cs|
  {
    if cs == [] then e else RunCalls(Apply(e, cs[0]), cs[1..])
  }

  ghost predicate NeverUncovers(e: Env, cs: seq<Call>)
    decreases |cs|
  {
    cs == [] || (!Uncovers(e, cs[0]) && NeverUncovers(Apply(e, cs[0]), cs[1..]))
  }

  /** So does every run without it, however long. */
  lemma {:induction false} RunKeeps(e: Env, cs: seq<Call>)
    requires Sane(e) && NeverUncovers(e, cs)
    ensures Preserved(e, RunCalls(e, cs)) && Sane(RunCalls(e, cs))
    decreases |cs|
  {
    if cs != [] {
      CallKeeps(e, cs[0]);
      RunKeeps(Apply(e, cs[0]), cs[1..]);
      KeepsTrans(e, Apply(e, cs[0]), RunCalls(e, cs));
    }
  }

  // ---- The exception does change a readonly binding

  lemma {:induction false} CarryLocked(b: Binding, attrs: set<Attr>, list: seq<Attr>)
    requires IsReadonly(b) && Readonly !in list
    ensures IsReadonly(Carry(b, attrs, list))
  {
    if list != [] { CarryLocked(b, attrs, list[..|list| - 1]); }
  }

  /** Written over a readonly binding, a list leaves one that is still readonly, with the new element in it. */
  lemma WrittenOver(b: Binding, attrs: set<Attr>, exported: bool, value: string)
    requires IsReadonly(b)
    ensures var after := FillAssoc(Remade(b, attrs, exported, AssocAttr), [("k", value)]);
            && IsReadonly(after) && after.assoc.Some? && "k" in after.assoc.value && |after.assoc.value["k"]| == |value|
  {
    CarryLocked(b, attrs, CARRIED);
    var r := Remade(b, attrs, exported, AssocAttr);
    var values := [("k", value)];
    assert IsReadonly(r) && AssocAttr in AttrsOf(r);
    assert values[..0] == [];
    assert FillKeys(r, values) == WithKey(r, "k", value);
  }

  /** A value that the binding does not hold. */
  function NewValue(b: Binding): string {
    if b.assoc.Some? && "k" in b.assoc.value then b.assoc.value["k"] + "x" else ""
  }

  /** What the exception writes when it is not global. */
  lemma LocalWrites(e: Env, x: string, values: seq<(string, string)>)
    requires Hazard(e, x) && !IsReadonly(Get(e, x)) && values != []
    ensures var s, g := e.scopes[Innermost(e.scopes, x)][x], Get(e, x);
            Apply(e, AssocList(x, values, false, false)) ==
            Put(UnsetVar(e, x), x, FillAssoc(Remade(s, AttrsOf(g), IsExported(g), AssocAttr), values))
  {}

  /** The value "k" gets is not the one the readonly binding has. */
  lemma WrittenDiffers(s: Binding, attrs: set<Attr>, exported: bool)
    requires IsReadonly(s)
    ensures var b := FillAssoc(Remade(s, attrs, exported, AssocAttr), [("k", NewValue(s))]); IsReadonly(b) && b != s
  {
    WrittenOver(s, attrs, exported, NewValue(s));
  }

  lemma UncoveredDiffers(e: Env, x: string, b: Binding)
    requires Hazard(e, x) && !IsReadonly(Get(e, x)) && IsReadonly(b) && b != e.scopes[Innermost(e.scopes, x)][x]
    ensures !Preserved(e, Put(UnsetVar(e, x), x, b))
  {
    var j := Innermost(e.scopes, x);
    var s := e.scopes[j][x];
    var cleared := UnsetVar(e, x);
    var after := Put(cleared, x, b);
    UncoverSame(e.scopes, j, x);
    var prefix := LockedIn(cleared.scopes, x);
    assert Held(after, x) == prefix + [b] && Held(e, x) == prefix + [s] + [];
    assert (prefix + [b])[|prefix|] != (prefix + [s])[|prefix|];
  }

  lemma LocalUncovers(e: Env, x: string)
    requires Hazard(e, x) && !IsReadonly(Get(e, x))
    ensures var s := e.scopes[Innermost(e.scopes, x)][x];
            !Preserved(e, Apply(e, AssocList(x, [("k", NewValue(s))], false, false)))
  {
    var s, g := e.scopes[Innermost(e.scopes, x)][x], Get(e, x);
    var values := [("k", NewValue(s))];
    LocalWrites(e, x, values);
    WrittenDiffers(s, AttrsOf(g), IsExported(g));
    UncoveredDiffers(e, x, FillAssoc(Remade(s, AttrsOf(g), IsExported(g), AssocAttr), values));
  }

  lemma {:induction false} Rotated(m: seq<Binding>, b: Binding, s: Binding)
    requires [b] + m == m + [s]
    ensures b == s
    decreases |m|
  {
    if m == [] {
      assert [b] == [b] + m == m + [s] == [s];
      assert [b][0] == [s][0];
    } else {
      assert ([b] + m)[0] == (m + [s])[0];
      assert ([b] + m)[1..] == m && (m + [s])[1..] == m[1..] + [s];
      assert m == [m[0]] + m[1..];
      Rotated(m[1..], m[0], s);
    }
  }

  lemma LockedParts(before: seq<Scope>, a: Scope, mid: seq<Scope>, c: Scope, after: seq<Scope>, x: string)
    requires LockedIn(before, x) == [] && LockedIn(after, x) == []
    ensures LockedIn(before + ([a] + (mid + ([c] + after))), x) == LockIn(a, x) + (LockedIn(mid, x) + LockIn(c, x))
  {
    LockedAround(before, a, mid + ([c] + after), x);
    LockedAround(mid, c, after, x);
  }

  /** The readonly bindings of a name saved first at `i` and last at `j`. */
  lemma LockedBetween(scopes: seq<Scope>, i: nat, j: nat, x: string)
    requires i < j < |scopes|
    requires forall k :: 0 <= k < i || j < k < |scopes| ==> x !in scopes[k]
    ensures LockedIn(scopes, x) == LockIn(scopes[i], x) + (LockedIn(scopes[i + 1..j], x) + LockIn(scopes[j], x))
  {
    LockedNowhere(scopes[..i], x);
    LockedNowhere(scopes[j + 1..], x);
    LockedParts(scopes[..i], scopes[i], scopes[i + 1..j], scopes[j], scopes[j + 1..], x);
    Tiles(scopes, i, j);
  }

  lemma Tiles(scopes: seq<Scope>, i: nat, j: nat)
    requires i < j < |scopes|
    ensures scopes == scopes[..i] + ([scopes[i]] + (scopes[i + 1..j] + ([scopes[j]] + scopes[j + 1..])))
  {}

  lemma AppliesGlobally(e: Env, x: string, values: seq<(string, string)>)
    requires !Refused(e, AssocList(x, values, false, true))
    ensures var g := GlobalEntry(e, x);
            var cleared := UnsetGlobal(e, x);
            Apply(e, AssocList(x, values, false, true))
            == PutGlobal(cleared, x,
                         FillAssoc(Remade(GetGlobal(cleared, x), AttrsOf(g), IsExported(g), AssocAttr), values))
  {}

  /** What the exception writes, and where, when it is global. */
  lemma GlobalWrites(e: Env, x: string, values: seq<(string, string)>, i: nat, j: nat, b: Binding)
    requires Hazard(e, x) && !Refused(e, AssocList(x, values, false, true))
    requires i == Outermost(e.scopes, x) < j == Innermost(e.scopes, x)
    requires b == FillAssoc(Remade(e.scopes[j][x], AttrsOf(GlobalEntry(e, x)),
                                   IsExported(GlobalEntry(e, x)), AssocAttr), values)
    ensures var after := Apply(e, AssocList(x, values, false, true));
            Get(after, x) == Get(e, x) && after.scopes == e.scopes[j := e.scopes[j] - {x}][i := e.scopes[i][x := b]]
  {
    AppliesGlobally(e, x, values);
    UnsetGlobalMoves(e, x);
    PutIntoMoved(UnsetGlobal(e, x), e.scopes, x, i, j, b);
  }

  lemma PutIntoMoved(cleared: Env, scopes: seq<Scope>, x: string, i: nat, j: nat, b: Binding)
    requires i < j < |scopes| && x in scopes[i] && x in scopes[j] && forall k :: 0 <= k < i ==> x !in scopes[k]
    requires cleared.scopes == scopes[j := scopes[j] - {x}][i := scopes[i][x := scopes[j][x]]]
    ensures GetGlobal(cleared, x) == scopes[j][x] && Get(PutGlobal(cleared, x, b), x) == Get(cleared, x)
    ensures PutGlobal(cleared, x, b).scopes == scopes[j := scopes[j] - {x}][i := scopes[i][x := b]]
  {
    OutermostIs(cleared.scopes, x, i);
    assert scopes[i][x := scopes[j][x]][x := b] == scopes[i][x := b];
  }

  /** The scopes a hazard of a call for the global binding has. */
  lemma GlobalHazard(e: Env, x: string, values: seq<(string, string)>)
    requires Sane(e) && Hazard(e, x) && !Refused(e, AssocList(x, values, false, true))
    ensures Outermost(e.scopes, x) < Innermost(e.scopes, x) < |e.scopes|
    ensures !IsReadonly(e.scopes[Outermost(e.scopes, x)][x])
  {}

  lemma MovedNotPreserved(e: Env, after: Env, x: string, i: nat, j: nat, b: Binding)
    requires i == Outermost(e.scopes, x) < j == Innermost(e.scopes, x) < |e.scopes|
    requires !IsReadonly(e.scopes[i][x]) && IsReadonly(e.scopes[j][x]) && IsReadonly(b) && b != e.scopes[j][x]
    requires Get(after, x) == Get(e, x) && after.scopes == e.scopes[j := e.scopes[j] - {x}][i := e.scopes[i][x := b]]
    ensures !Preserved(e, after)
  {
    MovedDiffers(e.scopes, after.scopes, i, j, x, e.scopes[j][x], b);
    HeldDiffers(e, after, x);
  }

  lemma GlobalUncovers(e: Env, x: string)
    requires Sane(e) && Hazard(e, x) && !Refused(e, AssocList(x, [], false, true))
    ensures var s := e.scopes[Innermost(e.scopes, x)][x];
            !Preserved(e, Apply(e, AssocList(x, [("k", NewValue(s))], false, true)))
  {
    var i := Outermost(e.scopes, x);
    var j := Innermost(e.scopes, x);
    GlobalHazard(e, x, []);
    var s, g := e.scopes[j][x], GlobalEntry(e, x);
    var values := [("k", NewValue(s))];
    var b := FillAssoc(Remade(s, AttrsOf(g), IsExported(g), AssocAttr), values);
    WrittenDiffers(s, AttrsOf(g), IsExported(g));
    GlobalWrites(e, x, values, i, j, b);
    MovedNotPreserved(e, Apply(e, AssocList(x, values, false, true)), x, i, j, b);
  }

  lemma HeldDiffers(e: Env, after: Env, x: string)
    requires Get(after, x) == Get(e, x) && LockedIn(after.scopes, x) != LockedIn(e.scopes, x)
    ensures !Preserved(e, after)
  {
    TailCancels(LockedIn(after.scopes, x), LockedIn(e.scopes, x), Lock(Get(e, x)));
    assert Held(after, x) != Held(e, x);
  }

  lemma TailCancels(a: seq<Binding>, b: seq<Binding>, v: seq<Binding>)
    ensures a + v == b + v ==> a == b
  {
    if a + v == b + v {
      assert |a| == |b|;
      assert a == (a + v)[..|a|] && b == (b + v)[..|b|];
    }
  }

  lemma MovedDiffers(scopes: seq<Scope>, after: seq<Scope>, i: nat, j: nat, x: string, s: Binding, b: Binding)
    requires i < j < |scopes| && x in scopes[i] && x in scopes[j]
    requires forall k :: 0 <= k < i || j < k < |scopes| ==> x !in scopes[k]
    requires !IsReadonly(scopes[i][x]) && scopes[j][x] == s && IsReadonly(s) && IsReadonly(b) && b != s
    requires |after| == |scopes| && x in after[i] && after[i][x] == b && x !in after[j]
    requires forall k :: 0 <= k < |scopes| && k != i && k != j ==> after[k] == scopes[k]
    ensures LockedIn(after, x) != LockedIn(scopes, x)
  {
    var m := LockedIn(scopes[i + 1..j], x);
    assert LockedIn(scopes, x) == m + [s] by { LockedBetween(scopes, i, j, x); }
    assert LockedIn(after, x) == [b] + m by {
      LockedBetween(after, i, j, x);
      assert after[i + 1..j] == scopes[i + 1..j];
      assert m + [] == m;
    }
    if [b] + m == m + [s] { Rotated(m, b, s); }
  }

  /** Whether assigning lists to a name keeps readonly bindings is exactly whether it hides none in a caller's scope. */
  lemma ReadonlyExactly(e: Env, x: string, global: bool)
    requires Sane(e) && !Refused(e, AssocList(x, [], false, global))
    ensures (forall values :: Preserved(e, Apply(e, AssocList(x, values, false, global)))) <==> !Hazard(e, x)
  {
    if Hazard(e, x) {
      if global { GlobalUncovers(e, x); } else { LocalUncovers(e, x); }
    } else {
      forall values ensures Preserved(e, Apply(e, AssocList(x, values, false, global))) {
        CallKeeps(e, AssocList(x, values, false, global));
      }
    }
  }

  /** A function with a readonly local, a second whose associative local hides it, and a third. */
  function Nested(): Env {
    var e1 := MakeLocal(PushScope(Env(map[], [], false)), "x");
    var e2 := Put(e1, "x", WithAttr(Get(e1, "x"), Readonly, true));
    var e3 := MakeLocal(PushScope(e2), "x");
    PushScope(Put(e3, "x", WithAttr(Get(e3, "x"), AssocAttr, true)))
  }

  lemma NestedIs()
    ensures var s, v := WithAttr(Fresh(false), Readonly, true), WithAttr(Fresh(false), AssocAttr, true);
            && IsReadonly(s) && s.assoc == None && Get(Nested(), "x") == v && Free(v) && !Nested().localvarUnset
            && Nested().scopes == [map["x" := ABSENT], map["x" := s], map[]] && Nested().vars.Keys == {"x"}
  {
    var e1 := MakeLocal(PushScope(Env(map[], [], false)), "x");
    assert e1 == Env(map["x" := Fresh(false)], [map["x" := ABSENT]], false);
    var e2 := Put(e1, "x", WithAttr(Get(e1, "x"), Readonly, true));
    assert PushScope(e2).scopes == [map["x" := ABSENT], map[]];
    assert MakeLocal(PushScope(e2), "x").scopes == [map["x" := ABSENT], map["x" := Get(e2, "x")]];
    assert Get(MakeLocal(PushScope(e2), "x"), "x") == Fresh(false);
  }

  lemma HazardAt(e: Env, s: Binding)
    requires e.vars.Keys == {"x"} && Free(Get(e, "x")) && !e.localvarUnset
    requires e.scopes == [map["x" := ABSENT], map["x" := s], map[]] && IsReadonly(s) && Consistent(s)
    ensures Sane(e) && Hazard(e, "x") && e.scopes[Innermost(e.scopes, "x")]["x"] == s
  {
    assert Innermost(e.scopes, "x") == 1;
  }

  /** Three nested calls are enough: the third, assigning a list, changes the readonly local of the first. */
  lemma HazardReached()
    ensures Sane(Nested()) && KindOf(Get(Nested(), "x")) == Assoc && Hazard(Nested(), "x")
    ensures !Preserved(Nested(), Apply(Nested(), AssocList("x", [("k", "")], false, false)))
  {
    NestedIs();
    HazardWrites(Nested(), WithAttr(Fresh(false), Readonly, true));
  }

  lemma HazardWrites(e: Env, s: Binding)
    requires e.vars.Keys == {"x"} && Free(Get(e, "x")) && !e.localvarUnset
    requires e.scopes == [map["x" := ABSENT], map["x" := s], map[]] && IsReadonly(s) && Consistent(s) && s.assoc == None
    ensures Sane(e) && Hazard(e, "x") && !Preserved(e, Apply(e, AssocList("x", [("k", "")], false, false)))
  {
    HazardAt(e, s);
    LocalUncovers(e, "x");
    assert NewValue(s) == "";
  }
}

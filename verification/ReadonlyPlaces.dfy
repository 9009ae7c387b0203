/**
 Where readonly bindings sit. `CallKeeps` says that a call keeps all of them, in order; here it is settled exactly which
 calls also leave each one in its own scope.
 */
module ReadonlyPlaces {
  import opened Assignments
  import opened Environment
  import opened Option
  import opened Variables

  /** Each scope holds the readonly bindings it held, and so does the visible environment. */
  ghost predicate InPlace(e: Env, after: Env) {
    && |after.scopes| == |e.scopes|
    && (forall x :: Lock(Get(after, x)) == Lock(Get(e, x)))
    && (forall i, x :: 0 <= i < |e.scopes| ==> LockIn(after.scopes[i], x) == LockIn(e.scopes[i], x))
  }

  lemma InPlaceTrans(a: Env, b: Env, c: Env)
    requires InPlace(a, b) && InPlace(b, c)
    ensures InPlace(a, c)
  {
    forall x ensures Lock(Get(c, x)) == Lock(Get(a, x)) {
      assert Lock(Get(b, x)) == Lock(Get(a, x));
    }
    forall i, x | 0 <= i < |a.scopes| ensures LockIn(c.scopes[i], x) == LockIn(a.scopes[i], x) {
      assert LockIn(b.scopes[i], x) == LockIn(a.scopes[i], x);
    }
  }

  lemma SameInPlace(e: Env, a: Env, b: Env)
    requires InPlace(e, a) && Same(b, a)
    ensures InPlace(e, b)
  {
    forall x ensures Lock(Get(b, x)) == Lock(Get(e, x)) {
      assert Get(b, x) == Get(a, x) && Lock(Get(a, x)) == Lock(Get(e, x));
    }
  }

  lemma PutInPlace(e: Env, x: string, b: Binding)
    requires !IsReadonly(Get(e, x)) && !IsReadonly(b)
    ensures InPlace(e, Put(e, x, b))
  {
    forall y ensures Lock(Get(Put(e, x, b), y)) == Lock(Get(e, y)) {
      assert y != x ==> Get(Put(e, x, b), y) == Get(e, y);
    }
  }

  lemma ScopeInPlace(e: Env, i: nat, m: Scope)
    requires i < |e.scopes| && forall y :: LockIn(m, y) == LockIn(e.scopes[i], y)
    ensures InPlace(e, e.(scopes := e.scopes[i := m]))
  {}

  lemma PutGlobalInPlace(e: Env, x: string, b: Binding)
    requires !IsReadonly(GetGlobal(e, x)) && !IsReadonly(b)
    ensures InPlace(e, PutGlobal(e, x, b))
  {
    var i := Outermost(e.scopes, x);
    if i == |e.scopes| { PutInPlace(e, x, b); } else { ScopeInPlace(e, i, e.scopes[i][x := b]); }
  }

  /** Unsetting a name moves a readonly binding exactly when the name is a caller's local that hides one. */
  lemma UnsetInPlace(e: Env, x: string)
    requires !IsReadonly(Get(e, x))
    ensures InPlace(e, UnsetVar(e, x)) <==> !Hazard(e, x)
  {
    var j := Innermost(e.scopes, x);
    if Hazard(e, x) {
      assert LockIn(UnsetVar(e, x).scopes[j], x) != LockIn(e.scopes[j], x);
    } else if e.localvarUnset || InLastScope(e, x) || j == |e.scopes| {
      PutInPlace(e, x, Get(UnsetVar(e, x), x));
    } else {
      var put := Put(e, x, e.scopes[j][x]);
      PutInPlace(e, x, e.scopes[j][x]);
      ScopeInPlace(put, j, e.scopes[j] - {x});
      InPlaceTrans(e, put, UnsetVar(e, x));
    }
  }

  lemma MoveInPlace(e: Env, i: nat, j: nat, x: string)
    requires i < |e.scopes| && j < |e.scopes| && i != j && x in e.scopes[i] && x in e.scopes[j]
    requires !IsReadonly(e.scopes[i][x]) && !IsReadonly(e.scopes[j][x])
    ensures InPlace(e, e.(scopes := e.scopes[j := e.scopes[j] - {x}][i := e.scopes[i][x := e.scopes[j][x]]]))
  {
    var dropped := e.(scopes := e.scopes[j := e.scopes[j] - {x}]);
    ScopeInPlace(e, j, e.scopes[j] - {x});
    ScopeInPlace(dropped, i, e.scopes[i][x := e.scopes[j][x]]);
    InPlaceTrans(e, dropped, dropped.(scopes := dropped.scopes[i := e.scopes[i][x := e.scopes[j][x]]]));
  }

  lemma UnsetGlobalInPlace(e: Env, x: string)
    requires !IsReadonly(GetGlobal(e, x)) && !Hazard(e, x)
    ensures InPlace(e, UnsetGlobal(e, x))
  {
    var i := Outermost(e.scopes, x);
    var j := Innermost(e.scopes, x);
    if i == |e.scopes| {
      UnsetInPlace(e, x);
      assert UnsetGlobal(e, x) == UnsetVar(e, x);
    } else if InLastScope(e, x) || e.localvarUnset {
      UnsetGlobalPuts(e, x);
      var b :| Free(b) && Same(UnsetGlobal(e, x), PutGlobal(e, x, b));
      PutGlobalInPlace(e, x, b);
      SameInPlace(e, PutGlobal(e, x, b), UnsetGlobal(e, x));
    } else {
      UnsetGlobalMoves(e, x);
      if i == j {
        SameInPlace(e, e, UnsetGlobal(e, x));
      } else {
        MoveInPlace(e, i, j, x);
        var moved := e.(scopes := e.scopes[j := e.scopes[j] - {x}][i := e.scopes[i][x := e.scopes[j][x]]]);
        SameInPlace(e, moved, UnsetGlobal(e, x));
      }
    }
  }

  lemma GlobalCallInPlace(e: Env, c: Call)
    requires Sane(e) && IsGlobal(c) && !Refused(e, c) && !Uncovers(e, c)
    ensures InPlace(e, Apply(e, c))
  {
    var x, g, hidden := c.name, GlobalEntry(e, c.name), Outermost(e.scopes, c.name) < |e.scopes|;
    GuardFree(e, c);
    var cleared := if ClearsAssoc(c) then UnsetGlobal(e, x) else e;
    if ClearsAssoc(c) {
      UnsetGlobalKeeps(e, x);
      UnsetGlobalInPlace(e, x);
    }
    PayloadFree(c, GetGlobal(cleared, x), AttrsOf(g), IsExported(g), hidden);
    var b := Payload(c, GetGlobal(cleared, x), AttrsOf(g), IsExported(g), hidden);
    PutGlobalInPlace(cleared, x, b);
    InPlaceTrans(e, cleared, PutGlobal(cleared, x, b));
  }

  lemma LocalCallInPlace(e: Env, c: Call)
    requires Sane(e) && !IsGlobal(c) && !Refused(e, c) && !Uncovers(e, c)
    ensures InPlace(e, Apply(e, c)) <==> !(UnsetsName(c, Get(e, c.name)) && Hazard(e, c.name))
  {
    var x, g, hidden := c.name, Get(e, c.name), Outermost(e.scopes, c.name) < |e.scopes|;
    GuardFree(e, c);
    UnsetInPlace(e, x);
    if !UnsetsName(c, g) {
      var cleared := if ClearsAssoc(c) then UnsetVar(e, x) else e;
      if ClearsAssoc(c) { UnsetFree(e, x); }
      PayloadFree(c, Get(cleared, x), AttrsOf(g), IsExported(g), hidden);
      var b := Payload(c, Get(cleared, x), AttrsOf(g), IsExported(g), hidden);
      PutInPlace(cleared, x, b);
      InPlaceTrans(e, cleared, Put(cleared, x, b));
    }
  }

  /**
   A call that keeps the readonly bindings leaves each in its scope if and only if it is refused, or does not unset a
   caller's local that hides one.
   */
  lemma CallInPlace(e: Env, c: Call)
    requires Sane(e) && !Uncovers(e, c)
    ensures InPlace(e, Apply(e, c)) <==>
              Refused(e, c) || IsGlobal(c) || !UnsetsName(c, Get(e, c.name)) || !Hazard(e, c.name)
  {
    if !Refused(e, c) {
      if IsGlobal(c) { GlobalCallInPlace(e, c); } else { LocalCallInPlace(e, c); }
    }
  }

  /** A function with a readonly local, a second whose own local hides it, and a third. */
  function Covering(): Env {
    var e1 := MakeLocal(PushScope(Env(map[], [], false)), "x");
    var e2 := Put(e1, "x", WithAttr(Get(e1, "x"), Readonly, true));
    PushScope(MakeLocal(PushScope(e2), "x"))
  }

  lemma CoveringIs()
    ensures var s := WithAttr(Fresh(false), Readonly, true);
            && Covering().vars == map["x" := Fresh(false)] && !Covering().localvarUnset
            && Covering().scopes == [map["x" := ABSENT], map["x" := s], map[]] && IsReadonly(s) && Consistent(s)
  {
    var e1 := MakeLocal(PushScope(Env(map[], [], false)), "x");
    assert e1 == Env(map["x" := Fresh(false)], [map["x" := ABSENT]], false);
    var e2 := Put(e1, "x", WithAttr(Get(e1, "x"), Readonly, true));
    assert PushScope(e2).scopes == [map["x" := ABSENT], map[]];
    assert MakeLocal(PushScope(e2), "x").scopes == [map["x" := ABSENT], map["x" := Get(e2, "x")]];
  }

  lemma MovesAt(e: Env, s: Binding, c: Call)
    requires e.vars == map["x" := Fresh(false)] && !e.localvarUnset && IsReadonly(s) && Consistent(s)
    requires e.scopes == [map["x" := ABSENT], map["x" := s], map[]] && c == UnsetElement("x", "0", Some(0))
    ensures Sane(e) && Preserved(e, Apply(e, c)) && !InPlace(e, Apply(e, c))
  {
    HazardAt(e, s);
    CallKeeps(e, c);
    CallInPlace(e, c);
  }

  /** The third function unsets element 0 of its caller's scalar: the readonly local of the first becomes visible. */
  lemma ElementUnsetMoves()
    ensures var e, c := Covering(), UnsetElement("x", "0", Some(0));
            Sane(e) && Preserved(e, Apply(e, c)) && !InPlace(e, Apply(e, c))
  {
    CoveringIs();
    MovesAt(Covering(), WithAttr(Fresh(false), Readonly, true), UnsetElement("x", "0", Some(0)));
  }
}

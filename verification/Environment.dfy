/** Shell variables with dynamic scope: one visible binding for each name, and the bindings that locals saved. */
module Environment {
  import opened Option
  import opened Sequences
  import opened Variables

  type Scope = map<string, Binding>

  /** `scopes` grows with function calls; each holds what its locals hide. */
  datatype Env = Env(vars: Scope, scopes: seq<Scope>, localvarUnset: bool)

  function Get(e: Env, x: string): Binding {
    if x in e.vars then e.vars[x] else ABSENT
  }

  function Put(e: Env, x: string, b: Binding): Env {
    e.(vars := e.vars[x := b])
  }

  /** The first scope that saved `x`, or the number of scopes. */
  function Outermost(scopes: seq<Scope>, x: string): (i: nat)
    ensures i <= |scopes| && (i < |scopes| ==> x in scopes[i])
    ensures forall k :: 0 <= k < i ==> x !in scopes[k]
  {
    if scopes == [] || x in scopes[0] then 0 else 1 + Outermost(scopes[1..], x)
  }

  /** The last scope that saved `x`, or the number of scopes. */
  function Innermost(scopes: seq<Scope>, x: string): (i: nat)
    ensures i <= |scopes| && (i < |scopes| ==> x in scopes[i])
    ensures forall k :: i < k < |scopes| ==> x !in scopes[k]
    ensures i == |scopes| ==> forall k :: 0 <= k < |scopes| ==> x !in scopes[k]
  {
    var n := |scopes|;
    if n == 0 then 0
    else if x in scopes[n - 1] then n - 1
    else var i := Innermost(scopes[..n - 1], x); if i == n - 1 then n else i
  }

  predicate InLastScope(e: Env, x: string) {
    e.scopes != [] && x in e.scopes[|e.scopes| - 1]
  }

  /** What a new local, or an unset one, starts as. */
  function Fresh(exported: bool): Binding {
    Binding(Some(if exported then Entry("", false, true, false, {Export}) else DEFAULT_ENTRY), None, None, None)
  }

  /** `unset`: a local of the running function is emptied; one of a caller gives way to what it hid. */
  function UnsetVar(e: Env, x: string): Env {
    var j := Innermost(e.scopes, x);
    if InLastScope(e, x) then Put(e, x, Fresh(IsExported(e.scopes[|e.scopes| - 1][x])))
    else if j == |e.scopes| then Put(e, x, ABSENT)
    else if e.localvarUnset then Put(e, x, Fresh(false))
    else Put(e, x, e.scopes[j][x]).(scopes := e.scopes[j := e.scopes[j] - {x}])
  }

  /** Runs `f` with the global binding of `x` in place of the visible one, and swaps them back. */
  function WithGlobal(e: Env, x: string, f: Env -> Env): Env {
    var i := Outermost(e.scopes, x);
    if i == |e.scopes| then f(e)
    else
      var inner := f(Put(e, x, e.scopes[i][x]));
      Put(inner, x, Get(e, x)).(
        scopes := if i < |inner.scopes| then inner.scopes[i := inner.scopes[i][x := Get(inner, x)]] else inner.scopes)
  }

  function GetGlobal(e: Env, x: string): Binding {
    var i := Outermost(e.scopes, x);
    if i == |e.scopes| then Get(e, x) else e.scopes[i][x]
  }

  function PutGlobal(e: Env, x: string, b: Binding): Env {
    var i := Outermost(e.scopes, x);
    if i == |e.scopes| then Put(e, x, b) else e.(scopes := e.scopes[i := e.scopes[i][x := b]])
  }

  function UnsetGlobal(e: Env, x: string): Env {
    WithGlobal(e, x, s => UnsetVar(s, x))
  }

  /** `local x`: refused when it would hide a readonly global. */
  function MakeLocal(e: Env, x: string): Env {
    if e.scopes == [] || InLastScope(e, x) then e
    else if Outermost(e.scopes, x) == |e.scopes| && Get(e, x).entry.Some? && Get(e, x).entry.value.readonly then e
    else
      var n := |e.scopes|;
      Put(e, x, Fresh(IsExported(Get(e, x)))).(scopes := e.scopes[n - 1 := e.scopes[n - 1][x := Get(e, x)]])
  }

  function PushScope(e: Env): Env {
    e.(scopes := e.scopes + [map[]])
  }

  /** An update of the global binding leaves the visible one alone, and the other way round when there is no local. */
  lemma WithGlobalUpdates(e: Env, x: string, g: Binding -> Binding)
    ensures forall y :: Get(WithGlobal(e, x, s => Put(s, x, g(Get(s, x)))), y)
                     == Get(PutGlobal(e, x, g(GetGlobal(e, x))), y)
    ensures WithGlobal(e, x, s => Put(s, x, g(Get(s, x)))).scopes == PutGlobal(e, x, g(GetGlobal(e, x))).scopes
  {
    var i := Outermost(e.scopes, x);
    if i < |e.scopes| {
      var inner := Put(Put(e, x, e.scopes[i][x]), x, g(e.scopes[i][x]));
      assert Get(Put(e, x, e.scopes[i][x]), x) == e.scopes[i][x];
      assert forall y :: Get(Put(inner, x, Get(e, x)), y) == Get(e, y);
    }
  }

  // ---- The readonly bindings of a name, outermost first

  function Lock(b: Binding): seq<Binding> {
    if IsReadonly(b) then [b] else []
  }

  function LockIn(m: Scope, x: string): seq<Binding> {
    if x in m then Lock(m[x]) else []
  }

  function LockedIn(scopes: seq<Scope>, x: string): seq<Binding> {
    if scopes == [] then [] else LockIn(scopes[0], x) + LockedIn(scopes[1..], x)
  }

  /** Those that scopes saved, then the visible one. */
  function Held(e: Env, x: string): seq<Binding> {
    LockedIn(e.scopes, x) + Lock(Get(e, x))
  }

  lemma {:induction false} LockedJoins(a: seq<Scope>, b: seq<Scope>, x: string)
    ensures LockedIn(a + b, x) == LockedIn(a, x) + LockedIn(b, x)
  {
    if a == [] {
      assert a + b == b;
    } else {
      assert (a + b)[0] == a[0] && (a + b)[1..] == a[1..] + b;
      LockedJoins(a[1..], b, x);
      Regroup(LockIn(a[0], x), LockedIn(a[1..], x), LockedIn(b, x));
    }
  }

  /** One scope's part among the others. */
  lemma LockedAround(before: seq<Scope>, m: Scope, after: seq<Scope>, x: string)
    ensures LockedIn(before + ([m] + after), x) == LockedIn(before, x) + (LockIn(m, x) + LockedIn(after, x))
  {
    LockedJoins(before, [m] + after, x);
    assert ([m] + after)[1..] == after;
  }

  lemma LockedSplit(scopes: seq<Scope>, i: nat, m: Scope, x: string)
    requires i < |scopes|
    ensures LockedIn(scopes[i := m], x) == LockedIn(scopes[..i], x) + (LockIn(m, x) + LockedIn(scopes[i + 1..], x))
  {
    assert scopes[i := m] == scopes[..i] + ([m] + scopes[i + 1..]);
    LockedAround(scopes[..i], m, scopes[i + 1..], x);
  }

  lemma LockedAt(scopes: seq<Scope>, i: nat, x: string)
    requires i < |scopes|
    ensures LockedIn(scopes, x) == LockedIn(scopes[..i], x) + (LockIn(scopes[i], x) + LockedIn(scopes[i + 1..], x))
  {
    assert scopes == scopes[..i] + ([scopes[i]] + scopes[i + 1..]);
    LockedAround(scopes[..i], scopes[i], scopes[i + 1..], x);
  }

  lemma {:induction false} LockedNowhere(scopes: seq<Scope>, x: string)
    requires forall k :: 0 <= k < |scopes| ==> x !in scopes[k]
    ensures LockedIn(scopes, x) == []
  {
    if scopes != [] { LockedNowhere(scopes[1..], x); }
  }
}

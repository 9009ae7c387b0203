/** Applying an expanded assignment to the live environment, step by step, local or global. */
module ApplyAssignment {
  import opened Assignments
  import opened Environment
  import I = IndexedArray
  import opened Option
  import opened Variables

  function Read(e: Env, x: string, global: bool): Binding {
    if global then GetGlobal(e, x) else Get(e, x)
  }

  function Write(e: Env, x: string, b: Binding, global: bool): Env {
    if global then PutGlobal(e, x, b) else Put(e, x, b)
  }

  /** The name has a binding of its own to write to. */
  predicate Bound(e: Env, x: string, global: bool) {
    x in e.vars || (global && Outermost(e.scopes, x) < |e.scopes|)
  }

  lemma ReadWritten(e: Env, x: string, b: Binding, global: bool)
    ensures Read(Write(e, x, b, global), x, global) == b && Bound(Write(e, x, b, global), x, global)
  {
    if global { GlobalAfterPut(e, x, b); }
    var i := Outermost(e.scopes, x);
    if global && i < |e.scopes| { OutermostIs(PutGlobal(e, x, b).scopes, x, i); }
  }

  lemma WriteTwice(e: Env, x: string, a: Binding, b: Binding, global: bool)
    ensures Write(Write(e, x, a, global), x, b, global) == Write(e, x, b, global)
  {
    var i := Outermost(e.scopes, x);
    if global && i < |e.scopes| {
      OutermostIs(PutGlobal(e, x, a).scopes, x, i);
      assert e.scopes[i][x := a][x := b] == e.scopes[i][x := b];
      assert e.scopes[i := e.scopes[i][x := a]][i := e.scopes[i][x := b]] == e.scopes[i := e.scopes[i][x := b]];
    } else {
      assert e.vars[x := a][x := b] == e.vars[x := b];
    }
  }

  lemma WriteRead(e: Env, x: string, global: bool)
    requires Bound(e, x, global)
    ensures Write(e, x, Read(e, x, global), global) == e
  {
    var i := Outermost(e.scopes, x);
    if global && i < |e.scopes| {
      assert e.scopes[i][x := e.scopes[i][x]] == e.scopes[i];
      assert e.scopes[i := e.scopes[i]] == e.scopes;
    } else {
      assert e.vars[x := e.vars[x]] == e.vars;
    }
  }

  lemma ClearedBound(e: Env, x: string, global: bool)
    ensures Bound(if global then UnsetGlobal(e, x) else UnsetVar(e, x), x, global)
  {}

  /** The index the next element without one of its own gets. */
  function After(entries: seq<(Option<int>, string)>, next: int): int {
    if entries == [] then next
    else After(entries[1..], (if entries[0].0.Some? then entries[0].0.value else next) + 1)
  }

  function IndexOf(entry: (Option<int>, string), next: int): int {
    if entry.0.Some? then entry.0.value else next
  }

  lemma {:induction false} NumberedSnoc(entries: seq<(Option<int>, string)>, last: (Option<int>, string), next: int)
    ensures var i := IndexOf(last, After(entries, next));
            Numbered(entries + [last], next) == Numbered(entries, next) + [(i, last.1)]
            && After(entries + [last], next) == i + 1
    decreases |entries|
  {
    var all := entries + [last];
    if entries == [] {
      assert all[1..] == [];
    } else {
      assert all[1..] == entries[1..] + [last];
      NumberedSnoc(entries[1..], last, IndexOf(entries[0], next) + 1);
    }
  }

  /** One more element of a list. */
  lemma FillStep(b: Binding, entries: seq<(Option<int>, string)>, n: nat, start: int)
    requires n < |entries|
    ensures var i := IndexOf(entries[n], After(entries[..n], start));
            && FillElements(b, Numbered(entries[..n + 1], start))
            == WithElement(FillElements(b, Numbered(entries[..n], start)), i, entries[n].1)
            && After(entries[..n + 1], start) == i + 1
  {
    var done := Numbered(entries[..n], start);
    var i := IndexOf(entries[n], After(entries[..n], start));
    NumberedSnoc(entries[..n], entries[n], start);
    assert entries[..n + 1] == entries[..n] + [entries[n]];
    assert (done + [(i, entries[n].1)])[..|done|] == done;
  }

  /** Where an append starts: one past the largest index, else after a plain value, else at 0. */
  predicate StartsAt(b: Binding, next: int) {
    if b.indexed.Some? && I.Listed(b.indexed.value) != map[] then
      var m := I.Listed(b.indexed.value);
      next - 1 in m && forall j :: j in m ==> j < next
    else next == if ValueOf(b).Some? then 1 else 0
  }

  method NextIndex(b: Binding) returns (next: int)
    ensures StartsAt(b, next)
  {
    next := if ValueOf(b).Some? then 1 else 0;
    if b.indexed.None? || I.Listed(b.indexed.value) == map[] { return; }
    var keys: set<int> := I.Listed(b.indexed.value).Keys;
    I.Inhabited(keys);
    var max :| max in keys;
    var rest := keys - {max};
    while rest != {}
      invariant rest <= keys && max in keys && forall j :: j in keys && j !in rest ==> j <= max
      decreases rest
    {
      I.Inhabited(rest);
      var j :| j in rest;
      rest := rest - {j};
      if j > max { max := j; }
    }
    next := max + 1;
  }

  class Shell {
    var env: Env

    method SetAttr(x: string, attr: Attr, on: bool, global: bool)
      modifies this
      ensures env == Write(old(env), x, WithAttr(Read(old(env), x, global), attr, on), global)
    {
      env := Write(env, x, WithAttr(Read(env, x, global), attr, on), global);
    }

    /** Carries the old attributes over, one by one. */
    method CarryAttrs(x: string, attrs: set<Attr>, global: bool)
      requires Bound(env, x, global)
      modifies this
      ensures env == Write(old(env), x, Carry(Read(old(env), x, global), attrs, CARRIED), global)
    {
      ghost var b := Read(env, x, global);
      WriteRead(env, x, global);
      for n := 0 to |CARRIED|
        invariant env == Write(old(env), x, Carry(b, attrs, CARRIED[..n]), global)
      {
        ghost var done := Carry(b, attrs, CARRIED[..n]);
        assert CARRIED[..n + 1][..n] == CARRIED[..n];
        ReadWritten(old(env), x, done, global);
        WriteTwice(old(env), x, done, WithAttr(done, CARRIED[n], true), global);
        if CARRIED[n] in attrs { SetAttr(x, CARRIED[n], true, global); }
      }
      assert CARRIED[..|CARRIED|] == CARRIED;
    }

    /** Makes the binding an array of a kind, with the old attributes. */
    method Remake(x: string, attrs: set<Attr>, exported: bool, kind: Attr, global: bool)
      requires Bound(env, x, global)
      modifies this
      ensures env == Write(old(env), x, Remade(Read(old(env), x, global), attrs, exported, kind), global)
    {
      ghost var b := Read(env, x, global);
      ghost var carried := Carry(b, attrs, CARRIED);
      CarryAttrs(x, attrs, global);
      ReadWritten(old(env), x, carried, global);
      SetAttr(x, kind, true, global);
      ghost var made := WithAttr(carried, kind, true);
      WriteTwice(old(env), x, carried, made, global);
      if exported {
        ReadWritten(old(env), x, made, global);
        env := Write(env, x, WithExport(Read(env, x, global)), global);
        WriteTwice(old(env), x, made, WithExport(made), global);
      }
    }

    /** Writes the elements in order, numbering those without an index. */
    method AddElements(x: string, entries: seq<(Option<int>, string)>, start: int, global: bool)
      requires Bound(env, x, global) || entries != []
      modifies this
      ensures env == Write(old(env), x, FillElements(Read(old(env), x, global), Numbered(entries, start)), global)
    {
      ghost var b := Read(env, x, global);
      if Bound(env, x, global) { WriteRead(env, x, global); }
      var next := start;
      for n := 0 to |entries|
        invariant next == After(entries[..n], start)
        invariant n == 0 ==> env == old(env)
        invariant n > 0 ==> env == Write(old(env), x, FillElements(b, Numbered(entries[..n], start)), global)
      {
        ghost var done := FillElements(b, Numbered(entries[..n], start));
        var index := IndexOf(entries[n], next);
        FillStep(b, entries, n, start);
        ReadWritten(old(env), x, done, global);
        WriteTwice(old(env), x, done, WithElement(done, index, entries[n].1), global);
        env := Write(env, x, WithElement(Read(env, x, global), index, entries[n].1), global);
        next := index + 1;
      }
      assert entries[..|entries|] == entries;
    }

    method AddKeys(x: string, values: seq<(string, string)>, global: bool)
      requires Bound(env, x, global) || values != []
      modifies this
      ensures env == Write(old(env), x, FillKeys(Read(old(env), x, global), values), global)
    {
      ghost var b := Read(env, x, global);
      if Bound(env, x, global) { WriteRead(env, x, global); }
      for n := 0 to |values|
        invariant n == 0 ==> env == old(env)
        invariant n > 0 ==> env == Write(old(env), x, FillKeys(b, values[..n]), global)
      {
        assert values[..n + 1][..n] == values[..n];
        ReadWritten(old(env), x, FillKeys(b, values[..n]), global);
        env := Write(env, x, WithKey(Read(env, x, global), values[n].0, values[n].1), global);
        WriteTwice(old(env), x, FillKeys(b, values[..n]), FillKeys(b, values[..n + 1]), global);
      }
      assert values[..|values|] == values;
    }

    /** A fresh array with the given values, then the old attributes. */
    method MakeArray(x: string, values: seq<string>, attrs: set<Attr>, exported: bool, global: bool)
      modifies this
      ensures env == Write(old(env), x,
                              Remade(WithArray(Read(old(env), x, global), values), attrs, exported, ArrayAttr), global)
    {
      ghost var made := WithArray(Read(env, x, global), values);
      env := Write(env, x, WithArray(Read(env, x, global), values), global);
      ReadWritten(old(env), x, made, global);
      Remake(x, attrs, exported, ArrayAttr, global);
      WriteTwice(old(env), x, made, Remade(made, attrs, exported, ArrayAttr), global);
    }

    /** A list of elements; an append is numbered from where the array ends. */
    method ApplyIndexedList(x: string, entries: seq<(Option<int>, string)>, append: bool, global: bool)
      returns (status: nat, ghost next: int)
      modifies this
      ensures StartsAt(Read(old(env), x, global), next)
      ensures var c := IndexedList(x, entries, append, next, global);
              env == Apply(old(env), c) && status == if Refused(old(env), c) then 1 else 0
    {
      var prior := if global then GlobalEntry(env, x) else Get(env, x);
      var b := Read(env, x, global);
      var start := NextIndex(b);
      next := start;
      if Refused(env, IndexedList(x, entries, append, start, global)) { return 1, start; }
      if append {
        if entries != [] {
          AddElements(x, entries, start, global);
        } else if KindOf(b) == Indexed && b.indexed.Some? {
          WriteRead(env, x, global);
        } else {
          MakeArray(x, if ValueOf(b).Some? then [ValueOf(b).value] else [], AttrsOf(prior), IsExported(prior), global);
        }
      } else {
        MakeArray(x, [], AttrsOf(prior), IsExported(prior), global);
        ghost var made := ResetIndexed(b, AttrsOf(prior), IsExported(prior));
        ReadWritten(old(env), x, made, global);
        AddElements(x, entries, 0, global);
        WriteTwice(old(env), x, made, FillElements(made, Numbered(entries, 0)), global);
      }
      status := 0;
    }

    /** The keys of a list; an empty list leaves an empty associative array. */
    method AddList(x: string, values: seq<(string, string)>, global: bool)
      modifies this
      ensures env == Write(old(env), x, FillAssoc(Read(old(env), x, global), values), global)
    {
      if values == [] {
        ghost var made := WithKey(Read(env, x, global), "", "");
        env := Write(env, x, WithKey(Read(env, x, global), "", ""), global);
        ReadWritten(old(env), x, made, global);
        env := Write(env, x, WithoutKey(Read(env, x, global), "", None), global);
        WriteTwice(old(env), x, made, WithoutKey(made, "", None), global);
      } else {
        AddKeys(x, values, global);
      }
    }

    method ApplyAssocList(x: string, values: seq<(string, string)>, append: bool, global: bool) returns (status: nat)
      modifies this
      ensures var c := AssocList(x, values, append, global);
              env == Apply(old(env), c) && status == if Refused(old(env), c) then 1 else 0
    {
      if Refused(env, AssocList(x, values, append, global)) { return 1; }
      var prior := if global then GlobalEntry(env, x) else Get(env, x);
      if append {
        AddList(x, values, global);
      } else {
        ClearedBound(env, x, global);
        env := if global then UnsetGlobal(env, x) else UnsetVar(env, x);
        ghost var cleared := env;
        ghost var made := Remade(Read(env, x, global), AttrsOf(prior), IsExported(prior), AssocAttr);
        Remake(x, AttrsOf(prior), IsExported(prior), AssocAttr, global);
        ReadWritten(cleared, x, made, global);
        AddList(x, values, global);
        WriteTwice(cleared, x, made, FillAssoc(made, values), global);
      }
      status := 0;
    }
  }
}

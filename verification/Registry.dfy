/**
 The registry of loadable builtins: what `enable -f` and `enable -d` do to the list of
 entries, to their activity flags, and to the open count of every shared library.

 A library handle is only a value the dynamic linker hands out; nothing is assumed about
 it, so a handle that was fully closed may come back for another library.
 */
module Registry {
  import opened Option

  type Handle = int

  datatype Entry = Entry(name: string, symbol: string, handle: Handle, active: bool)

  /** What `<name>_struct` and `<name>_builtin_load` of a library say; the hook's answer, if there is a hook. */
  datatype Descriptor = Descriptor(name: Option<string>, hasFunction: bool, loadHook: Option<bool>)

  datatype Library = Library(handle: Handle, symbols: map<string, Descriptor>)

  // ----- one load

  predicate Accepts(lib: Library, requested: string) {
    && '/' !in requested && '\0' !in requested && requested in lib.symbols
    && lib.symbols[requested].hasFunction && lib.symbols[requested].loadHook != Some(false)
  }

  function EntryFor(lib: Library, requested: string): Entry
    requires Accepts(lib, requested)
  {
    var given := lib.symbols[requested].name;
    Entry(if given.Some? && given.value != "" then given.value else requested, requested, lib.handle, true)
  }

  /** The entries a load makes, one for each requested name the library accepts. */
  function Loaded(lib: Library, names: seq<string>): (r: seq<Entry>)
    ensures forall i :: 0 <= i < |r| ==> r[i].handle == lib.handle && r[i].active
  {
    if names == [] then []
    else
      var last := names[|names| - 1];
      Loaded(lib, names[..|names| - 1]) + if Accepts(lib, last) then [EntryFor(lib, last)] else []
  }

  /** The last active entry of a name; the length of the list when there is none. */
  function LastActive(entries: seq<Entry>, name: string): (i: nat)
    ensures i <= |entries|
    ensures i < |entries| ==> entries[i].name == name && entries[i].active
    ensures forall j :: 0 <= j < |entries| && (i == |entries| || j > i) ==>
              !(entries[j].name == name && entries[j].active)
  {
    if entries == [] then 0
    else
      var n := |entries| - 1;
      if entries[n].name == name && entries[n].active then n
      else
        var i := LastActive(entries[..n], name);
        assert forall j :: 0 <= j < n ==> entries[..n][j] == entries[j];
        if i == n then n + 1 else i
  }

  function Deactivated(entries: seq<Entry>, i: nat): seq<Entry> {
    if i < |entries| then entries[i := entries[i].(active := false)] else entries
  }

  /** One new entry: the one it shadows goes inactive, and it is appended. */
  function Installed(entries: seq<Entry>, e: Entry): seq<Entry> {
    Deactivated(entries, LastActive(entries, e.name)) + [e]
  }

  function InstalledAll(entries: seq<Entry>, loaded: seq<Entry>): seq<Entry> {
    if loaded == [] then entries
    else Installed(InstalledAll(entries, loaded[..|loaded| - 1]), loaded[|loaded| - 1])
  }

  // ----- the whole state

  datatype State = State(entries: seq<Entry>, opens: multiset<Handle>, closes: multiset<Handle>)

  const INITIAL := State([], multiset{}, multiset{})

  /** A load; `lib` is absent when the path or `dlopen` fails. */
  function LoadStep(st: State, lib: Option<Library>, names: seq<string>): State {
    if names == [] || lib == None then st
    else
      var l := lib.value;
      var loaded := Loaded(l, names);
      var opens := st.opens + multiset{l.handle};
      if loaded == [] then State(st.entries, opens, st.closes + multiset{l.handle})
      else State(InstalledAll(st.entries, loaded), opens, st.closes)
  }

  predicate HandleActive(entries: seq<Entry>, h: Handle) {
    exists i :: 0 <= i < |entries| && entries[i].handle == h && entries[i].active
  }

  function UnloadStep(st: State, name: string): State {
    var i := LastActive(st.entries, name);
    if i == |st.entries| then st
    else
      var h := st.entries[i].handle;
      var entries := Deactivated(st.entries, i);
      State(entries, st.opens, if HandleActive(entries, h) then st.closes else st.closes + multiset{h})
  }

  datatype Op = Load(lib: Option<Library>, names: seq<string>) | Unload(name: string)

  function Step(st: State, op: Op): State {
    match op
    case Load(lib, names) => LoadStep(st, lib, names)
    case Unload(name) => UnloadStep(st, name)
  }

  function Run(st: State, ops: seq<Op>): State {
    if ops == [] then st else Step(Run(st, ops[..|ops| - 1]), ops[|ops| - 1])
  }

  // ----- one active entry for a name

  /** At most one active entry for a name. */
  ghost predicate OneActive(entries: seq<Entry>) {
    forall i, j :: 0 <= i < j < |entries| && entries[i].active && entries[j].active ==>
      entries[i].name != entries[j].name
  }

  lemma InstalledOneActive(entries: seq<Entry>, e: Entry)
    requires OneActive(entries)
    ensures OneActive(Installed(entries, e))
  {
    var i := LastActive(entries, e.name);
    var r := Installed(entries, e);
    forall j | 0 <= j < |entries| && r[j].active ensures r[j].name != e.name && entries[j].active {
      assert i < |entries| && j < i && entries[j].active ==> entries[j].name != entries[i].name;
    }
  }

  lemma {:induction false} InstalledAllOneActive(entries: seq<Entry>, loaded: seq<Entry>)
    requires OneActive(entries)
    ensures OneActive(InstalledAll(entries, loaded))
  {
    if loaded != [] {
      InstalledAllOneActive(entries, loaded[..|loaded| - 1]);
      InstalledOneActive(InstalledAll(entries, loaded[..|loaded| - 1]), loaded[|loaded| - 1]);
    }
  }

  lemma StepOneActive(st: State, op: Op)
    requires OneActive(st.entries)
    ensures OneActive(Step(st, op).entries)
  {
    match op
    case Load(lib, names) => if lib.Some? { InstalledAllOneActive(st.entries, Loaded(lib.value, names)); }
    case Unload(name) =>
  }

  lemma {:induction false} OneActiveThrough(st: State, ops: seq<Op>)
    requires OneActive(st.entries)
    ensures OneActive(Run(st, ops).entries)
  {
    if ops != [] {
      OneActiveThrough(st, ops[..|ops| - 1]);
      StepOneActive(Run(st, ops[..|ops| - 1]), ops[|ops| - 1]);
    }
  }

  /** In every reachable state a name has at most one active entry. */
  lemma RunOneActive(ops: seq<Op>)
    ensures OneActive(Run(INITIAL, ops).entries)
  {
    OneActiveThrough(INITIAL, ops);
  }

  // ----- open counts

  /** Opens not yet closed, less the one the handle's active entries stand on. */
  function Surplus(st: State, h: Handle): int {
    (st.opens[h] as int) - (st.closes[h] as int) - if HandleActive(st.entries, h) then 1 else 0
  }

  /** No handle is closed more often than opened, and one with an active entry is open. */
  ghost predicate Balanced(st: State) {
    forall h :: 0 <= Surplus(st, h)
  }

  lemma {:induction false} InstalledKeepsNew(entries: seq<Entry>, loaded: seq<Entry>, h: Handle)
    requires loaded != [] && forall i :: 0 <= i < |loaded| ==> loaded[i].handle == h && loaded[i].active
    ensures HandleActive(InstalledAll(entries, loaded), h)
  {
    var r := InstalledAll(entries, loaded);
    assert r[|r| - 1] == loaded[|loaded| - 1];
  }

  predicate Named(loaded: seq<Entry>, name: string) {
    exists k :: 0 <= k < |loaded| && loaded[k].name == name
  }

  /** What a load does to the entries that were there: those with a loaded name go inactive, the others stay. */
  lemma {:induction false} InstalledOld(entries: seq<Entry>, loaded: seq<Entry>, i: nat)
    requires OneActive(entries) && i < |entries|
    ensures var r := InstalledAll(entries, loaded);
            |r| == |entries| + |loaded|
            && r[i] == if Named(loaded, entries[i].name) then entries[i].(active := false) else entries[i]
  {
    if loaded != [] {
      var init, last := loaded[..|loaded| - 1], loaded[|loaded| - 1];
      var before := InstalledAll(entries, init);
      InstalledOld(entries, init, i);
      InstalledAllOneActive(entries, init);
      NamedSnoc(init, last, entries[i].name);
      assert loaded == init + [last];
      OneDeactivated(before, last.name, i);
    }
  }

  lemma NamedSnoc(init: seq<Entry>, last: Entry, name: string)
    ensures Named(init + [last], name) <==> Named(init, name) || last.name == name
  {
    var all := init + [last];
    assert all[|init|] == last && forall k :: 0 <= k < |init| ==> all[k] == init[k];
  }

  /** With one active entry for a name, deactivating the last one deactivates it. */
  lemma OneDeactivated(entries: seq<Entry>, name: string, i: nat)
    requires OneActive(entries) && i < |entries|
    ensures Deactivated(entries, LastActive(entries, name))[i]
         == if entries[i].name == name then entries[i].(active := false) else entries[i]
  {
    var j := LastActive(entries, name);
    if j < |entries| && i != j && entries[i].active {
      assert i < j ==> entries[i].name != entries[j].name;
    }
  }

  lemma InstalledHandle(entries: seq<Entry>, e: Entry, i: nat)
    requires i < |entries|
    ensures i < |Installed(entries, e)| && Installed(entries, e)[i].handle == entries[i].handle
  {}

  lemma {:induction false} InstalledNew(entries: seq<Entry>, loaded: seq<Entry>, k: nat)
    requires k < |loaded|
    ensures var r := InstalledAll(entries, loaded);
            |r| == |entries| + |loaded| && r[|entries| + k].handle == loaded[k].handle
  {
    var init, last := loaded[..|loaded| - 1], loaded[|loaded| - 1];
    var before := InstalledAll(entries, init);
    InstalledLength(entries, init);
    if k < |init| {
      InstalledNew(entries, init, k);
      InstalledHandle(before, last, |entries| + k);
    }
  }

  lemma {:induction false} InstalledLength(entries: seq<Entry>, loaded: seq<Entry>)
    ensures |InstalledAll(entries, loaded)| == |entries| + |loaded|
  {
    if loaded != [] { InstalledLength(entries, loaded[..|loaded| - 1]); }
  }

  /** Every active entry of the handle has the name of an entry to be loaded. */
  predicate AllShadowed(entries: seq<Entry>, loaded: seq<Entry>, h: Handle) {
    forall i :: 0 <= i < |entries| && entries[i].handle == h && entries[i].active ==> Named(loaded, entries[i].name)
  }

  lemma SurvivorUnshadowed(entries: seq<Entry>, loaded: seq<Entry>, h: Handle, i: nat)
    requires OneActive(entries) && forall k :: 0 <= k < |loaded| ==> loaded[k].handle != h
    requires i < |InstalledAll(entries, loaded)|
    requires InstalledAll(entries, loaded)[i].handle == h && InstalledAll(entries, loaded)[i].active
    ensures i < |entries| && entries[i].handle == h && entries[i].active && !Named(loaded, entries[i].name)
  {
    InstalledLength(entries, loaded);
    if i < |entries| { InstalledOld(entries, loaded, i); } else { InstalledNew(entries, loaded, i - |entries|); }
  }

  lemma UnshadowedSurvives(entries: seq<Entry>, loaded: seq<Entry>, h: Handle, i: nat)
    requires OneActive(entries) && i < |entries|
    requires entries[i].handle == h && entries[i].active && !Named(loaded, entries[i].name)
    ensures HandleActive(InstalledAll(entries, loaded), h)
  {
    InstalledOld(entries, loaded, i);
    assert InstalledAll(entries, loaded)[i] == entries[i];
  }

  /** A load of another library leaves a handle without active entries if and only if it shadows them all. */
  lemma ShadowedExactly(entries: seq<Entry>, loaded: seq<Entry>, h: Handle)
    requires OneActive(entries) && forall i :: 0 <= i < |loaded| ==> loaded[i].handle != h
    ensures HandleActive(InstalledAll(entries, loaded), h) <==> !AllShadowed(entries, loaded, h)
  {
    if HandleActive(InstalledAll(entries, loaded), h) {
      var i :| 0 <= i < |InstalledAll(entries, loaded)|
               && InstalledAll(entries, loaded)[i].handle == h && InstalledAll(entries, loaded)[i].active;
      SurvivorUnshadowed(entries, loaded, h, i);
    }
    if !AllShadowed(entries, loaded, h) {
      var i :| 0 <= i < |entries| && entries[i].handle == h && entries[i].active && !Named(loaded, entries[i].name);
      UnshadowedSurvives(entries, loaded, h, i);
    }
  }

  /**
   Whether a load leaks an open of a handle, read off the state before it: the handle has an active entry, some name is
   accepted, and either the library itself is reopened or every active entry of the handle is shadowed.
   */
  predicate Leaks(st: State, lib: Option<Library>, names: seq<string>, h: Handle) {
    && lib.Some? && Loaded(lib.value, names) != [] && HandleActive(st.entries, h)
    && (h == lib.value.handle || AllShadowed(st.entries, Loaded(lib.value, names), h))
  }

  lemma LoadSurplus(st: State, lib: Option<Library>, names: seq<string>, h: Handle)
    requires OneActive(st.entries)
    ensures Surplus(LoadStep(st, lib, names), h) == Surplus(st, h) + if Leaks(st, lib, names, h) then 1 else 0
  {
    if lib.Some? && Loaded(lib.value, names) != [] {
      var loaded := Loaded(lib.value, names);
      if h == lib.value.handle {
        InstalledKeepsNew(st.entries, loaded, h);
      } else {
        ShadowedExactly(st.entries, loaded, h);
      }
    }
  }

  lemma UnloadSurplus(st: State, name: string, h: Handle)
    ensures Surplus(UnloadStep(st, name), h) == Surplus(st, h)
  {
    var i := LastActive(st.entries, name);
    if i < |st.entries| {
      var after := Deactivated(st.entries, i);
      if st.entries[i].handle != h {
        if j :| 0 <= j < |st.entries| && st.entries[j].handle == h && st.entries[j].active {
          assert after[j].handle == h && after[j].active;
        }
        if j :| 0 <= j < |after| && after[j].handle == h && after[j].active {
          assert st.entries[j].handle == h && st.entries[j].active;
        }
      }
    }
  }

  function Leak(st: State, op: Op, h: Handle): nat {
    if op.Load? && Leaks(st, op.lib, op.names, h) then 1 else 0
  }

  lemma StepSurplus(st: State, op: Op, h: Handle)
    requires OneActive(st.entries)
    ensures Surplus(Step(st, op), h) == Surplus(st, h) + Leak(st, op, h)
  {
    match op
    case Load(lib, names) => LoadSurplus(st, lib, names, h);
    case Unload(name) => UnloadSurplus(st, name, h);
  }

  /** Safety over every run: an active entry's library is always open, and nothing is closed twice. */
  lemma {:induction false} RunBalanced(ops: seq<Op>)
    ensures Balanced(Run(INITIAL, ops))
  {
    if ops != [] {
      var before := Run(INITIAL, ops[..|ops| - 1]);
      RunBalanced(ops[..|ops| - 1]);
      RunOneActive(ops[..|ops| - 1]);
      forall h ensures 0 <= Surplus(Run(INITIAL, ops), h) {
        StepSurplus(before, ops[|ops| - 1], h);
      }
    }
  }

  lemma BalancedMeansOpen(st: State, i: nat)
    requires Balanced(st) && i < |st.entries| && st.entries[i].active
    ensures st.closes[st.entries[i].handle] < st.opens[st.entries[i].handle]
  {
    assert 0 <= Surplus(st, st.entries[i].handle);
  }

  /** No handle is open without an active entry, and none is open twice. */
  ghost predicate LeakFree(st: State) {
    forall h :: Surplus(st, h) == 0
  }

  ghost predicate Tidy(st: State, op: Op) {
    forall h :: Leak(st, op, h) == 0
  }

  /** Every load of the run leaves no open reference behind. */
  ghost predicate TidyRun(ops: seq<Op>) {
    ops == [] || (TidyRun(ops[..|ops| - 1]) && Tidy(Run(INITIAL, ops[..|ops| - 1]), ops[|ops| - 1]))
  }

  lemma RunStep(ops: seq<Op>, h: Handle)
    requires ops != []
    ensures var init, last := ops[..|ops| - 1], ops[|ops| - 1];
            && Surplus(Run(INITIAL, ops), h) == Surplus(Run(INITIAL, init), h) + Leak(Run(INITIAL, init), last, h)
            && 0 <= Surplus(Run(INITIAL, init), h)
  {
    var init := ops[..|ops| - 1];
    RunOneActive(init);
    RunBalanced(init);
    StepSurplus(Run(INITIAL, init), ops[|ops| - 1], h);
  }

  /**
   A run ends without leaked references if and only if no load in it, read off the state before it, reopened a library
   in use or shadowed all active entries of another; what leaks is never recovered.
   */
  lemma {:induction false} LeakFreeExactly(ops: seq<Op>)
    ensures LeakFree(Run(INITIAL, ops)) <==> TidyRun(ops)
  {
    if ops != [] {
      var init, last := ops[..|ops| - 1], ops[|ops| - 1];
      LeakFreeExactly(init);
      forall h ensures Surplus(Run(INITIAL, ops), h) == 0
                  <==> Surplus(Run(INITIAL, init), h) == 0 && Leak(Run(INITIAL, init), last, h) == 0 {
        RunStep(ops, h);
      }
    }
  }

  /** What a load leaks stays open through every later run. */
  lemma LeakedForever(st: State, lib: Option<Library>, names: seq<string>, h: Handle, ops: seq<Op>)
    requires Balanced(st) && OneActive(st.entries) && Leaks(st, lib, names, h)
    ensures 1 <= Surplus(Run(LoadStep(st, lib, names), ops), h)
  {
    LoadSurplus(st, lib, names, h);
    assert 0 <= Surplus(st, h);
    StepOneActive(st, Load(lib, names));
    RunSurplus(LoadStep(st, lib, names), ops, h);
  }

  lemma {:induction false} RunSurplus(st: State, ops: seq<Op>, h: Handle)
    requires OneActive(st.entries)
    ensures Surplus(st, h) <= Surplus(Run(st, ops), h)
  {
    if ops != [] {
      var init := ops[..|ops| - 1];
      RunSurplus(st, init, h);
      OneActiveThrough(st, init);
      StepSurplus(Run(st, init), ops[|ops| - 1], h);
    }
  }

  lemma LoadedOne(lib: Library, name: string)
    requires Accepts(lib, name) && lib.symbols[name].name == None
    ensures Loaded(lib, [name]) == [Entry(name, name, lib.handle, true)]
  {
    assert [name][..0] == [];
  }

  lemma OneInstalled(e: Entry)
    ensures InstalledAll([], [e]) == [e]
  {
    assert [e][..0] == [] && InstalledAll([], []) == [];
    assert Installed([], e) == [] + [e];
  }

  /** Two libraries with a builtin of one name, loaded in turn: the first is left open with nothing to close it. */
  lemma ShadowingLeaks(name: string, first: Library, second: Library)
    requires Accepts(first, name) && first.symbols[name].name == None
    requires Accepts(second, name) && second.symbols[name].name == None && first.handle != second.handle
    ensures var st := Run(INITIAL, [Load(Some(first), [name])]);
            LeakFree(st) && Leaks(st, Some(second), [name], first.handle)
    ensures !LeakFree(Run(INITIAL, [Load(Some(first), [name]), Load(Some(second), [name])]))
  {
    var load1, load2 := Load(Some(first), [name]), Load(Some(second), [name]);
    var e := Entry(name, name, first.handle, true);
    var st := Run(INITIAL, [load1]);
    LoadedOne(first, name);
    LoadedOne(second, name);
    OneInstalled(e);
    assert [load1][..|[load1]| - 1] == [] && Run(INITIAL, []) == INITIAL;
    assert st == LoadStep(INITIAL, Some(first), [name]);
    assert INITIAL.opens + multiset{first.handle} == multiset{first.handle};
    assert HandleActive([e], first.handle) by { assert [e][0].handle == first.handle; }
    assert Named(Loaded(second, [name]), name) by { assert Loaded(second, [name])[0].name == name; }
    assert [load1, load2][..1] == [load1];
    RunStep([load1, load2], first.handle);
  }

  // ----- visibility

  /** After an unload the name is gone: nothing it had shadowed comes back. */
  lemma UnloadedStaysGone(ops: seq<Op>, name: string)
    ensures var st := Run(INITIAL, ops + [Unload(name)]); LastActive(st.entries, name) == |st.entries|
  {
    assert (ops + [Unload(name)])[..|ops|] == ops;
    RunOneActive(ops);
    var before := Run(INITIAL, ops).entries;
    var i := LastActive(before, name);
    var after := Run(INITIAL, ops + [Unload(name)]).entries;
    forall j | 0 <= j < |after| ensures !(after[j].name == name && after[j].active) {
      assert i < |before| && before[j].active && j != i ==> before[j].name != before[i].name;
    }
  }

  /** Inactive entries never come back to life. */
  lemma {:induction false} InactiveForever(st: State, ops: seq<Op>, i: nat)
    requires i < |st.entries| && !st.entries[i].active
    ensures var r := Run(st, ops).entries; |st.entries| <= |r| && r[i] == st.entries[i]
  {
    if ops != [] {
      InactiveForever(st, ops[..|ops| - 1], i);
      var before := Run(st, ops[..|ops| - 1]);
      match ops[|ops| - 1]
      case Load(lib, names) =>
        if lib.Some? { InstalledKeepsInactive(before.entries, Loaded(lib.value, names), i); }
      case Unload(name) =>
    }
  }

  lemma {:induction false} InstalledKeepsInactive(entries: seq<Entry>, loaded: seq<Entry>, i: nat)
    requires i < |entries| && !entries[i].active
    ensures var r := InstalledAll(entries, loaded); |entries| <= |r| && r[i] == entries[i]
  {
    if loaded != [] { InstalledKeepsInactive(entries, loaded[..|loaded| - 1], i); }
  }

  lemma LastActiveIs(entries: seq<Entry>, name: string, i: nat)
    requires i < |entries| && entries[i].name == name && entries[i].active
    requires forall j :: i < j < |entries| ==> !(entries[j].name == name && entries[j].active)
    ensures LastActive(entries, name) == i
  {}

  /** The entry is the one that lookup finds for its name. */
  predicate Visible(entries: seq<Entry>, e: Entry) {
    var i := LastActive(entries, e.name);
    i < |entries| && entries[i] == e
  }

  lemma VisibleStays(entries: seq<Entry>, other: Entry, e: Entry)
    requires Visible(entries, e) && other.name != e.name
    ensures Visible(Installed(entries, other), e)
  {
    LastActiveIs(Installed(entries, other), e.name, LastActive(entries, e.name));
  }

  lemma VisibleNew(entries: seq<Entry>, e: Entry)
    requires e.active
    ensures Visible(Installed(entries, e), e)
  {
    LastActiveIs(Installed(entries, e), e.name, |entries|);
  }

  /** A load makes its newest entry for each name the visible one. */
  lemma {:induction false} NewestVisible(entries: seq<Entry>, loaded: seq<Entry>, k: nat)
    requires k < |loaded| && loaded[k].active
    requires forall i :: k < i < |loaded| ==> loaded[i].name != loaded[k].name
    ensures Visible(InstalledAll(entries, loaded), loaded[k])
  {
    var init, last := loaded[..|loaded| - 1], loaded[|loaded| - 1];
    if k < |init| {
      NewestVisible(entries, init, k);
      VisibleStays(InstalledAll(entries, init), last, loaded[k]);
    } else {
      VisibleNew(InstalledAll(entries, init), last);
    }
  }

  lemma InstalledSnoc(entries: seq<Entry>, loaded: seq<Entry>, k: nat)
    requires k < |loaded|
    ensures InstalledAll(entries, loaded[..k + 1]) == Installed(InstalledAll(entries, loaded[..k]), loaded[k])
  {
    assert loaded[..k + 1][..k] == loaded[..k];
  }

  lemma LoadedStep(lib: Library, names: seq<string>, i: nat)
    requires i < |names|
    ensures Loaded(lib, names[..i + 1])
         == Loaded(lib, names[..i]) + if Accepts(lib, names[i]) then [EntryFor(lib, names[i])] else []
  {
    assert names[..i + 1][..i] == names[..i];
  }

  lemma LoadedSnoc<T>(base: seq<T>, loaded: seq<T>, k: nat)
    requires k < |loaded|
    ensures base + loaded[..k] + [loaded[k]] == base + loaded[..k + 1]
    ensures forall e :: e in base + loaded[..k] ==> e in base || e in loaded
  {}

  // ----- the registry itself

  class DynamicBuiltin {
    const name: string
    const symbol: string
    const handle: Handle
    var active: bool

    constructor (e: Entry)
      ensures AsEntry() == e
    {
      name, symbol, handle, active := e.name, e.symbol, e.handle, e.active;
    }

    function AsEntry(): Entry
      reads this
    {
      Entry(name, symbol, handle, active)
    }
  }

  class Registry {
    var entries: seq<DynamicBuiltin>
    var opens: multiset<Handle>
    var closes: multiset<Handle>

    /** No two slots share an entry. */
    ghost predicate Valid()
      reads this
    {
      forall i, j :: 0 <= i < j < |entries| ==> entries[i] != entries[j]
    }

    ghost function View(): (v: seq<Entry>)
      reads this, entries
      ensures |v| == |entries| && forall i :: 0 <= i < |v| ==> v[i] == entries[i].AsEntry()
    {
      seq(|entries|, i requires 0 <= i < |entries| reads this, entries => entries[i].AsEntry())
    }

    ghost function Abstract(): State
      reads this, entries
    {
      State(View(), opens, closes)
    }

    constructor ()
      ensures Valid() && Abstract() == INITIAL
    {
      entries, opens, closes := [], multiset{}, multiset{};
    }

    method Find(name: string) returns (i: nat)
      ensures i == LastActive(View(), name)
    {
      for k := |entries| downto 0
        invariant forall j :: k <= j < |entries| ==> !(View()[j].name == name && View()[j].active)
      {
        if entries[k].name == name && entries[k].active {
          LastActiveIs(View(), name, k);
          return k;
        }
      }
      i := |entries|;
    }

    /** The visible entry of a name: the only active one, in every reachable state. */
    method Lookup(name: string) returns (r: Option<DynamicBuiltin>)
      ensures r == None ==> forall i :: 0 <= i < |entries| ==> !(entries[i].name == name && entries[i].active)
      ensures r.Some? ==> r.value in entries && r.value.name == name && r.value.active
      ensures r.Some? && OneActive(View()) ==>
                forall i :: 0 <= i < |entries| && entries[i].name == name && entries[i].active ==> entries[i] == r.value
    {
      var i := Find(name);
      if i == |entries| { return None; }
      r := Some(entries[i]);
      assert View()[i].active && View()[i].name == name;
      forall j | 0 <= j < |entries| && entries[j].name == name && entries[j].active && OneActive(View())
        ensures entries[j] == entries[i]
      {
        assert View()[j].active && View()[j].name == name;
        assert !(i < j) && !(j < i);
      }
    }

    method IsDynamic(name: string) returns (yes: bool)
      ensures yes <==> exists i :: 0 <= i < |entries| && entries[i].name == name && entries[i].active
    {
      var i := Find(name);
      yes := i < |entries|;
      assert yes ==> View()[i].active && View()[i].name == name;
      assert !yes ==> forall j :: 0 <= j < |entries| ==> !(View()[j].name == name && View()[j].active);
    }

    /** Every name with an active entry, once. */
    method Iter() returns (out: seq<DynamicBuiltin>)
      ensures forall i :: 0 <= i < |out| ==> out[i] in entries && out[i].active
      ensures forall i, j :: 0 <= i < j < |out| ==> out[i].name != out[j].name
      ensures forall k :: 0 <= k < |entries| && entries[k].active ==>
                exists i :: 0 <= i < |out| && out[i].name == entries[k].name
    {
      out := [];
      var seen: set<string> := {};
      for k := |entries| downto 0
        invariant forall i :: 0 <= i < |out| ==> out[i] in entries && out[i].active && out[i].name in seen
        invariant forall n :: n in seen ==> exists i :: 0 <= i < |out| && out[i].name == n
        invariant forall i, j :: 0 <= i < j < |out| ==> out[i].name != out[j].name
        invariant forall j :: k <= j < |entries| && entries[j].active ==> entries[j].name in seen
      {
        if entries[k].active && entries[k].name !in seen {
          ghost var before := out;
          out := out + [entries[k]];
          seen := seen + {entries[k].name};
          forall n | n in seen ensures exists i :: 0 <= i < |out| && out[i].name == n {
            if n == entries[k].name {
              assert out[|out| - 1].name == n;
            } else {
              var i :| 0 <= i < |before| && before[i].name == n;
              assert out[i].name == n;
            }
          }
        }
      }
    }

    /** Deactivates what `e` shadows and appends `e`. */
    method Install(e: DynamicBuiltin)
      requires Valid() && e !in entries
      modifies this`entries, entries`active
      ensures Valid() && entries == old(entries) + [e]
      ensures View() == Installed(old(View()), old(e.AsEntry()))
    {
      var i := Find(e.name);
      if i < |entries| { Deactivate(i); }
      assert e.AsEntry() == old(e.AsEntry()) && View() == Deactivated(old(View()), i);
      Append(e);
    }

    method Append(e: DynamicBuiltin)
      requires Valid() && e !in entries
      modifies this`entries
      ensures Valid() && entries == old(entries) + [e] && View() == old(View()) + [e.AsEntry()]
    {
      entries := entries + [e];
    }

    /** `enable -f`; `lib` is absent when the path or `dlopen` fails. */
    method Load(lib: Option<Library>, names: seq<string>) returns (ok: bool)
      requires Valid()
      modifies this, entries`active
      ensures Valid() && Abstract() == LoadStep(old(Abstract()), lib, names)
      ensures ok <==> names != [] && lib.Some? && forall i :: 0 <= i < |names| ==> Accepts(lib.value, names[i])
    {
      if names == [] || lib == None { return false; }
      opens := opens + multiset{lib.value.handle};
      var loaded: seq<DynamicBuiltin>;
      loaded, ok := Resolve(lib.value, names);
      assert View() == old(View());
      if loaded == [] {
        closes := closes + multiset{lib.value.handle};
        return;
      }
      InstallAll(loaded, Loaded(lib.value, names));
    }

    /** Looks every requested name up in the library and makes its entry. */
    method Resolve(lib: Library, names: seq<string>) returns (loaded: seq<DynamicBuiltin>, ok: bool)
      ensures fresh(set e | e in loaded) && Pending(loaded, Loaded(lib, names), 0)
      ensures ok <==> forall i :: 0 <= i < |names| ==> Accepts(lib, names[i])
    {
      loaded, ok := [], true;
      for i := 0 to |names|
        invariant fresh(set e | e in loaded) && Pending(loaded, Loaded(lib, names[..i]), 0)
        invariant ok <==> forall j :: 0 <= j < i ==> Accepts(lib, names[j])
      {
        LoadedStep(lib, names, i);
        if Accepts(lib, names[i]) {
          var e := new DynamicBuiltin(EntryFor(lib, names[i]));
          loaded := loaded + [e];
        } else {
          ok := false;
        }
      }
      assert names[..|names|] == names;
    }

    /** The entries still to install are out of the registry and as they were made. */
    ghost predicate Pending(loaded: seq<DynamicBuiltin>, spec: seq<Entry>, k: nat)
      reads this, loaded
    {
      && |spec| == |loaded| && (forall a, b :: 0 <= a < b < |loaded| ==> loaded[a] != loaded[b])
      && forall a :: k <= a < |loaded| ==> loaded[a].AsEntry() == spec[a] && loaded[a] !in entries
    }

    /** The first `k` of the loaded entries are installed after those of `base`, which looked like `start`. */
    ghost predicate Progress(base: seq<DynamicBuiltin>, loaded: seq<DynamicBuiltin>, start: seq<Entry>,
                             spec: seq<Entry>, k: nat)
      reads this, entries, loaded
    {
      && Valid() && k <= |loaded| && Pending(loaded, spec, k)
      && entries == base + loaded[..k] && View() == InstalledAll(start, spec[..k])
    }

    method InstallOne(loaded: seq<DynamicBuiltin>, ghost spec: seq<Entry>, k: nat)
      requires Valid() && k < |loaded| && Pending(loaded, spec, k)
      modifies this`entries, entries`active
      ensures Valid() && Pending(loaded, spec, k + 1)
      ensures entries == old(entries) + [loaded[k]] && View() == Installed(old(View()), spec[k])
    {
      Install(loaded[k]);
    }

    method InstallNext(ghost base: seq<DynamicBuiltin>, loaded: seq<DynamicBuiltin>, ghost start: seq<Entry>,
                       ghost spec: seq<Entry>, k: nat)
      requires k < |loaded| && Progress(base, loaded, start, spec, k)
      modifies this`entries, base`active, loaded`active
      ensures Progress(base, loaded, start, spec, k + 1)
    {
      InstalledSnoc(start, spec, k);
      LoadedSnoc(base, loaded, k);
      InstallOne(loaded, spec, k);
    }

    method InstallAll(loaded: seq<DynamicBuiltin>, ghost spec: seq<Entry>)
      requires Valid() && Pending(loaded, spec, 0)
      modifies this`entries, entries`active, loaded`active
      ensures Valid() && View() == InstalledAll(old(View()), spec)
    {
      ghost var base, start := entries, View();
      assert spec[..0] == [] && loaded[..0] == [];
      for k := 0 to |loaded|
        invariant Progress(base, loaded, start, spec, k)
      {
        InstallNext(base, loaded, start, spec, k);
      }
      assert spec[..|spec|] == spec;
    }

    /** Whether an active entry stands on the handle. */
    method InUse(h: Handle) returns (used: bool)
      ensures used <==> HandleActive(View(), h)
    {
      used := false;
      for k := 0 to |entries|
        invariant used <==> exists j :: 0 <= j < k && View()[j].handle == h && View()[j].active
      {
        assert View()[k] == entries[k].AsEntry();
        if entries[k].handle == h && entries[k].active { used := true; }
      }
    }

    method Deactivate(i: nat)
      requires Valid() && i < |entries|
      modifies entries`active
      ensures View() == Deactivated(old(View()), i)
    {
      entries[i].active := false;
    }

    /** Closes a library that no active entry stands on; `closeWorks` is the answer of `dlclose`. */
    method Release(h: Handle, closeWorks: bool) returns (ok: bool)
      modifies this`closes
      ensures View() == old(View())
      ensures closes == ClosesAfter(View(), old(closes), h)
      ensures ok <==> HandleActive(View(), h) || closeWorks
    {
      var used := InUse(h);
      if !used { closes := closes + multiset{h}; }
      ok := used || closeWorks;
    }

    /** Withdraws one entry and closes its library once nothing stands on it. */
    method Withdraw(i: nat, closeWorks: bool) returns (ok: bool)
      requires Valid() && i < |entries|
      modifies this`closes, entries`active
      ensures Valid() && opens == old(opens) && View() == Deactivated(old(View()), i)
      ensures closes == ClosesAfter(View(), old(closes), old(View())[i].handle)
      ensures ok <==> HandleActive(View(), old(View())[i].handle) || closeWorks
    {
      Deactivate(i);
      ok := Release(entries[i].handle, closeWorks);
    }

    /** `enable -d`; `closeWorks` is the answer of `dlclose`, should it be called. */
    method Unload(name: string, closeWorks: bool) returns (ok: bool)
      requires Valid()
      modifies this`closes, entries`active
      ensures Valid() && Abstract() == UnloadStep(old(Abstract()), name)
      ensures ok <==> old(LastActive(View(), name)) < |entries| && (closes == old(closes) || closeWorks)
    {
      var i := Find(name);
      if i == |entries| { return false; }
      ghost var before := Abstract();
      ok := Withdraw(i, closeWorks);
      UnloadIs(before, name, i);
    }
  }

  function ClosesAfter(entries: seq<Entry>, closes: multiset<Handle>, h: Handle): multiset<Handle> {
    if HandleActive(entries, h) then closes else closes + multiset{h}
  }

  lemma UnloadIs(st: State, name: string, i: nat)
    requires i == LastActive(st.entries, name) < |st.entries|
    ensures var h := st.entries[i].handle;
            var entries := Deactivated(st.entries, i);
            var closes := ClosesAfter(entries, st.closes, h);
            UnloadStep(st, name) == State(entries, st.opens, closes)
            && (closes == st.closes <==> HandleActive(entries, h))
  {
    var h := st.entries[i].handle;
    assert (st.closes + multiset{h})[h] == st.closes[h] + 1;
  }
}

/**
 The `getopts` builtin on shell variables: its place is read from, and left in, decimal text. Assignments to readonly
 variables are refused without further notice, and unsetting makes a variable writable again.
 */
module GetOptsVars {
  import opened Decimal
  import opened GetOpt
  import opened Option
  import opened Scanners

  type Vars = map<string, string>

  const NEXT_CHAR_VAR := "_CHERUBSH_GETOPTS_NEXT"
  const LAST_OPTIND_VAR := "_CHERUBSH_GETOPTS_OPTIND"

  /** Hidden variables are kept apart for each function depth. */
  function StateVar(base: string, depth: nat): string {
    base + "_" + ToString(depth)
  }

  datatype Hidden = Hidden(last: string, next: string)

  function HiddenVars(depth: nat): Hidden {
    Hidden(StateVar(LAST_OPTIND_VAR, depth), StateVar(NEXT_CHAR_VAR, depth))
  }

  function Number(vars: Vars, name: string): Option<nat> {
    if name in vars then ParseUsize(vars[name]) else None
  }

  /** The place the variables describe; a changed OPTIND restarts at the first option letter. */
  function PlaceOf(vars: Vars, h: Hidden): Place {
    var optind := if Number(vars, "OPTIND").Some? then Number(vars, "OPTIND").value else 1;
    var next := if Number(vars, h.next).Some? then Number(vars, h.next).value else 1;
    Place(optind, if Number(vars, h.last) == Some(optind) then next else 1)
  }

  /** The variables, and which of them are readonly. */
  datatype Store = Store(vars: Vars, locked: set<string>)

  function Assigned(s: Store, name: string, value: string): Store {
    if name in s.locked then s else s.(vars := s.vars[name := value])
  }

  function Without(s: Store, name: string): Store {
    Store(s.vars - {name}, s.locked - {name})
  }

  /** The hidden variables are two, and not public ones. */
  predicate HiddenOk(h: Hidden) {
    && h.last != h.next
    && h.last != "OPTIND" && h.last != "OPTARG" && h.next != "OPTIND" && h.next != "OPTARG"
  }

  /** A name of the caller's own. */
  predicate OwnName(name: string, h: Hidden) {
    name != "OPTIND" && name != "OPTARG" && name != h.last && name != h.next
  }

  /** None of the variables a call writes is readonly. */
  predicate Writable(s: Store, name: string, h: Hidden) {
    s.locked !! {name, "OPTARG", "OPTIND", h.last, h.next}
  }

  lemma HiddenApart(depth: nat)
    ensures HiddenOk(HiddenVars(depth))
  {
    var h := HiddenVars(depth);
    assert h.last[0] == '_' && h.next[0] == '_' && h.last[18] == 'O' && h.next[18] == 'N';
  }

  /** Lengths a machine can hold. */
  predicate Addressable(args: seq<string>) {
    |args| + 2 < USIZE_LIMIT && forall i :: 0 <= i < |args| ==> |args[i]| < USIZE_LIMIT
  }

  /** A step whose OPTARG is unset before the name is written: an option without an argument. */
  predicate PlainOption(report: Option<Report>) {
    report.Some? && report.value.optarg == None && report.value.message == Quiet
  }

  /** The name and OPTARG as a report, or the end, writes them. */
  function Announced(s: Store, name: string, report: Option<Report>): Store {
    if report.Some? && report.value.optarg.Some? then
      Assigned(Assigned(s, "OPTARG", report.value.optarg.value), name, report.value.name)
    else if PlainOption(report) then Assigned(Without(s, "OPTARG"), name, report.value.name)
    else Without(Assigned(s, name, "?"), "OPTARG")
  }

  /** What a call leaves, for any name: the writes in the order of the source. */
  function Left(s: Store, name: string, h: Hidden, o: Outcome): Store {
    if o == Abort then s
    else
      var told := Announced(s, name, o.report);
      var moved := if o.stored then Assigned(told, "OPTIND", ToString(o.place.optind)) else told;
      Assigned(Assigned(moved, h.last, ToString(o.place.optind)), h.next, ToString(o.place.next))
  }

  /** The name and OPTARG tell the report, or the end. */
  predicate Told(after: Vars, name: string, report: Option<Report>) {
    && name in after && after[name] == (if report.Some? then report.value.name else "?")
    && (if report.Some? && report.value.optarg.Some?
        then "OPTARG" in after && after["OPTARG"] == report.value.optarg.value else "OPTARG" !in after)
  }

  predicate SameAt(before: Vars, after: Vars, v: string) {
    (v in after <==> v in before) && (v in before ==> after[v] == before[v])
  }

  /** What the variables say after a step, whatever they said before. */
  ghost predicate Stored(before: Vars, after: Vars, name: string, h: Hidden, o: Outcome)
    requires o.Step?
  {
    && Told(after, name, o.report)
    && (if o.stored then PlaceOf(after, h) == o.place else Number(after, "OPTIND") == Number(before, "OPTIND"))
    && (forall v :: v !in {name, "OPTARG", "OPTIND", h.last, h.next} ==> SameAt(before, after, v))
  }

  /** A place that fits a machine word. */
  predicate Fits(p: Place) { p.optind < USIZE_LIMIT && p.next < USIZE_LIMIT }

  /** The place written is the place read next, whatever the name. */
  lemma PlaceStored(s: Store, name: string, h: Hidden, o: Outcome)
    requires HiddenOk(h) && Movable(s, h) && o.Step? && o.stored && Fits(o.place)
    ensures PlaceOf(Left(s, name, h, o).vars, h) == o.place
  {
    var after := Left(s, name, h, o).vars;
    ParseToString(o.place.optind);
    ParseToString(o.place.next);
    assert Number(after, "OPTIND") == Some(o.place.optind) == Number(after, h.last);
    assert Number(after, h.next) == Some(o.place.next);
  }

  /** The name a step writes is "?" unless it reports an option or a silent error. */
  lemma ErrorsSayQuestion(args: seq<string>, spec: string, p: Place)
    ensures var o := Walk(args, spec, p);
            o.Step? && o.report.Some? && o.report.value.optarg == None && !PlainOption(o.report) ==>
              o.report.value.name == "?"
  {}

  lemma CallTells(s: Store, name: string, h: Hidden, o: Outcome)
    requires HiddenOk(h) && OwnName(name, h) && Writable(s, name, h) && o.Step?
    requires o.report.Some? && o.report.value.optarg == None && !PlainOption(o.report) ==> o.report.value.name == "?"
    ensures Told(Left(s, name, h, o).vars, name, o.report)
  {
    var told := Announced(s, name, o.report);
    assert Told(told.vars, name, o.report);
  }

  lemma CallSpares(s: Store, name: string, h: Hidden, o: Outcome, v: string)
    requires v !in {name, "OPTARG", "OPTIND", h.last, h.next}
    ensures SameAt(s.vars, Left(s, name, h, o).vars, v)
  {}

  /** A step that does not store leaves OPTIND alone, unless it is the name. */
  lemma OptindLeft(s: Store, name: string, h: Hidden, o: Outcome)
    requires HiddenOk(h) && o.Step? && !o.stored && name != "OPTIND"
    ensures Number(Left(s, name, h, o).vars, "OPTIND") == Number(s.vars, "OPTIND")
  {}

  /** For a name of the caller's own and writable variables, the variables carry the whole outcome of the call. */
  lemma CallStored(s: Store, spec: string, name: string, args: seq<string>, h: Hidden)
    requires HiddenOk(h) && OwnName(name, h) && Writable(s, name, h) && Addressable(args)
    ensures var o := Walk(args, spec, PlaceOf(s.vars, h));
            o.Step? ==> Stored(s.vars, Left(s, name, h, o).vars, name, h, o)
  {
    var p := PlaceOf(s.vars, h);
    var o := Walk(args, spec, p);
    if o.Step? {
      ErrorsSayQuestion(args, spec, p);
      CallTells(s, name, h, o);
      PlaceBounds(args, spec, p);
      if o.stored { PlaceStored(s, name, h, o); } else { OptindLeft(s, name, h, o); }
      forall v | v !in {name, "OPTARG", "OPTIND", h.last, h.next} ensures SameAt(s.vars, Left(s, name, h, o).vars, v) {
        CallSpares(s, name, h, o, v);
      }
    }
  }

  lemma PlaceBounds(args: seq<string>, spec: string, p: Place)
    requires Addressable(args)
    ensures var o := Walk(args, spec, p); o.Step? && o.stored ==> Fits(o.place)
  {}

  // ----- a readonly OPTIND

  /** What one call leaves. */
  function CallLeaves(s: Store, spec: string, name: string, args: seq<string>, h: Hidden): Store {
    Left(s, name, h, Walk(args, spec, PlaceOf(s.vars, h)))
  }

  /** What `k` calls leave, one after the other. */
  function AfterCalls(s: Store, spec: string, name: string, args: seq<string>, h: Hidden, k: nat): Store {
    if k == 0 then s else CallLeaves(AfterCalls(s, spec, name, args, h, k - 1), spec, name, args, h)
  }

  predicate Reporting(o: Outcome) { o.Step? && o.report.Some? }

  /** The byte to look at is inside an option word. */
  predicate InWord(args: seq<string>, p: Place) {
    PlaceOk(p) && p.optind <= |args| && IsOptionWord(args[p.optind - 1]) && p.next < |args[p.optind - 1]|
  }

  /** OPTIND cannot be written, the hidden variables can. */
  predicate OptindLocked(s: Store, h: Hidden) {
    "OPTIND" in s.locked && h.last !in s.locked && h.next !in s.locked
  }

  /** With a readonly OPTIND, the next call goes on in the same word or starts it again. */
  function Kept(before: Place, o: Outcome): Place
    requires o.Step?
  {
    Place(before.optind, if o.place.optind == before.optind then o.place.next else 1)
  }

  lemma LockedPlace(s: Store, name: string, h: Hidden, o: Outcome)
    requires HiddenOk(h) && OptindLocked(s, h) && o.Step? && Fits(o.place)
    ensures var t := Left(s, name, h, o); OptindLocked(t, h) && PlaceOf(t.vars, h) == Kept(PlaceOf(s.vars, h), o)
  {
    var t := Left(s, name, h, o);
    ParseToString(o.place.optind);
    ParseToString(o.place.next);
    assert Number(t.vars, "OPTIND") == Number(s.vars, "OPTIND");
    assert Number(t.vars, h.last) == Some(o.place.optind) && Number(t.vars, h.next) == Some(o.place.next);
  }

  lemma LetterReports(args: seq<string>, spec: string, p: Place)
    requires InWord(args, p)
    ensures var o := Walk(args, spec, p);
            Reporting(o) && o.stored && o.place.optind >= p.optind
            && (o.place.optind == p.optind ==> InWord(args, o.place))
  {}

  lemma LaterWord(args: seq<string>, spec: string, p: Place)
    requires PlaceOk(p) && Reporting(Walk(args, spec, p)) && !InWord(args, p)
    ensures var o := Walk(args, spec, p);
            && o.stored && o.place.optind > p.optind
            && p.optind <= |args| && IsOptionWord(args[p.optind - 1])
  {}

  /** Kept in its word, a place that reported is inside an option word. */
  lemma KeptInWord(args: seq<string>, spec: string, p: Place)
    requires Reporting(Walk(args, spec, p))
    ensures Walk(args, spec, p).stored && InWord(args, Normal(Kept(p, Walk(args, spec, p))))
  {
    WalkNormal(args, spec, p);
    if InWord(args, Normal(p)) { LetterReports(args, spec, Normal(p)); } else { LaterWord(args, spec, Normal(p)); }
  }

  /** A call that reports is followed by one that reports again, and so on. */
  lemma ReportsAgain(s: Store, spec: string, name: string, args: seq<string>, h: Hidden)
    requires HiddenOk(h) && Addressable(args) && OptindLocked(s, h) && Reporting(Walk(args, spec, PlaceOf(s.vars, h)))
    ensures var t := CallLeaves(s, spec, name, args, h);
            OptindLocked(t, h) && Reporting(Walk(args, spec, PlaceOf(t.vars, h)))
  {
    var p := PlaceOf(s.vars, h);
    KeptInWord(args, spec, p);
    PlaceBounds(args, spec, p);
    LockedPlace(s, name, h, Walk(args, spec, p));
    var q := Kept(p, Walk(args, spec, p));
    WalkNormal(args, spec, q);
    LetterReports(args, spec, Normal(q));
  }

  lemma {:induction false} StillReporting(s: Store, spec: string, name: string, args: seq<string>, h: Hidden, k: nat)
    requires HiddenOk(h) && Addressable(args) && OptindLocked(s, h) && Reporting(Walk(args, spec, PlaceOf(s.vars, h)))
    ensures var t := AfterCalls(s, spec, name, args, h, k);
            OptindLocked(t, h) && Reporting(Walk(args, spec, PlaceOf(t.vars, h)))
  {
    if k > 0 {
      StillReporting(s, spec, name, args, h, k - 1);
      ReportsAgain(AfterCalls(s, spec, name, args, h, k - 1), spec, name, args, h);
    }
  }

  /** The call after `k` calls reports something. */
  predicate CallReports(s: Store, spec: string, name: string, args: seq<string>, h: Hidden, k: nat) {
    Reporting(Walk(args, spec, PlaceOf(AfterCalls(s, spec, name, args, h, k).vars, h)))
  }

  /** With a readonly OPTIND a loop over `getopts` goes on for ever if and only if its first call reports something. */
  lemma ReadonlyOptindLoops(s: Store, spec: string, name: string, args: seq<string>, h: Hidden)
    requires HiddenOk(h) && Addressable(args) && OptindLocked(s, h)
    ensures (forall k :: CallReports(s, spec, name, args, h, k)) <==> Reporting(Walk(args, spec, PlaceOf(s.vars, h)))
  {
    assert CallReports(s, spec, name, args, h, 0) <==> Reporting(Walk(args, spec, PlaceOf(s.vars, h)));
    if CallReports(s, spec, name, args, h, 0) {
      forall k ensures CallReports(s, spec, name, args, h, k) { StillReporting(s, spec, name, args, h, k); }
    }
  }

  lemma FreshPlace(h: Hidden)
    requires HiddenOk(h)
    ensures PlaceOf(map["OPTIND" := ToString(1)], h) == Place(1, 1)
  {
    ParseToString(1);
  }

  lemma LoopsFrom(vars: Vars, h: Hidden, k: nat)
    requires HiddenOk(h) && PlaceOf(vars, h) == Place(1, 1)
    ensures CallReports(Store(vars, {"OPTIND"}), "a", "o", ["-a"], h, k)
  {
    var s := Store(vars, {"OPTIND"});
    LetterReports(["-a"], "a", Place(1, 1));
    ReadonlyOptindLoops(s, "a", "o", ["-a"], h);
  }

  /** `readonly OPTIND=1`, then `getopts a o -a` again and again. */
  lemma ReadonlyOptindWitness(k: nat)
    ensures CallReports(Store(map["OPTIND" := ToString(1)], {"OPTIND"}), "a", "o", ["-a"], HiddenVars(0), k)
  {
    HiddenApart(0);
    FreshPlace(HiddenVars(0));
    LoopsFrom(map["OPTIND" := ToString(1)], HiddenVars(0), k);
  }

  // ----- runs

  /** What a run from these variables still reports, and where it leaves OPTIND. */
  function Remaining(vars: Vars, spec: string, args: seq<string>, h: Hidden): (seq<Report>, Option<nat>) {
    Reports(args, spec, Normal(PlaceOf(vars, h)))
  }

  function Distance(vars: Vars, args: seq<string>, h: Hidden): nat {
    PlaceMeasure(args, Normal(PlaceOf(vars, h)))
  }

  /** The variables a call needs for the next one can be written. */
  predicate Movable(s: Store, h: Hidden) {
    s.locked !! {"OPTIND", h.last, h.next}
  }

  /** Between the variables before a call and after it: a report first and the end nearer, or the end. */
  ghost predicate Went(vars: Vars, after: Vars, spec: string, name: string, args: seq<string>, h: Hidden, o: Outcome) {
    if Reporting(o) then
      var (rest, optind) := Remaining(after, spec, args, h);
      && Remaining(vars, spec, args, h) == ([o.report.value] + rest, optind)
      && Distance(after, args, h) < Distance(vars, args, h)
    else
      && Remaining(vars, spec, args, h) == ([], if o == Abort then None else Some(o.place.optind))
      && (o.Step? && name != "OPTIND" ==> Normal(PlaceOf(after, h)).optind == o.place.optind)
  }

  lemma GoesOn(s: Store, spec: string, name: string, args: seq<string>, h: Hidden)
    requires HiddenOk(h) && Movable(s, h) && Addressable(args) && Reporting(Walk(args, spec, PlaceOf(s.vars, h)))
    ensures var o := Walk(args, spec, PlaceOf(s.vars, h));
            Went(s.vars, CallLeaves(s, spec, name, args, h).vars, spec, name, args, h, o)
  {
    var p := PlaceOf(s.vars, h);
    WalkNormal(args, spec, p);
    ReportsStep(args, spec, Normal(p));
    PlaceBounds(args, spec, p);
    PlaceStored(s, name, h, Walk(args, spec, p));
  }

  lemma Ends(s: Store, spec: string, name: string, args: seq<string>, h: Hidden)
    requires HiddenOk(h) && Movable(s, h) && Addressable(args) && !Reporting(Walk(args, spec, PlaceOf(s.vars, h)))
    ensures var o := Walk(args, spec, PlaceOf(s.vars, h));
            Went(s.vars, CallLeaves(s, spec, name, args, h).vars, spec, name, args, h, o)
  {
    var p := PlaceOf(s.vars, h);
    var o := Walk(args, spec, p);
    WalkNormal(args, spec, p);
    ReportsStep(args, spec, Normal(p));
    PlaceBounds(args, spec, p);
    if o.Step? {
      if o.stored { PlaceStored(s, name, h, o); } else if name != "OPTIND" { OptindLeft(s, name, h, o); }
    }
  }

  lemma StaysMovable(s: Store, spec: string, name: string, args: seq<string>, h: Hidden)
    requires Movable(s, h)
    ensures Movable(CallLeaves(s, spec, name, args, h), h)
  {
    assert CallLeaves(s, spec, name, args, h).locked <= s.locked;
  }

  /** Every call of a run, with writable places and any name. */
  lemma CallWent(s: Store, t: Store, spec: string, name: string, args: seq<string>, h: Hidden, o: Outcome)
    requires HiddenOk(h) && Movable(s, h) && Addressable(args)
    requires o == Walk(args, spec, PlaceOf(s.vars, h)) && t == CallLeaves(s, spec, name, args, h)
    ensures Movable(t, h) && Went(s.vars, t.vars, spec, name, args, h, o)
  {
    StaysMovable(s, spec, name, args, h);
    if Reporting(o) { GoesOn(s, spec, name, args, h); } else { Ends(s, spec, name, args, h); }
  }

  // ----- the builtin

  class Shell {
    var store: Store

    method Assign(name: string, value: string)
      modifies this
      ensures store == Assigned(old(store), name, value)
    {
      if name !in store.locked { store := store.(vars := store.vars[name := value]); }
    }

    method Unset(name: string)
      modifies this
      ensures store == Without(old(store), name)
    {
      store := Store(store.vars - {name}, store.locked - {name});
    }

    /** Writes the name and OPTARG of a report, or of the end. */
    method Announce(name: string, report: Option<Report>)
      modifies this
      ensures store == Announced(old(store), name, report)
    {
      if report.Some? && report.value.optarg.Some? {
        Assign("OPTARG", report.value.optarg.value);
        Assign(name, report.value.name);
      } else if PlainOption(report) {
        Unset("OPTARG");
        Assign(name, report.value.name);
      } else {
        Assign(name, "?");
        Unset("OPTARG");
      }
    }

    /** One call after its arguments were checked; an abort comes before any write. */
    method Call(spec: string, name: string, args: seq<string>, h: Hidden) returns (o: Outcome)
      modifies this
      ensures o == Walk(args, spec, PlaceOf(old(store).vars, h))
      ensures store == CallLeaves(old(store), spec, name, args, h)
    {
      o := Walk(args, spec, PlaceOf(store.vars, h));
      if o == Abort { return; }
      Announce(name, o.report);
      if o.stored { Assign("OPTIND", ToString(o.place.optind)); }
      Assign(h.last, ToString(o.place.optind));
      Assign(h.next, ToString(o.place.next));
    }

    /** The builtin: usage and name errors first, then one step; no status at an abort. */
    method Getopts(depth: nat, spec: string, name: string, args: seq<string>)
      returns (status: Option<nat>, report: Option<Report>)
      modifies this
      ensures spec != "" && spec[0] == '-' ==> status == Some(2) && store == old(store)
      ensures !(spec != "" && spec[0] == '-') && !IsValidName(name) ==>
                status == Some(1) && store == Assigned(old(store), "OPTIND", "2")
      ensures !(spec != "" && spec[0] == '-') && IsValidName(name) ==>
        var h := HiddenVars(depth);
        var o := Walk(args, spec, PlaceOf(old(store).vars, h));
        && store == Left(old(store), name, h, o)
        && (o == Abort ==> status == None)
        && (o.Step? ==> report == o.report && status == Some(if report.Some? then 0 else 1))
        && (o.Step? && Addressable(args) && OwnName(name, h) && Writable(old(store), name, h) ==>
              Stored(old(store).vars, store.vars, name, h, o))
    {
      report := None;
      if spec != "" && spec[0] == '-' { return Some(2), None; }
      if !IsValidName(name) {
        Assign("OPTIND", "2");
        return Some(1), None;
      }
      var h := HiddenVars(depth);
      HiddenApart(depth);
      if Addressable(args) && OwnName(name, h) && Writable(store, name, h) { CallStored(store, spec, name, args, h); }
      var o := Call(spec, name, args, h);
      if o == Abort { return None, None; }
      report := o.report;
      status := Some(if report.Some? then 0 else 1);
    }

    method CallAndGo(spec: string, name: string, args: seq<string>, h: Hidden) returns (o: Outcome)
      requires HiddenOk(h) && Movable(store, h) && Addressable(args)
      modifies this
      ensures Movable(store, h) && Went(old(store).vars, store.vars, spec, name, args, h, o)
    {
      ghost var s := store;
      o := Call(spec, name, args, h);
      CallWent(s, store, spec, name, args, h, o);
    }

    /**
     Calling until status 1, with nothing but the variables in between and any name, gives the whole list of reports,
     and OPTIND as `getopts` reads it is then the index of the first operand, unless the name is OPTIND; `None` when a
     call aborts.
     */
    method Drive(depth: nat, spec: string, name: string, args: seq<string>)
      returns (reports: seq<Report>, optind: Option<nat>)
      requires Addressable(args)
      requires Movable(store, HiddenVars(depth))
      modifies this
      ensures var h := HiddenVars(depth);
              && (reports, optind) == Reports(args, spec, Normal(PlaceOf(old(store).vars, h)))
              && (optind.Some? && name != "OPTIND" ==> Normal(PlaceOf(store.vars, h)).optind == optind.value)
    {
      HiddenApart(depth);
      var h := HiddenVars(depth);
      reports := [];
      ghost var all := Remaining(store.vars, spec, args, h);
      assert [] + all.0 == all.0;
      while true
        invariant Movable(store, h)
        invariant Joined(reports, Remaining(store.vars, spec, args, h), all)
        decreases Distance(store.vars, args, h)
      {
        ghost var before := Remaining(store.vars, spec, args, h);
        var o := CallAndGo(spec, name, args, h);
        if !Reporting(o) {
          assert reports + [] == reports;
          optind := if o == Abort then None else Some(o.place.optind);
          return;
        }
        JoinedStep(reports, o.report.value, Remaining(store.vars, spec, args, h), before, all);
        reports := reports + [o.report.value];
      }
    }
  }

  /** Reports already seen, then the rest of a run, make the whole run. */
  predicate Joined(seen: seq<Report>, rest: (seq<Report>, Option<nat>), all: (seq<Report>, Option<nat>)) {
    (seen + rest.0, rest.1) == all
  }

  lemma JoinedStep(seen: seq<Report>, r: Report, rest: (seq<Report>, Option<nat>),
                   before: (seq<Report>, Option<nat>), all: (seq<Report>, Option<nat>))
    requires Joined(seen, before, all) && before == ([r] + rest.0, rest.1)
    ensures Joined(seen + [r], rest, all)
  {
    assert seen + ([r] + rest.0) == (seen + [r]) + rest.0;
  }

  lemma WalkNormal(args: seq<string>, spec: string, p: Place)
    ensures var o := Walk(args, spec, p);
            && o == Walk(args, spec, Normal(p))
            && (o.Step? ==> PlaceOk(o.place) && (!o.stored ==> o.place == Place(Normal(p).optind, 1)))
  {}
}

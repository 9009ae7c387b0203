/**
 The two option parsers: the in-memory cursor builtins use on their own arguments, and the
 `getopts` builtin, which keeps its place in shell variables from one call to the next.

 Both are run to the end on the same arguments; it is settled exactly when they report the
 same options, the same errors and the same first operand.
 */
module GetOpt {
  import opened Option

  datatype Event =
    | Opt(plus: bool, ch: char, arg: Option<string>)
    | End
    | Done
    | Unknown(plus: bool, ch: char)
    | Missing(plus: bool, ch: char)

  function Find(spec: string, ch: char): (i: nat)
    ensures i <= |spec| && (i < |spec| ==> spec[i] == ch) && forall j :: 0 <= j < i ==> spec[j] != ch
  {
    if spec == "" || spec[0] == ch then 0 else 1 + Find(spec[1..], ch)
  }

  predicate NeedsArg(spec: string, i: nat) {
    i + 1 < |spec| && spec[i + 1] == ':'
  }

  // ----- the cursor

  datatype Cursor = Cursor(pos: nat, inner: nat, index: nat)

  const START := Cursor(0, 0, 0)

  /** Not an option word: an operand, or a lone sign. */
  predicate IsOperand(arg: string) {
    arg == "" || (arg[0] != '-' && arg[0] != '+') || |arg| == 1
  }

  predicate CursorOk(args: seq<string>, c: Cursor) {
    c.pos <= |args| && (c.pos < |args| && c.inner > 0 ==> c.inner <= |args[c.pos]| && !IsOperand(args[c.pos]))
    && (c.pos == |args| ==> c.inner == 0)
  }

  /** The option letter at the cursor, inside a word. */
  function LetterStep(args: seq<string>, spec: string, c: Cursor): (r: (Event, Cursor))
    requires c.pos < |args| && 0 < c.inner < |args[c.pos]|
    ensures !r.0.End? && !r.0.Done?
    ensures CursorOk(args, c) ==> CursorOk(args, r.1)
    ensures r.1.pos > c.pos || (r.1.pos == c.pos && r.1.inner == c.inner + 1)
  {
    var arg := args[c.pos];
    var plus, ch := arg[0] == '+', arg[c.inner];
    var i := Find(spec, ch);
    if i == |spec| then (Unknown(plus, ch), c.(inner := c.inner + 1))
    else if NeedsArg(spec, i) then
      if c.inner + 1 < |arg| then (Opt(plus, ch, Some(arg[c.inner + 1..])), Cursor(c.pos + 1, 0, c.index))
      else if c.pos + 1 < |args| then (Opt(plus, ch, Some(args[c.pos + 1])), Cursor(c.pos + 2, 0, c.index))
      else (Missing(plus, ch), Cursor(c.pos + 1, 0, c.index))
    else
      var index := if c.inner + 1 >= |arg| then c.pos + 1 else c.pos;
      (Opt(plus, ch, None), Cursor(c.pos, c.inner + 1, index))
  }

  /** The start of a word. */
  function WordStep(args: seq<string>, spec: string, c: Cursor): (r: (Event, Cursor))
    requires c.pos <= |args| && c.inner == 0
    ensures CursorOk(args, r.1)
    ensures !r.0.End? && !r.0.Done? ==> r.1.pos > c.pos || (r.1.pos == c.pos && r.1.inner > 1)
  {
    if c.pos == |args| then (Done, c.(index := c.pos))
    else if args[c.pos] == "--" then (End, Cursor(|args|, 0, c.pos + 1))
    else if IsOperand(args[c.pos]) then (Done, c.(index := c.pos))
    else LetterStep(args, spec, c.(inner := 1))
  }

  function Next(args: seq<string>, spec: string, c: Cursor): (r: (Event, Cursor))
    requires CursorOk(args, c)
    ensures CursorOk(args, r.1)
    ensures !r.0.End? && !r.0.Done? ==> Measure(args, r.1) < Measure(args, c)
  {
    var r := if c.pos < |args| && c.inner > 0 && c.inner < |args[c.pos]| then LetterStep(args, spec, c)
             else if c.inner > 0 then WordStep(args, spec, Cursor(c.pos + 1, 0, c.index))
             else WordStep(args, spec, c);
    if !r.0.End? && !r.0.Done? then MeasureDrops(args, c, r.1); r else r
  }

  /** Bytes left to look at. */
  function Measure(args: seq<string>, c: Cursor): nat
    requires CursorOk(args, c)
  {
    Weight(args, c.pos) - c.inner
  }

  function Weight(args: seq<string>, pos: nat): (w: nat)
    requires pos <= |args|
    ensures pos < |args| ==> w > |args[pos]|
    decreases |args| - pos
  {
    if pos == |args| then 0 else |args[pos]| + 1 + Weight(args, pos + 1)
  }

  lemma {:induction false} WeightDrops(args: seq<string>, a: nat, b: nat)
    requires a <= b <= |args|
    ensures Weight(args, b) <= Weight(args, a) && (a < b ==> Weight(args, b) + |args[a]| < Weight(args, a))
    decreases b - a
  {
    if a < b { WeightDrops(args, a + 1, b); }
  }

  lemma MeasureDrops(args: seq<string>, c: Cursor, d: Cursor)
    requires CursorOk(args, c) && CursorOk(args, d)
    requires d.pos > c.pos || (d.pos == c.pos && d.inner > c.inner)
    ensures Measure(args, d) < Measure(args, c)
  {
    WeightDrops(args, c.pos, d.pos);
  }

  class OptParser {
    const args: seq<string>
    const spec: string
    var pos: nat
    var inner: nat
    var index: nat

    constructor (args: seq<string>, spec: string)
      ensures this.args == args && this.spec == spec && At() == START
    {
      this.args, this.spec := args, spec;
      pos, inner, index := 0, 0, 0;
    }

    ghost function At(): Cursor
      reads this
    {
      Cursor(pos, inner, index)
    }

    /** The option letter at the cursor. */
    method TakeLetter() returns (e: Event)
      requires pos < |args| && 0 < inner < |args[pos]|
      modifies this
      ensures (e, At()) == LetterStep(args, spec, old(At()))
    {
      var arg := args[pos];
      var plus := arg[0] == '+';
      var ch := arg[inner];
      inner := inner + 1;
      var i := Find(spec, ch);
      if i == |spec| { return Unknown(plus, ch); }
      if NeedsArg(spec, i) {
        if inner < |arg| {
          var rest := arg[inner..];
          pos, inner := pos + 1, 0;
          return Opt(plus, ch, Some(rest));
        }
        pos, inner := pos + 1, 0;
        if pos >= |args| { return Missing(plus, ch); }
        pos := pos + 1;
        return Opt(plus, ch, Some(args[pos - 1]));
      }
      index := if inner >= |arg| then pos + 1 else pos;
      e := Opt(plus, ch, None);
    }

    method NextEvent() returns (e: Event)
      requires CursorOk(args, At())
      modifies this
      ensures CursorOk(args, At()) && (e, At()) == Next(args, spec, old(At()))
    {
      if pos < |args| && 0 < inner && inner >= |args[pos]| {
        pos, inner := pos + 1, 0;
      }
      if pos >= |args| {
        index := pos;
        return Done;
      }
      var arg := args[pos];
      if inner == 0 {
        if arg == "--" {
          index := pos + 1;
          pos := |args|;
          return End;
        }
        if arg == "" || (arg[0] != '-' && arg[0] != '+') || arg == "-" || arg == "+" {
          index := pos;
          return Done;
        }
        inner := 1;
      }
      e := TakeLetter();
    }
  }

  // ----- getopts

  datatype Diagnostic = Quiet | Illegal(ch: char) | NeedsArgument(ch: char)

  /** What one call reports: the name variable, OPTARG, and the message it would print. */
  datatype Report = Report(name: string, optarg: Option<string>, message: Diagnostic)

  /** The scan of the option string that skips colons; whether the option takes an argument. */
  function SpecFrom(body: string, i: nat, ch: char): Option<bool>
    requires i <= |body|
    decreases |body| - i
  {
    if i == |body| then None
    else if body[i] == ':' then SpecFrom(body, i + 1, ch)
    else
      var takes := NeedsArg(body, i);
      if body[i] == ch then Some(takes) else SpecFrom(body, if takes then i + 2 else i + 1, ch)
  }

  function SpecBody(spec: string): string {
    if spec != "" && spec[0] == ':' then spec[1..] else spec
  }

  method OptionSpec(spec: string, ch: char) returns (r: Option<bool>)
    ensures r == SpecFrom(SpecBody(spec), 0, ch)
  {
    var body := SpecBody(spec);
    var i := 0;
    while i < |body|
      invariant i <= |body| && SpecFrom(body, i, ch) == SpecFrom(body, 0, ch)
    {
      if body[i] == ':' { i := i + 1; continue; }
      var takes := NeedsArg(body, i);
      if body[i] == ch { return Some(takes); }
      i := if takes then i + 2 else i + 1;
    }
    r := None;
  }

  /** The place between calls: the argument (from 1) and the byte in it. */
  datatype Place = Place(optind: nat, next: nat)

  /**
   One call. A step reports an option, or nothing for status 1, and names the place it stores; `stored` is false when
   OPTIND is left alone. An abort is the slice past the end of a word, which ends the process.
   */
  datatype Outcome = Step(report: Option<Report>, place: Place, stored: bool) | Abort

  function Advance(args: seq<string>, p: Place): Place
    requires 1 <= p.optind <= |args|
  {
    if p.next + 1 < |args[p.optind - 1]| then Place(p.optind, p.next + 1) else Place(p.optind + 1, 1)
  }

  predicate Silent(spec: string) { spec != "" && spec[0] == ':' }

  function LetterCall(args: seq<string>, spec: string, p: Place): Outcome
    requires 1 <= p.optind <= |args|
  {
    var arg := args[p.optind - 1];
    var ch := if p.next < |arg| then arg[p.next] else '?';
    var takes := SpecFrom(SpecBody(spec), 0, ch);
    if takes == None then
      Step(Some(if Silent(spec) then Report("?", Some([ch]), Quiet) else Report("?", None, Illegal(ch))),
           Advance(args, p), true)
    else if !takes.value then Step(Some(Report([ch], None, Quiet)), Advance(args, p), true)
    else if p.next + 1 > |arg| then Abort
    else if p.next + 1 < |arg| then
      Step(Some(Report([ch], Some(arg[p.next + 1..]), Quiet)), Place(p.optind + 1, 1), true)
    else if p.optind < |args| then
      Step(Some(Report([ch], Some(args[p.optind]), Quiet)), Place(p.optind + 2, 1), true)
    else
      Step(Some(if Silent(spec) then Report(":", Some([ch]), Quiet) else Report("?", None, NeedsArgument(ch))),
           Place(p.optind + 1, 1), true)
  }

  predicate PlaceOk(p: Place) { p.optind >= 1 && p.next >= 1 }

  /** Zeros read as ones. */
  function Normal(p: Place): (q: Place)
    ensures PlaceOk(q) && (PlaceOk(p) ==> q == p)
  {
    Place(if p.optind == 0 then 1 else p.optind, if p.next == 0 then 1 else p.next)
  }

  /** A word `getopts` looks for letters in. */
  predicate IsOptionWord(arg: string) {
    |arg| >= 2 && arg[0] == '-' && arg != "--"
  }

  function Walk(args: seq<string>, spec: string, start: Place): Outcome {
    var p := Normal(start);
    if p.optind > |args| then Step(None, Place(|args| + 1, 1), true)
    else
      var arg := args[p.optind - 1];
      if arg == "--" then Step(None, Place(p.optind + 1, 1), true)
      else if arg == "" || arg[0] != '-' || |arg| < 2 then Step(None, Place(p.optind, 1), false)
      else
        var q := if p.next >= |arg| then Place(p.optind + 1, 1) else p;
        if q.optind > |args| then Step(None, Place(|args| + 1, 1), true) else LetterCall(args, spec, q)
  }

  // ----- both scans of the specification find the same thing

  lemma {:induction false} SpecFromIsFind(body: string, i: nat, ch: char)
    requires i <= |body| && ch != ':' && forall j :: 0 <= j < i ==> body[j] != ch
    ensures var k := Find(body, ch); SpecFrom(body, i, ch) == if k == |body| then None else Some(NeedsArg(body, k))
    decreases |body| - i
  {
    if i < |body| {
      if body[i] == ':' { SpecFromIsFind(body, i + 1, ch); }
      else if body[i] != ch { SpecFromIsFind(body, if NeedsArg(body, i) then i + 2 else i + 1, ch); }
    }
  }

  lemma SpecAgrees(spec: string, ch: char)
    requires ch != ':'
    ensures var k := Find(spec, ch);
            SpecFrom(SpecBody(spec), 0, ch) == if k == |spec| then None else Some(NeedsArg(spec, k))
  {
    SpecFromIsFind(SpecBody(spec), 0, ch);
    if Silent(spec) {
      assert Find(spec, ch) == 1 + Find(spec[1..], ch);
    }
  }

  lemma {:induction false} ColonNeverFound(body: string, i: nat)
    requires i <= |body|
    ensures SpecFrom(body, i, ':') == None
    decreases |body| - i
  {
    if i < |body| {
      ColonNeverFound(body, if body[i] != ':' && NeedsArg(body, i) then i + 2 else i + 1);
    }
  }

  // ----- run to the end

  /** Events of a run, before the one that ends it. */
  predicate Options(es: seq<Event>) {
    forall i :: 0 <= i < |es| ==> !es[i].End? && !es[i].Done?
  }

  /** Every event up to `Done` or `End`, and the index of the first operand. */
  function Events(args: seq<string>, spec: string, c: Cursor): (r: (seq<Event>, nat))
    requires CursorOk(args, c)
    ensures Options(r.0)
    decreases Measure(args, c)
  {
    var (e, d) := Next(args, spec, c);
    if e.End? || e.Done? then ([], d.index)
    else var (rest, index) := Events(args, spec, d); ([e] + rest, index)
  }

  function PlaceMeasure(args: seq<string>, p: Place): nat
    requires PlaceOk(p)
  {
    if p.optind > |args| then 0
    else
      var n := |args[p.optind - 1]|;
      Weight(args, p.optind - 1) - if p.next < n then p.next else n
  }

  /** Where a letter leaves the place: at the next letter of its word, or at the start of a later word. */
  lemma LetterMovesOn(args: seq<string>, spec: string, p: Place)
    requires PlaceOk(p) && p.optind <= |args| && LetterCall(args, spec, p).Step?
    ensures var r := LetterCall(args, spec, p).place;
            PlaceOk(r) && (r.optind > p.optind || (r.optind == p.optind && r.next == p.next + 1 < |args[p.optind - 1]|))
  {}

  lemma LaterIsLess(args: seq<string>, p: Place, r: Place)
    requires PlaceOk(p) && PlaceOk(r) && p.optind <= |args|
    requires r.optind > p.optind || (r.optind == p.optind && p.next < r.next < |args[p.optind - 1]|)
    ensures PlaceMeasure(args, r) < PlaceMeasure(args, p)
  {
    if r.optind <= |args| { WeightDrops(args, p.optind - 1, r.optind - 1); }
  }

  /** Every status-0 call moves the place forward, from any place: driving `getopts` always ends. */
  lemma CallMovesOn(args: seq<string>, spec: string, p: Place)
    requires PlaceOk(p) && Walk(args, spec, p).Step? && Walk(args, spec, p).report.Some?
    ensures PlaceOk(Walk(args, spec, p).place) && PlaceMeasure(args, Walk(args, spec, p).place) < PlaceMeasure(args, p)
  {
    var q := if p.next >= |args[p.optind - 1]| then Place(p.optind + 1, 1) else p;
    LetterMovesOn(args, spec, q);
    LaterIsLess(args, p, Walk(args, spec, p).place);
  }

  /** Every report up to status 1 and the value OPTIND then has, or up to an abort and `None`. */
  function Reports(args: seq<string>, spec: string, p: Place): (seq<Report>, Option<nat>)
    requires PlaceOk(p)
    decreases PlaceMeasure(args, p)
  {
    var o := Walk(args, spec, p);
    if o == Abort then ([], None)
    else if o.report == None then ([], Some(o.place.optind))
    else
      CallMovesOn(args, spec, p);
      var (rest, optind) := Reports(args, spec, o.place);
      ([o.report.value] + rest, optind)
  }

  lemma EventsStep(args: seq<string>, spec: string, c: Cursor)
    requires CursorOk(args, c)
    ensures var (e, d) := Next(args, spec, c);
            Events(args, spec, c) == if e.End? || e.Done? then ([], d.index)
                                     else ([e] + Events(args, spec, d).0, Events(args, spec, d).1)
  {}

  lemma ReportsStep(args: seq<string>, spec: string, p: Place)
    requires PlaceOk(p)
    ensures var o := Walk(args, spec, p);
            && (o == Abort ==> Reports(args, spec, p) == ([], None))
            && (o.Step? && o.report == None ==> Reports(args, spec, p) == ([], Some(o.place.optind)))
            && (o.Step? && o.report.Some? ==>
                  && o.stored && PlaceOk(o.place) && PlaceMeasure(args, o.place) < PlaceMeasure(args, p)
                  && Reports(args, spec, p)
                  == ([o.report.value] + Reports(args, spec, o.place).0, Reports(args, spec, o.place).1))
  {
    if Walk(args, spec, p).Step? && Walk(args, spec, p).report.Some? { CallMovesOn(args, spec, p); }
  }

  // ----- aborts

  /**
   Calls that abort, as the caller can see it: the stored byte is past the end of its option word, the word after it
   has no letter, and the specification gives `?`, which stands for the letter, an argument.
   */
  predicate Overruns(args: seq<string>, spec: string, p: Place) {
    && PlaceOk(p) && p.optind < |args| && IsOptionWord(args[p.optind - 1]) && p.next >= |args[p.optind - 1]|
    && |args[p.optind]| < 2 && SpecFrom(SpecBody(spec), 0, '?') == Some(true)
  }

  lemma AbortsExactly(args: seq<string>, spec: string, p: Place)
    ensures Walk(args, spec, p) == Abort <==> Overruns(args, spec, Normal(p))
  {}

  /** A place some call on these very arguments may have left. */
  predicate Inside(args: seq<string>, p: Place) {
    PlaceOk(p) && (p.next == 1 || (p.optind <= |args| && p.next < |args[p.optind - 1]|))
  }

  lemma CallStaysInside(args: seq<string>, spec: string, p: Place)
    requires Inside(args, p)
    ensures Walk(args, spec, p) != Abort && Inside(args, Walk(args, spec, p).place)
  {
    AbortsExactly(args, spec, p);
  }

  /** From the start, and from any place left by calls on the same arguments, no call of a run aborts. */
  lemma {:induction false} FixedArgumentsNeverAbort(args: seq<string>, spec: string, p: Place)
    requires Inside(args, p)
    ensures Reports(args, spec, p).1.Some?
    decreases PlaceMeasure(args, p)
  {
    CallStaysInside(args, spec, p);
    var o := Walk(args, spec, p);
    if o.report.Some? {
      CallMovesOn(args, spec, p);
      FixedArgumentsNeverAbort(args, spec, o.place);
    }
  }

  /** Arguments replaced between two calls: the place one call leaves makes the next one abort. */
  lemma ReplacedArgumentsAbort()
    ensures Walk(["-ab"], "ab", Place(1, 1)) == Step(Some(Report("a", None, Quiet)), Place(1, 2), true)
    ensures Walk(["-x", ""], "?:", Place(1, 2)) == Abort
  {
    assert SpecBody("ab") == "ab" && SpecFrom("ab", 0, 'a') == Some(false);
    assert SpecBody("?:") == "?:" && SpecFrom("?:", 0, '?') == Some(true);
  }

  // ----- agreement

  /** What `getopts` says of an event of the cursor. */
  function Observe(e: Event, silent: bool): Report
    requires !e.End? && !e.Done?
  {
    match e
    case Opt(_, ch, arg) => Report([ch], arg, Quiet)
    case Unknown(_, ch) => if silent then Report("?", Some([ch]), Quiet) else Report("?", None, Illegal(ch))
    case Missing(_, ch) => if silent then Report(":", Some([ch]), Quiet) else Report("?", None, NeedsArgument(ch))
  }

  function Observed(es: seq<Event>, silent: bool): (r: seq<Report>)
    requires Options(es)
    ensures |r| == |es| && forall i :: 0 <= i < |r| ==> r[i] == Observe(es[i], silent)
  {
    seq(|es|, i requires 0 <= i < |es| => Observe(es[i], silent))
  }

  /** Events the two must differ on: a `+` word, or a colon of the specification taken for an option letter. */
  predicate Contested(e: Event) {
    !e.End? && !e.Done? && (e.plus || (e.ch == ':' && !e.Unknown?))
  }

  /** The same place, once the cursor's lazy step off a finished word is counted. */
  predicate SamePlace(args: seq<string>, c: Cursor, p: Place) {
    && CursorOk(args, c)
    && if c.inner == 0 then p == Place(c.pos + 1, 1)
       else
         && args[c.pos][0] == '-' && args[c.pos] != "--"
         && p == if c.inner < |args[c.pos]| then Place(c.pos + 1, c.inner) else Place(c.pos + 2, 1)
  }

  /** One event against one call: equal ends, different reports if contested, else equal reports and places. */
  predicate Agrees(args: seq<string>, silent: bool, e: Event, d: Cursor, o: Outcome) {
    && o.Step?
    && (e.End? || e.Done? ==> o.report == None && o.place.optind == d.index + 1)
    && (Contested(e) ==> o.report == None || o.report.value != Observe(e, silent))
    && (!e.End? && !e.Done? && !Contested(e) ==> o.report == Some(Observe(e, silent)) && SamePlace(args, d, o.place))
  }

  lemma LetterAgrees(args: seq<string>, spec: string, c: Cursor)
    requires CursorOk(args, c) && c.pos < |args| && 0 < c.inner < |args[c.pos]|
    requires args[c.pos][0] == '-' && args[c.pos] != "--"
    ensures var (e, d) := LetterStep(args, spec, c);
            Agrees(args, Silent(spec), e, d, LetterCall(args, spec, Place(c.pos + 1, c.inner)))
  {
    var ch := args[c.pos][c.inner];
    if ch == ':' { ColonNeverFound(SpecBody(spec), 0); } else { SpecAgrees(spec, ch); }
  }

  lemma WordAgrees(args: seq<string>, spec: string, c: Cursor)
    requires CursorOk(args, c) && c.inner == 0
    ensures var (e, d) := WordStep(args, spec, c);
            Agrees(args, Silent(spec), e, d, Walk(args, spec, Place(c.pos + 1, 1)))
  {
    if c.pos < |args| && IsOptionWord(args[c.pos]) {
      LetterAgrees(args, spec, c.(inner := 1));
    }
  }

  lemma StepAgrees(args: seq<string>, spec: string, c: Cursor, p: Place)
    requires SamePlace(args, c, p)
    ensures var (e, d) := Next(args, spec, c);
            Agrees(args, Silent(spec), e, d, Walk(args, spec, p))
  {
    if c.inner == 0 {
      WordAgrees(args, spec, c);
    } else if c.inner < |args[c.pos]| {
      LetterAgrees(args, spec, c);
    } else {
      WordAgrees(args, spec, Cursor(c.pos + 1, 0, c.index));
    }
  }

  predicate Uncontested(es: seq<Event>) {
    forall i :: 0 <= i < |es| ==> !Contested(es[i])
  }

  /** The two runs say the same: every report and the first operand. */
  predicate SameRun(es: seq<Event>, index: nat, rs: seq<Report>, optind: Option<nat>, silent: bool)
    requires Options(es)
  {
    rs == Observed(es, silent) && optind == Some(index + 1)
  }

  lemma UncontestedCons(e: Event, rest: seq<Event>)
    ensures Uncontested([e] + rest) <==> !Contested(e) && Uncontested(rest)
  {
    var all := [e] + rest;
    assert all[0] == e;
    assert forall i :: 0 <= i < |rest| ==> rest[i] == all[i + 1];
  }

  lemma SameRunCons(e: Event, rest: seq<Event>, index: nat, o: Report, more: seq<Report>,
                    optind: Option<nat>, silent: bool)
    requires Options(rest) && !e.End? && !e.Done?
    ensures !SameRun([e] + rest, index, [], optind, silent)
    ensures SameRun([e] + rest, index, [o] + more, optind, silent)
            <==> o == Observe(e, silent) && SameRun(rest, index, more, optind, silent)
  {
    assert Observed([e] + rest, silent) == [Observe(e, silent)] + Observed(rest, silent);
    assert ([o] + more)[0] == o && ([o] + more)[1..] == more;
    assert ([Observe(e, silent)] + Observed(rest, silent))[1..] == Observed(rest, silent);
  }

  lemma {:induction false} RunAgrees(args: seq<string>, spec: string, c: Cursor, p: Place)
    requires SamePlace(args, c, p)
    ensures var (es, index) := Events(args, spec, c);
            var (rs, optind) := Reports(args, spec, p);
            SameRun(es, index, rs, optind, Silent(spec)) <==> Uncontested(es)
    decreases Measure(args, c)
  {
    StepAgrees(args, spec, c, p);
    EventsStep(args, spec, c);
    ReportsStep(args, spec, p);
    var e, d := Next(args, spec, c).0, Next(args, spec, c).1;
    if !e.End? && !e.Done? {
      var o := Walk(args, spec, p);
      var (rest, index) := Events(args, spec, d);
      UncontestedCons(e, rest);
      if o.report == None {
        SameRunCons(e, rest, index, Observe(e, Silent(spec)), [], None, Silent(spec));
      } else {
        var (more, optind) := Reports(args, spec, o.place);
        SameRunCons(e, rest, index, o.report.value, more, optind, Silent(spec));
        if !Contested(e) { RunAgrees(args, spec, d, o.place); }
      }
    }
  }

  /**
   On any specification and arguments, the two parsers report the same options, errors and
   first operand exactly when the cursor meets no `+` word and takes no colon for an option.
   */
  lemma ParsersAgreeExactly(args: seq<string>, spec: string)
    ensures var (es, index) := Events(args, spec, START);
            var (rs, optind) := Reports(args, spec, Place(1, 1));
            (rs == Observed(es, Silent(spec)) && optind == Some(index + 1))
            <==> forall i :: 0 <= i < |es| ==> !Contested(es[i])
  {
    RunAgrees(args, spec, START, Place(1, 1));
  }

  /** No argument of two or more bytes opens with `+`, and no colon can be taken for an option letter. */
  predicate Plain(args: seq<string>, spec: string) {
    forall i :: 0 <= i < |args| && |args[i]| >= 2 ==>
      args[i][0] != '+' && (args[i][0] == '-' && ':' in spec ==> ':' !in args[i])
  }

  lemma PlainLetter(args: seq<string>, spec: string, c: Cursor)
    requires Plain(args, spec) && c.pos < |args| && 0 < c.inner < |args[c.pos]| && !IsOperand(args[c.pos])
    ensures !Contested(LetterStep(args, spec, c).0)
  {}

  lemma {:induction false} PlainUncontested(args: seq<string>, spec: string, c: Cursor)
    requires Plain(args, spec) && CursorOk(args, c)
    ensures Uncontested(Events(args, spec, c).0)
    decreases Measure(args, c)
  {
    var e, d := Next(args, spec, c).0, Next(args, spec, c).1;
    if !e.End? && !e.Done? {
      var w := if c.inner > 0 && c.inner >= |args[c.pos]| then Cursor(c.pos + 1, 0, c.index) else c;
      PlainLetter(args, spec, if w.inner == 0 then w.(inner := 1) else w);
      PlainUncontested(args, spec, d);
      EventsStep(args, spec, c);
      UncontestedCons(e, Events(args, spec, d).0);
    }
  }

  /** On plain arguments the two parsers agree. */
  lemma PlainArgumentsAgree(args: seq<string>, spec: string)
    requires Plain(args, spec)
    ensures var (es, index) := Events(args, spec, START);
            Reports(args, spec, Place(1, 1)) == (Observed(es, Silent(spec)), Some(index + 1))
  {
    ParsersAgreeExactly(args, spec);
    PlainUncontested(args, spec, START);
  }

  lemma OneEvent(args: seq<string>, spec: string, c: Cursor)
    requires CursorOk(args, c)
    requires var (e, d) := Next(args, spec, c); !e.End? && !e.Done? && Next(args, spec, d).0.Done?
    ensures var (e, d) := Next(args, spec, c);
            Events(args, spec, c) == ([e], Next(args, spec, d).1.index)
  {
    EventsStep(args, spec, c);
    EventsStep(args, spec, Next(args, spec, c).1);
    assert [Next(args, spec, c).0] + [] == [Next(args, spec, c).0];
  }

  lemma OneReport(args: seq<string>, spec: string, p: Place)
    requires PlaceOk(p) && Walk(args, spec, p).Step? && Walk(args, spec, p).report.Some?
    requires Walk(args, spec, p).place == Place(|args| + 1, 1)
    ensures Reports(args, spec, p) == ([Walk(args, spec, p).report.value], Some(|args| + 1))
  {
    ReportsStep(args, spec, p);
    ReportsStep(args, spec, Place(|args| + 1, 1));
    assert [Walk(args, spec, p).report.value] + [] == [Walk(args, spec, p).report.value];
  }

  /** A `+` word is an option to the cursor and the first operand to `getopts`. */
  lemma PlusWordDiffers()
    ensures Events(["+a"], "a", START) == ([Opt(true, 'a', None)], 1)
    ensures Reports(["+a"], "a", Place(1, 1)) == ([], Some(1))
  {
    assert Next(["+a"], "a", START) == (Opt(true, 'a', None), Cursor(0, 2, 1));
    assert Next(["+a"], "a", Cursor(0, 2, 1)) == (Done, Cursor(1, 0, 1));
    OneEvent(["+a"], "a", START);
    ReportsStep(["+a"], "a", Place(1, 1));
  }

  /** A colon of the specification is an option letter to the cursor and an error to `getopts`. */
  lemma ColonDiffers()
    ensures Events(["-:"], "a:", START) == ([Opt(false, ':', None)], 1)
    ensures Reports(["-:"], "a:", Place(1, 1)) == ([Report("?", None, Illegal(':'))], Some(2))
  {
    assert Find("a:", ':') == 1 by { assert "a:"[1..] == ":"; }
    assert Next(["-:"], "a:", START) == (Opt(false, ':', None), Cursor(0, 2, 1));
    assert Next(["-:"], "a:", Cursor(0, 2, 1)) == (Done, Cursor(1, 0, 1));
    OneEvent(["-:"], "a:", START);
    ColonNeverFound(SpecBody("a:"), 0);
    OneReport(["-:"], "a:", Place(1, 1));
  }
}

/** printf: one pass over the format, and the loop that reuses the format until the arguments are used up. */
module Printf {
  import opened Ascii
  import opened Option
  import opened PrintfEscape
  import opened PrintfFormat

  /** A specification with its stars replaced by argument values. */
  datatype Resolved = Resolved(
    left: bool, plus: bool, space: bool, zero: bool, alternate: bool,
    width: Option<nat>, precision: Option<nat>, conv: char, time: Option<string>)

  /** What lies outside: number parsing, rendering, the escapes of `%b`, and the locale. */
  datatype Renderer = Renderer(
    size: Option<string> -> Option<int>,
    text: (Resolved, Option<string>) -> string,
    fails: (Resolved, Option<string>) -> bool,
    stops: string -> bool,
    wide: nat -> string)

  /** The arguments a pass takes, and what for. */
  datatype Pull = WidthOf(spec: Spec) | PrecisionOf(spec: Spec) | ValueFor(spec: Spec)

  function PullsOf(spec: Spec): (ps: seq<Pull>)
    ensures 1 <= |ps| <= 3
  {
    (if spec.width.Star? then [WidthOf(spec)] else []) +
    (if spec.precision.Star? then [PrecisionOf(spec)] else []) + [ValueFor(spec)]
  }

  /** A missing argument is taken all the same. */
  function Arg(args: seq<string>, k: nat): Option<string> {
    if k < |args| then Some(args[k]) else None
  }

  function Drop(args: seq<string>, n: nat): seq<string> {
    if n <= |args| then args[n..] else []
  }

  /** The width is the first of `args` where it is a star, the precision the next where it is. */
  function Resolve(r: Renderer, spec: Spec, args: seq<string>): Resolved {
    var n := if r.size(Arg(args, 0)).Some? then r.size(Arg(args, 0)).value else 0;
    var p := r.size(Arg(args, if spec.width.Star? then 1 else 0));
    Resolved(
      spec.left || (spec.width.Star? && n < 0), spec.plus, spec.space, spec.zero, spec.alternate,
      match spec.width {
        case Absent => None
        case Number(v) => Some(v)
        case Star => Some(if n < 0 then -n else Clamp(n))
      },
      match spec.precision {
        case Absent => None
        case Number(v) => Some(v)
        case Star => if p.Some? && p.value >= 0 then Some(Clamp(p.value)) else None
      },
      spec.conv, spec.time)
  }

  datatype Item = Text(text: string) | Conv(spec: Spec)

  /** A format as a list: literal text with its escapes decoded, conversions, and whether it ends in an error. */
  datatype Format = Format(items: seq<Item>, broken: bool)

  function Prepend(item: Item, f: Format): Format { Format([item] + f.items, f.broken) }

  /** The item at `i` and where the next begins; none where a specification is incomplete or unknown. */
  function ItemAt(s: string, i: nat, wide: nat -> string): (r: (Option<Item>, nat))
    requires i < |s|
    ensures r.0.Some? ==> i < r.1 <= |s|
  {
    if s[i] == '\\' then
      if i + 1 == |s| then (Some(Text("\\")), i + 1)
      else var e := Escape(s[i + 1..], wide); (Some(Text(e.0)), i + 1 + e.1)
    else if s[i] != '%' then (Some(Text([s[i]])), i + 1)
    else if i + 1 < |s| && s[i + 1] == '%' then (Some(Text("%")), i + 2)
    else
      match ParseAt(s, i + 1)
      case Good(spec, next) => (Some(Conv(spec)), next)
      case InvalidTime(_, raw, next) => (Some(Text(raw)), next)
      case Missing(_) => (None, 0)
      case Invalid(_, _) => (None, 0)
  }

  function FormatAt(s: string, i: nat, wide: nat -> string): Format
    requires i <= |s|
    decreases |s| - i
  {
    if i == |s| then Format([], false)
    else
      var (item, next) := ItemAt(s, i, wide);
      if item.None? then Format([], true) else Prepend(item.value, FormatAt(s, next, wide))
  }

  /** One argument taken: what for, and what it was. */
  type Take = (Pull, Option<string>)

  /** What a pass, or a whole run, has done, and the arguments it leaves. */
  datatype Outcome = Outcome(
    out: string, rest: seq<string>, used: bool, stop: bool, status: nat, rounds: nat, log: seq<Take>)

  function Taken(ps: seq<Pull>, args: seq<string>): seq<Take> {
    seq(|ps|, j requires 0 <= j < |ps| => (ps[j], Arg(args, j)))
  }

  function Converted(r: Renderer, spec: Spec, args: seq<string>): Outcome {
    var n := |PullsOf(spec)|;
    var value := Arg(args, n - 1);
    var resolved := Resolve(r, spec, args);
    var stop := spec.conv == 'b' && value.Some? && r.stops(value.value);
    Outcome(r.text(resolved, value), if stop then [] else Drop(args, n), true, stop,
            if r.fails(resolved, value) || (spec.conv == 'Q' && spec.overflow) then 1 else 0,
            0, Taken(PullsOf(spec), args))
  }

  /** `a`, then `b`. */
  function Then(a: Outcome, b: Outcome): Outcome {
    Outcome(a.out + b.out, b.rest, a.used || b.used, b.stop, if a.status < b.status then b.status else a.status,
            a.rounds + b.rounds, a.log + b.log)
  }

  function Round(r: Renderer, f: Format, args: seq<string>): Outcome
    decreases |f.items|
  {
    if f.items == [] then Outcome("", args, false, f.broken, if f.broken then 1 else 0, 0, [])
    else
      var rest := f.(items := f.items[1..]);
      match f.items[0]
      case Text(t) => Then(Outcome(t, args, false, false, 0, 0, []), Round(r, rest, args))
      case Conv(spec) =>
        var c := Converted(r, spec, args);
        if c.stop then c else Then(c, Round(r, rest, c.rest))
  }

  function Pulls(items: seq<Item>): seq<Pull> {
    if items == [] then []
    else (if items[0].Text? then [] else PullsOf(items[0].spec)) + Pulls(items[1..])
  }

  /** The arguments went, one by one from the first, to the places of `ps`. */
  ghost predicate InOrder(log: seq<Take>, ps: seq<Pull>, args: seq<string>) {
    |log| <= |ps| && forall j :: 0 <= j < |log| ==> log[j] == (ps[j], Arg(args, j))
  }

  lemma InOrderJoins(a: seq<Take>, ps: seq<Pull>, b: seq<Take>, qs: seq<Pull>, args: seq<string>)
    requires |a| == |ps| && InOrder(a, ps, args) && InOrder(b, qs, Drop(args, |ps|))
    ensures InOrder(a + b, ps + qs, args)
  {
    forall j | |a| <= j < |a + b| ensures (a + b)[j] == ((ps + qs)[j], Arg(args, j)) {
      assert (a + b)[j] == b[j - |a|];
    }
  }

  lemma InOrderExtends(a: seq<Take>, ps: seq<Pull>, qs: seq<Pull>, args: seq<string>)
    requires InOrder(a, ps, args)
    ensures InOrder(a, ps + qs, args)
  {}

  lemma DropDrop(args: seq<string>, m: nat, n: nat)
    ensures Drop(Drop(args, m), n) == Drop(args, m + n)
  {}

  lemma ConvertedTakes(r: Renderer, spec: Spec, args: seq<string>)
    ensures var c := Converted(r, spec, args);
            && c.used && c.log != [] && |c.log| == |PullsOf(spec)| && InOrder(c.log, PullsOf(spec), args)
            && (!c.stop ==> c.rest == Drop(args, |PullsOf(spec)|))
  {}

  /** The arguments taken are those `ps` asks for, in order; all of them unless stopped. */
  ghost predicate Takes(o: Outcome, ps: seq<Pull>, args: seq<string>) {
    && InOrder(o.log, ps, args) && (o.used <==> o.log != [])
    && (!o.stop ==> o.rest == Drop(args, |ps|) && |o.log| == |ps|)
  }

  lemma TextTakes(t: string, o: Outcome, ps: seq<Pull>, args: seq<string>)
    requires Takes(o, ps, args)
    ensures Takes(Then(Outcome(t, args, false, false, 0, 0, []), o), ps, args)
  {
    assert [] + o.log == o.log;
  }

  lemma JoinTakes(c: Outcome, o: Outcome, ps: seq<Pull>, qs: seq<Pull>, args: seq<string>)
    requires Takes(c, ps, args) && !c.stop && Takes(o, qs, c.rest)
    ensures Takes(Then(c, o), ps + qs, args)
  {
    InOrderJoins(c.log, ps, o.log, qs, args);
    DropDrop(args, |ps|, |qs|);
  }

  /** One item of a format and the rest of it. */
  function Step(r: Renderer, item: Item, args: seq<string>): Outcome {
    match item
    case Text(t) => Outcome(t, args, false, false, 0, 0, [])
    case Conv(spec) => Converted(r, spec, args)
  }

  lemma RoundStep(r: Renderer, f: Format, args: seq<string>)
    requires f.items != []
    ensures var step := Step(r, f.items[0], args);
            Round(r, f, args) == if step.stop then step else Then(step, Round(r, f.(items := f.items[1..]), step.rest))
  {}

  /**
   A pass that is not stopped takes exactly the arguments its format asks for, in order; a stopped one, the first of
   them.
   */
  lemma {:induction false} RoundTakes(r: Renderer, f: Format, args: seq<string>)
    ensures var o := Round(r, f, args);
            && InOrder(o.log, Pulls(f.items), args)
            && (!o.stop ==> o.rest == Drop(args, |Pulls(f.items)|) && |o.log| == |Pulls(f.items)| && !f.broken)
            && (o.used <==> o.log != [])
    decreases |f.items|
  {
    if f.items != [] {
      RoundStep(r, f, args);
      var rest := f.(items := f.items[1..]);
      var c := Step(r, f.items[0], args);
      if !c.stop { RoundTakes(r, rest, c.rest); }
      StepTakes(r, f.items[0], Pulls(rest.items), Round(r, rest, c.rest), args);
    }
  }

  lemma StepTakes(r: Renderer, item: Item, qs: seq<Pull>, o: Outcome, args: seq<string>)
    requires var c := Step(r, item, args); !c.stop ==> Takes(o, qs, c.rest)
    ensures var c := Step(r, item, args);
            Takes(if c.stop then c else Then(c, o), (if item.Text? then [] else PullsOf(item.spec)) + qs, args)
  {
    var c := Step(r, item, args);
    match item
    case Text(t) =>
      TextTakes(t, o, qs, args);
      assert [] + qs == qs;
    case Conv(spec) =>
      ConvertedTakes(r, spec, args);
      if c.stop { InOrderExtends(c.log, PullsOf(spec), qs, args); } else { JoinTakes(c, o, PullsOf(spec), qs, args); }
  }

  // ---- The reuse loop

  /** Passes until one uses nothing, one is stopped, or the arguments are used up. */
  function Run(r: Renderer, f: Format, args: seq<string>): Outcome
    decreases |args|
  {
    var o := Round(r, f, args).(rounds := 1);
    RoundTakes(r, f, args);
    if !o.used || o.stop || o.rest == [] then o else Then(o, Run(r, f, o.rest))
  }

  function Repeat(ps: seq<Pull>, n: nat): seq<Pull> {
    if n == 0 then [] else ps + Repeat(ps, n - 1)
  }

  predicate GoesOn(o: Outcome) { o.used && !o.stop && o.rest != [] }

  /** A pass that is followed by another has used a round of arguments. */
  lemma RunStep(r: Renderer, f: Format, args: seq<string>)
    ensures var o := Round(r, f, args);
            var ps := Pulls(f.items);
            if GoesOn(o) then
              && Run(r, f, args) == Then(o.(rounds := 1), Run(r, f, o.rest))
              && 0 < |ps| < |args| && o.rest == Drop(args, |ps|) && |o.rest| == |args| - |ps| && |o.log| == |ps|
            else Run(r, f, args) == o.(rounds := 1)
  {
    RoundTakes(r, f, args);
  }

  lemma RepeatStep(ps: seq<Pull>, n: nat)
    ensures Repeat(ps, 1) == ps && Repeat(ps, n + 1) == ps + Repeat(ps, n)
  {
    assert Repeat(ps, 1) == ps + Repeat(ps, 0);
  }

  lemma OrderedThen(o: Outcome, rest: Outcome, ps: seq<Pull>, args: seq<string>)
    requires |o.log| == |ps| && InOrder(o.log, ps, args) && InOrder(rest.log, Repeat(ps, rest.rounds), Drop(args, |ps|))
    ensures var all := Then(o.(rounds := 1), rest);
            all.rounds == rest.rounds + 1 && InOrder(all.log, Repeat(ps, all.rounds), args)
  {
    InOrderJoins(o.log, ps, rest.log, Repeat(ps, rest.rounds), args);
    RepeatStep(ps, rest.rounds);
  }

  lemma RoundOrdered(r: Renderer, f: Format, args: seq<string>)
    ensures InOrder(Round(r, f, args).log, Pulls(f.items), args)
  {
    RoundTakes(r, f, args);
  }

  /** Every run takes arguments left to right, none twice, each for the next place of the format repeated. */
  lemma {:induction false} RunOrdered(r: Renderer, f: Format, args: seq<string>)
    ensures var o := Run(r, f, args); o.rounds >= 1 && InOrder(o.log, Repeat(Pulls(f.items), o.rounds), args)
    decreases |args|
  {
    var ps := Pulls(f.items);
    var o := Round(r, f, args);
    RoundOrdered(r, f, args);
    RunStep(r, f, args);
    if GoesOn(o) {
      RunOrdered(r, f, o.rest);
      OrderedThen(o, Run(r, f, o.rest), ps, args);
    } else {
      RepeatStep(ps, 0);
    }
  }

  /** A run needs no more passes than arguments. */
  lemma {:induction false} RunEnds(r: Renderer, f: Format, args: seq<string>)
    ensures 1 <= Run(r, f, args).rounds <= if |args| > 1 then |args| else 1
    decreases |args|
  {
    RunStep(r, f, args);
    if GoesOn(Round(r, f, args)) { RunEnds(r, f, Round(r, f, args).rest); }
  }

  /** All arguments are taken in `o.rounds` passes of `c` each, and in no fewer. */
  ghost predicate UsesUp(o: Outcome, c: nat, n: nat) {
    && o.rounds >= 1 && |o.log| == o.rounds * c && (o.used <==> c > 0)
    && (c == 0 ==> o.rounds == 1)
    && (c > 0 ==> o.rest == [] && n <= o.rounds * c && (o.rounds > 1 ==> (o.rounds - 1) * c < n))
  }

  lemma UsesUpStep(o: Outcome, more: Outcome, c: nat, n: nat)
    requires 0 < c < n && |o.log| == c && UsesUp(more, c, n - c)
    ensures UsesUp(Then(o.(rounds := 1), more), c, n)
  {
    RoundsStep(more.rounds, c);
    if more.rounds > 1 { RoundsStep(more.rounds - 1, c); }
  }

  lemma UsesUpOnce(o: Outcome, c: nat, n: nat)
    requires |o.log| == c && (o.used <==> c > 0) && (c > 0 ==> o.rest == [] && n <= c)
    ensures UsesUp(o.(rounds := 1), c, n)
  {}

  /** A run that is not stopped takes all arguments, in the fewest passes that can; or its format takes none. */
  lemma {:induction false} RunTakesAll(r: Renderer, f: Format, args: seq<string>)
    requires !Run(r, f, args).stop
    ensures UsesUp(Run(r, f, args), |Pulls(f.items)|, |args|)
    decreases |args|
  {
    var o := Round(r, f, args);
    RoundTakes(r, f, args);
    RunStep(r, f, args);
    if GoesOn(o) {
      RunTakesAll(r, f, o.rest);
      UsesUpStep(o, Run(r, f, o.rest), |Pulls(f.items)|, |args|);
    } else {
      UsesUpOnce(o, |Pulls(f.items)|, |args|);
    }
  }

  lemma RoundsStep(n: nat, c: nat)
    requires n > 0
    ensures (n + 1) * c == n * c + c && n * c == (n - 1) * c + c
  {}

  // ---- Passes depend only on the arguments they take

  lemma ConvertedLocal(r: Renderer, spec: Spec, a: seq<string>, b: seq<string>)
    requires |PullsOf(spec)| <= |a|
    ensures var n := |PullsOf(spec)|;
            Converted(r, spec, a + b)
            == Converted(r, spec, a).(rest := if Converted(r, spec, a).stop then [] else a[n..] + b)
  {
    var n := |PullsOf(spec)|;
    assert forall j :: 0 <= j < n ==> Arg(a + b, j) == Arg(a, j);
    assert Taken(PullsOf(spec), a + b) == Taken(PullsOf(spec), a);
    assert Drop(a + b, n) == a[n..] + b;
  }

  /** Equal but for the arguments left. */
  ghost predicate Alike(a: Outcome, b: Outcome) {
    a.(rest := []) == b.(rest := [])
  }

  lemma AlikeThen(a: Outcome, a': Outcome, b: Outcome, b': Outcome)
    requires Alike(a, a') && Alike(b, b')
    ensures Alike(Then(a, b), Then(a', b'))
  {}

  lemma {:induction false} RoundLocal(r: Renderer, f: Format, a: seq<string>, b: seq<string>)
    requires |Pulls(f.items)| <= |a|
    ensures Alike(Round(r, f, a + b), Round(r, f, a))
    decreases |f.items|
  {
    if f.items != [] {
      var rest := f.(items := f.items[1..]);
      match f.items[0]
      case Text(t) =>
        RoundLocal(r, rest, a, b);
        AlikeThen(Outcome(t, a + b, false, false, 0, 0, []), Outcome(t, a, false, false, 0, 0, []),
                  Round(r, rest, a + b), Round(r, rest, a));
      case Conv(spec) =>
        var n := |PullsOf(spec)|;
        ConvertedLocal(r, spec, a, b);
        RoundLocal(r, rest, a[n..], b);
        AlikeThen(Converted(r, spec, a + b), Converted(r, spec, a), Round(r, rest, a[n..] + b), Round(r, rest, a[n..]));
    }
  }

  lemma ThenAlike(a: Outcome, a': Outcome, b: Outcome)
    requires Alike(a, a')
    ensures Then(a.(rounds := 1), b) == Then(a'.(rounds := 1), b)
  {}

  lemma FirstOrMore(r: Renderer, f: Format, a: seq<string>)
    requires 0 < |Pulls(f.items)| <= |a| && !Run(r, f, a).stop
    ensures !Round(r, f, a).stop
    ensures var c := |Pulls(f.items)|;
            var o := Round(r, f, a).(rounds := 1);
            if |a| == c then Run(r, f, a) == o
            else Run(r, f, a) == Then(o, Run(r, f, a[c..])) && !Run(r, f, a[c..]).stop
  {
    RunStep(r, f, a);
    RoundTakes(r, f, a);
  }

  /** With a full round in `a`, the first pass over `a + b` is the first pass over `a`. */
  lemma FirstPass(r: Renderer, f: Format, a: seq<string>, b: seq<string>)
    requires 0 < |Pulls(f.items)| <= |a| && b != [] && !Round(r, f, a).stop
    ensures var o := Round(r, f, a).(rounds := 1);
            Run(r, f, a + b) == Then(o, Run(r, f, a[|Pulls(f.items)|..] + b))
  {
    var c := |Pulls(f.items)|;
    RoundLocal(r, f, a, b);
    assert Round(r, f, a + b).used && Round(r, f, a + b).rest == Drop(a + b, c) by { RoundTakes(r, f, a + b); }
    assert Drop(a + b, c) == a[c..] + b;
    RunStep(r, f, a + b);
    ThenAlike(Round(r, f, a + b), Round(r, f, a), Run(r, f, a[c..] + b));
  }

  predicate WholeRounds(n: nat, c: nat)
    requires c > 0
  {
    n == c || (n > c && WholeRounds(n - c, c))
  }

  lemma {:induction false} WholeRoundsExact(n: nat, c: nat)
    requires c > 0
    ensures WholeRounds(n, c) <==> n > 0 && n % c == 0
  {
    if n > c {
      WholeRoundsExact(n - c, c);
      ModStep(n, c);
    }
  }

  lemma ModStep(n: nat, c: nat)
    requires 0 < c < n
    ensures n % c == (n - c) % c
  {
    assert n == c * (n / c) + n % c;
    assert n - c == c * (n / c - 1) + n % c;
    SameRemainder(n - c, c, n / c - 1, n % c);
  }

  lemma SameRemainder(x: int, c: nat, q: int, r: int)
    requires c > 0 && 0 <= r < c && x == c * q + r
    ensures x % c == r
  {
    var d := x / c - q;
    assert x == c * (x / c) + x % c;
    assert c * d == r - x % c;
    assert d >= 1 ==> c * d >= c;
    assert d <= -1 ==> c * d <= -(c as int);
  }

  lemma {:induction false} BatchesAppend(r: Renderer, f: Format, a: seq<string>, b: seq<string>)
    requires Pulls(f.items) != [] && WholeRounds(|a|, |Pulls(f.items)|) && b != [] && !Run(r, f, a).stop
    ensures Run(r, f, a + b) == Then(Run(r, f, a), Run(r, f, b))
    decreases |a|
  {
    var c := |Pulls(f.items)|;
    FirstOrMore(r, f, a);
    FirstPass(r, f, a, b);
    if |a| == c {
      assert a[c..] + b == b;
    } else {
      BatchesAppend(r, f, a[c..], b);
      ThenAssoc(Round(r, f, a).(rounds := 1), Run(r, f, a[c..]), Run(r, f, b));
    }
  }

  /** printf over whole rounds and then more arguments is printf over each, one after the other. */
  lemma BatchesJoin(r: Renderer, f: Format, a: seq<string>, b: seq<string>)
    requires a != [] && b != [] && !Run(r, f, a).stop
    requires Pulls(f.items) != [] && |a| % |Pulls(f.items)| == 0
    ensures Run(r, f, a + b) == Then(Run(r, f, a), Run(r, f, b))
  {
    WholeRoundsExact(|a|, |Pulls(f.items)|);
    BatchesAppend(r, f, a, b);
  }

  lemma ThenAssoc(a: Outcome, b: Outcome, c: Outcome)
    ensures Then(a, Then(b, c)) == Then(Then(a, b), c)
  {
    assert a.out + (b.out + c.out) == a.out + b.out + c.out;
    assert a.log + (b.log + c.log) == a.log + b.log + c.log;
  }

  // ---- The loops

  lemma ArgDrop(args: seq<string>, n: nat, k: nat)
    ensures Arg(Drop(args, n), k) == Arg(args, n + k)
  {}

  lemma RoundPrepend(r: Renderer, item: Item, f: Format, args: seq<string>)
    ensures var step := Step(r, item, args);
            Round(r, Prepend(item, f), args) == if step.stop then step else Then(step, Round(r, f, step.rest))
  {
    RoundStep(r, Prepend(item, f), args);
    assert Prepend(item, f).(items := Prepend(item, f).items[1..]) == f;
  }

  method TakeArg(args: seq<string>, idx: nat) returns (value: Option<string>, next: nat)
    ensures value == Arg(Drop(args, idx), 0) && next == idx + 1
  {
    value := if idx < |args| then Some(args[idx]) else None;
    next := idx + 1;
  }

  method ResolveStars(r: Renderer, spec: Spec, args: seq<string>, start: nat) returns (res: Resolved, idx: nat)
    ensures res == Resolve(r, spec, Drop(args, start)) && idx + 1 == start + |PullsOf(spec)|
  {
    idx := start;
    var left := spec.left;
    var width: Option<nat> := None;
    match spec.width {
      case Absent =>
      case Number(v) => width := Some(v);
      case Star =>
        var value, next := TakeArg(args, idx);
        idx := next;
        var n := if r.size(value).Some? then r.size(value).value else 0;
        if n < 0 {
          left, width := true, Some(-n);
        } else {
          width := Some(Clamp(n));
        }
    }
    ArgDrop(args, start, idx - start);
    var precision: Option<nat> := None;
    match spec.precision {
      case Absent =>
      case Number(v) => precision := Some(v);
      case Star =>
        var value, next := TakeArg(args, idx);
        idx := next;
        ArgDrop(args, idx - 1, 0);
        var p := r.size(value);
        if p.Some? && p.value >= 0 { precision := Some(Clamp(p.value)); }
    }
    res := Resolved(left, spec.plus, spec.space, spec.zero, spec.alternate, width, precision, spec.conv, spec.time);
  }

  /** A conversion, by the position of its value among all arguments. */
  lemma ConvertedAt(r: Renderer, spec: Spec, args: seq<string>, start: nat, k: nat)
    requires k + 1 == start + |PullsOf(spec)|
    ensures var c := Converted(r, spec, Drop(args, start));
            var value := Arg(Drop(args, k), 0);
            var resolved := Resolve(r, spec, Drop(args, start));
            && c.out == r.text(resolved, value) && c.stop == (spec.conv == 'b' && value.Some? && r.stops(value.value))
            && c.rest == (if c.stop then [] else Drop(args, k + 1))
            && c.status == if r.fails(resolved, value) || (spec.conv == 'Q' && spec.overflow) then 1 else 0
  {
    ArgDrop(args, start, k - start);
    ArgDrop(args, k, 0);
    DropDrop(args, start, |PullsOf(spec)|);
  }

  /** One conversion: its stars, its value, its text. */
  method Convert(r: Renderer, spec: Spec, args: seq<string>, start: nat)
    returns (text: string, idx: nat, stop: bool, status: nat)
    ensures var c := Converted(r, spec, Drop(args, start));
            text == c.out && Drop(args, idx) == c.rest && stop == c.stop && status == c.status
  {
    status := if spec.conv == 'Q' && spec.overflow then 1 else 0;
    var resolved, k := ResolveStars(r, spec, args, start);
    ConvertedAt(r, spec, args, start, k);
    var value;
    value, idx := TakeArg(args, k);
    text := r.text(resolved, value);
    if r.fails(resolved, value) { status := 1; }
    stop := spec.conv == 'b' && value.Some? && r.stops(value.value);
    if stop { idx := |args|; }
  }

  method NextItem(fmt: string, i: nat, wide: nat -> string) returns (item: Option<Item>, next: nat)
    requires i < |fmt|
    ensures (item, next) == ItemAt(fmt, i, wide)
  {
    if fmt[i] == '\\' {
      if i + 1 == |fmt| { return Some(Text("\\")), i + 1; }
      var text;
      text, next := EmitFormatEscape(fmt, i + 1, "", wide);
      assert text == Escape(fmt[i + 1..], wide).0;
      return Some(Text(text)), next;
    }
    if fmt[i] != '%' { return Some(Text([fmt[i]])), i + 1; }
    if i + 1 < |fmt| && fmt[i + 1] == '%' { return Some(Text("%")), i + 2; }
    var parsed := ParseConversion(fmt, i + 1);
    match parsed
    case Good(spec, n) => return Some(Conv(spec)), n;
    case InvalidTime(_, raw, n) => return Some(Text(raw)), n;
    case Missing(_) => return None, 0;
    case Invalid(_, _) => return None, 0;
  }

  /** What was done, then the rest of the pass. */
  function Onward(r: Renderer, fmt: string, i: nat, acc: Outcome): Outcome
    requires i <= |fmt|
  {
    Then(acc, Round(r, FormatAt(fmt, i, r.wide), acc.rest))
  }

  lemma RoundAt(r: Renderer, fmt: string, i: nat, acc: Outcome)
    requires i < |fmt|
    ensures var (item, next) := ItemAt(fmt, i, r.wide);
            if item.None? then Onward(r, fmt, i, acc) == Then(acc, Outcome("", acc.rest, false, true, 1, 0, []))
            else
              var step := Step(r, item.value, acc.rest);
              Onward(r, fmt, i, acc) == if step.stop then Then(acc, step) else Onward(r, fmt, next, Then(acc, step))
  {
    var (item, next) := ItemAt(fmt, i, r.wide);
    if item.Some? {
      var step := Step(r, item.value, acc.rest);
      RoundPrepend(r, item.value, FormatAt(fmt, next, r.wide), acc.rest);
      ThenAssoc(acc, step, Round(r, FormatAt(fmt, next, r.wide), step.rest));
    }
  }

  /** The variables of a pass hold what was done. */
  ghost predicate Shows(o: Outcome, args: seq<string>, out: string, idx: nat, used: bool, stop: bool, status: nat) {
    o.out == out && o.rest == Drop(args, idx) && o.used == used && o.stop == stop && o.status == status
  }

  method DoItem(r: Renderer, item: Item, args: seq<string>, start: nat)
    returns (text: string, idx: nat, used: bool, stop: bool, status: nat)
    ensures Shows(Step(r, item, Drop(args, start)), args, text, idx, used, stop, status)
  {
    text, idx, used, stop, status := "", start, false, false, 0;
    match item {
      case Text(t) => text := t;
      case Conv(spec) =>
        used := true;
        text, idx, stop, status := Convert(r, spec, args, start);
    }
  }

  /** One item of the pass; a broken specification stops it with status 1. */
  method DoNext(r: Renderer, fmt: string, i: nat, args: seq<string>, start: nat, ghost acc: Outcome)
    returns (text: string, idx: nat, used: bool, stop: bool, status: nat, next: nat, ghost step: Outcome)
    requires i < |fmt| && acc.rest == Drop(args, start)
    ensures Shows(step, args, text, idx, used, stop, status) && status <= 1
    ensures if stop then Onward(r, fmt, i, acc) == Then(acc, step)
            else i < next <= |fmt| && Onward(r, fmt, i, acc) == Onward(r, fmt, next, Then(acc, step))
  {
    RoundAt(r, fmt, i, acc);
    var item;
    item, next := NextItem(fmt, i, r.wide);
    if item == None { return "", start, false, true, 1, 0, Outcome("", acc.rest, false, true, 1, 0, []); }
    step := Step(r, item.value, acc.rest);
    text, idx, used, stop, status := DoItem(r, item.value, args, start);
  }

  /** Nothing is left of the pass. */
  lemma RoundDone(r: Renderer, fmt: string, acc: Outcome)
    requires acc.status <= 1 && !acc.stop
    ensures Onward(r, fmt, |fmt|, acc) == acc
  {
    assert acc.out + "" == acc.out && acc.log + [] == acc.log;
  }

  lemma RoundBegins(r: Renderer, fmt: string, args: seq<string>)
    ensures Onward(r, fmt, 0, Outcome("", args, false, false, 0, 0, [])) == Round(r, FormatAt(fmt, 0, r.wide), args)
  {
    var o := Round(r, FormatAt(fmt, 0, r.wide), args);
    assert "" + o.out == o.out && [] + o.log == o.log;
  }

  lemma ShowsThen(acc: Outcome, step: Outcome, args: seq<string>, out: string, k: nat, used: bool, status: nat,
                  text: string, idx: nat, took: bool, stop: bool, failed: nat)
    requires Shows(acc, args, out, k, used, false, status) && Shows(step, args, text, idx, took, stop, failed)
    ensures Shows(Then(acc, step), args, out + text, idx, used || took, stop,
                  if failed > status then failed else status)
  {}

  /** One pass over the format. */
  method FormatRound(r: Renderer, fmt: string, args: seq<string>, start: nat)
    returns (out: string, idx: nat, used: bool, stop: bool, status: nat)
    ensures var o := Round(r, FormatAt(fmt, 0, r.wide), Drop(args, start));
            out == o.out && Drop(args, idx) == o.rest && used == o.used && stop == o.stop && status == o.status
  {
    ghost var acc := Outcome("", Drop(args, start), false, false, 0, 0, []);
    ghost var whole := Onward(r, fmt, 0, acc);
    RoundBegins(r, fmt, Drop(args, start));
    out, idx, used, stop, status := "", start, false, false, 0;
    var i := 0;
    while i < |fmt|
      invariant i <= |fmt| && !stop && status <= 1
      invariant Shows(acc, args, out, idx, used, stop, status) && whole == Onward(r, fmt, i, acc)
    {
      var k := idx;
      var text, took, failed;
      ghost var step;
      text, idx, took, stop, failed, i, step := DoNext(r, fmt, i, args, k, acc);
      ShowsThen(acc, step, args, out, k, used, status, text, idx, took, stop, failed);
      acc := Then(acc, step);
      out, used := out + text, used || took;
      if failed > status { status := failed; }
      if stop { return; }
    }
    RoundDone(r, fmt, acc);
  }

  /** The whole command: what it prints and its status, for all arguments. */
  method Printf(r: Renderer, fmt: string, args: seq<string>) returns (out: string, status: nat)
    ensures var o := Run(r, FormatAt(fmt, 0, r.wide), args); out == o.out && status == o.status
  {
    ghost var f := FormatAt(fmt, 0, r.wide);
    ghost var whole := Run(r, f, args);
    ghost var acc := Outcome("", args, false, false, 0, 0, []);
    out, status := "", 0;
    var idx: nat := 0;
    assert Then(acc, whole) == whole && Drop(args, 0) == args;
    while true
      invariant acc.out == out && acc.status == status && acc.rest == Drop(args, idx)
      invariant whole == Then(acc, Run(r, f, acc.rest))
      decreases |acc.rest|
    {
      ghost var o := Round(r, f, acc.rest).(rounds := 1);
      RunStep(r, f, acc.rest);
      var text, used, stop, failed;
      text, idx, used, stop, failed := FormatRound(r, fmt, args, idx);
      out := out + text;
      if failed > status { status := failed; }
      if !used || stop { return; }
      if idx >= |args| { return; }
      ThenAssoc(acc, o, Run(r, f, o.rest));
      acc := Then(acc, o);
    }
  }

  // ---- Quoted bytes are a format that prints them

  lemma EscapeItem(s: string, i: nat, t: string, n: nat, wide: nat -> string)
    requires i + 1 < |s| && s[i] == '\\' && Escape(s[i + 1..], wide) == (t, n)
    ensures ItemAt(s, i, wide) == (Some(Text(t)), i + 1 + n)
  {}

  lemma FrontOf(s: string, i: nat, q: string, tail: string)
    requires q != "" && i <= |s| && s[i..] == q + tail
    ensures i + |q| <= |s| && s[i] == q[0] && s[i + 1..] == q[1..] + tail && s[i + |q|..] == tail
  {
    assert s[i] == (q + tail)[0];
    assert s[i + |q|..] == s[i..][|q|..];
    assert s[i + 1..] == s[i..][1..];
  }

  /** One quoted byte is one item of text. */
  lemma QuotedItem(s: string, i: nat, c: char, tail: string, wide: nat -> string) returns (next: nat)
    requires IsByte(c) && c != '%' && i <= |s| && s[i..] == QuotedByte(c) + tail
    ensures i < next <= |s| && ItemAt(s, i, wide) == (Some(Text([c])), next) && s[next..] == tail
  {
    var q := QuotedByte(c);
    next := i + |q|;
    FrontOf(s, i, q, tail);
    QuotedByteReads(c, tail, wide);
    if q[0] == '\\' { EscapeItem(s, i, [c], |q| - 1, wide); }
  }

  /** Literal text at the front of a format is printed first. */
  lemma TextFirst(r: Renderer, s: string, i: nat, t: string, next: nat, v: string, args: seq<string>)
    requires i < next <= |s| && ItemAt(s, i, r.wide) == (Some(Text(t)), next)
    requires JustPrints(r, s, next, v, args)
    ensures JustPrints(r, s, i, t + v, args)
  {
    RoundPrepend(r, Text(t), FormatAt(s, next, r.wide), args);
  }

  predicate PlainBytes(v: string) {
    forall k :: 0 <= k < |v| ==> IsByte(v[k]) && v[k] != '%'
  }

  /** From here on the format prints `v` and takes nothing. */
  ghost predicate JustPrints(r: Renderer, s: string, i: nat, v: string, args: seq<string>)
    requires i <= |s|
  {
    Round(r, FormatAt(s, i, r.wide), args) == Outcome(v, args, false, false, 0, 0, [])
  }

  lemma {:induction false} QuotedRound(r: Renderer, s: string, i: nat, v: string, args: seq<string>)
    requires PlainBytes(v) && i <= |s| && s[i..] == QuotedBytes(v)
    ensures JustPrints(r, s, i, v, args)
    decreases |v|
  {
    if v == "" {
      assert i == |s|;
    } else {
      var next := QuotedItem(s, i, v[0], QuotedBytes(v[1..]), r.wide);
      QuotedRound(r, s, next, v[1..], args);
      TextFirst(r, s, i, [v[0]], next, v[1..], args);
      assert [v[0]] + v[1..] == v;
    }
  }

  /** The body of a byte-quoted string, given to printf as a format, prints the bytes and takes no argument. */
  lemma QuotedPrints(r: Renderer, v: string, args: seq<string>)
    requires PlainBytes(v)
    ensures Run(r, FormatAt(QuotedBytes(v), 0, r.wide), args) == Outcome(v, args, false, false, 0, 1, [])
  {
    QuotedRound(r, QuotedBytes(v), 0, v, args);
  }
}

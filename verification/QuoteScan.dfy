/**
 Two other readers of quoted text: the operand unquoter of `[[ ]]` arithmetic, and the test
 for an open quote that decides whether a command needs another line.
 */
module QuoteScan {
  import opened Ascii
  import opened Option
  import opened Quoting
  import Scanners
  import opened Sequences

  // ----- quote_remove_whole_operand

  function Prepend(c: string, r: Option<string>): Option<string> {
    if r == None then None else Some(c + r.value)
  }

  lemma PrependLaws(a: string, b: string, r: Option<string>)
    ensures Prepend("", r) == r && Prepend(a, Prepend(b, r)) == Prepend(a + b, r)
  {
    if r.Some? { assert "" + r.value == r.value && a + (b + r.value) == a + b + r.value; }
  }

  /** The text up to a closing quote that is the last byte; none if that is never met. */
  function WholeDouble(s: string): Option<string>
    decreases |s|
  {
    if s == "" then None
    else if s == "\"" then Some("")
    else if s[0] == '\\' && |s| > 1 then
      if s[1] in "\"\\$`\n" then Prepend(if s[1] == '\n' then "" else [s[1]], WholeDouble(s[2..]))
      else Prepend("\\", WholeDouble(s[1..]))
    else Prepend([s[0]], WholeDouble(s[1..]))
  }

  function QuoteRemoveWhole(expr: string): string {
    if |expr| >= 2 && expr[0] == '\'' && Scanners.QuoteFrom(expr, 1) + 1 == |expr| then expr[1..|expr| - 1]
    else if |expr| >= 2 && expr[0] == '"' then
      var inner := WholeDouble(expr[1..]);
      if inner.Some? then inner.value else expr
    else expr
  }

  method QuoteRemoveWholeOperand(expr: string) returns (r: string)
    ensures r == QuoteRemoveWhole(expr)
  {
    if |expr| >= 2 && expr[0] == '\'' && Scanners.QuoteFrom(expr, 1) + 1 == |expr| { return expr[1..|expr| - 1]; }
    if |expr| >= 2 && expr[0] == '"' {
      r := "";
      var i := 1;
      PrependLaws("", "", WholeDouble(expr[1..]));
      while i < |expr|
        invariant 1 <= i <= |expr| && Prepend(r, WholeDouble(expr[i..])) == WholeDouble(expr[1..])
      {
        assert expr[i..][1..] == expr[i + 1..];
        if expr[i] == '"' && i + 1 == |expr| {
          assert expr[i..] == "\"";
          return;
        }
        assert expr[i..] != "\"" by { assert |expr[i..]| == |expr| - i; }
        if expr[i] == '\\' && i + 1 < |expr| {
          assert expr[i..][2..] == expr[i + 2..];
          var next := expr[i + 1];
          if next in "\"\\$`\n" {
            PrependLaws(r, if next == '\n' then "" else [next], WholeDouble(expr[i + 2..]));
            if next != '\n' { r := r + [next]; } else { assert r + "" == r; }
            i := i + 2;
          } else {
            PrependLaws(r, "\\", WholeDouble(expr[i + 1..]));
            r := r + "\\";
            i := i + 1;
          }
        } else {
          PrependLaws(r, [expr[i]], WholeDouble(expr[i + 1..]));
          r := r + [expr[i]];
          i := i + 1;
        }
      }
    }
    r := expr;
  }

  lemma WholeSteps(c: char, t: string)
    requires t != ""
    ensures NeedsEscape(c) ==> WholeDouble(['\\', c] + t) == Prepend([c], WholeDouble(t))
    ensures !NeedsEscape(c) ==> WholeDouble([c] + t) == Prepend([c], WholeDouble(t))
  {
    var s, s' := ['\\', c] + t, [c] + t;
    assert s[2..] == t && s[1] == c && s[0] == '\\' && s != "\"";
    assert s'[1..] == t && s'[0] == c && |s'| > 1;
    assert NeedsEscape(c) ==> c in "\"\\$`\n" && c != '\n';
  }

  lemma {:induction false} WholeReadsBack(v: string)
    ensures WholeDouble(EscapeDouble(v) + "\"") == Some(v)
  {
    if v == "" {
      assert EscapeDouble(v) + "\"" == "\"";
    } else {
      var head := if NeedsEscape(v[0]) then ['\\', v[0]] else [v[0]];
      var t := EscapeDouble(v[1..]) + "\"";
      WholeReadsBack(v[1..]);
      WholeSteps(v[0], t);
      Regroup(head, EscapeDouble(v[1..]), "\"");
      assert v == [v[0]] + v[1..];
    }
  }

  lemma WholeOfDouble(v: string, q: string)
    requires q == "\"" + EscapeDouble(v) + "\""
    ensures QuoteRemoveWhole(q) == v
  {
    assert q[1..] == EscapeDouble(v) + "\"";
    WholeReadsBack(v);
  }

  /** The operand unquoter undoes `declare -p` quoting exactly on texts without control bytes. */
  lemma WholeExact(v: string)
    ensures QuoteRemoveWhole(ShellQuote(v)) == v <==> !HasControl(v)
  {
    if HasControl(v) { ControlIsLost(v); } else { WholeOfDouble(v, ShellQuote(v)); }
  }

  // ----- source_has_open_quote

  /** The open quote, or `'\0'`, and whether a backslash holds the next byte. */
  datatype Scan = Scan(quote: char, escaped: bool)

  const CLOSED := Scan('\0', false)

  function Next(st: Scan, c: char): Scan {
    if st.escaped then Scan(st.quote, false)
    else if st.quote == '\'' then (if c == '\'' then CLOSED else st)
    else if st.quote == '"' || st.quote == '`' then
      if c == '\\' then Scan(st.quote, true) else if c == st.quote then CLOSED else st
    else if c == '\\' then Scan(st.quote, true)
    else if c == '\'' || c == '"' || c == '`' then Scan(c, false)
    else st
  }

  function After(st: Scan, s: string): Scan
    decreases |s|
  {
    if s == "" then st else After(Next(st, s[0]), s[1..])
  }

  method SourceHasOpenQuote(source: string) returns (open: bool)
    ensures open <==> After(CLOSED, source).quote != '\0'
  {
    var quote, escaped := '\0', false;
    for i := 0 to |source|
      invariant After(Scan(quote, escaped), source[i..]) == After(CLOSED, source)
    {
      var c := source[i];
      assert source[i..][1..] == source[i + 1..];
      if escaped { escaped := false; continue; }
      match quote {
        case '\'' => if c == '\'' { quote := '\0'; }
        case '"' => if c == '\\' { escaped := true; } else if c == '"' { quote := '\0'; }
        case '`' => if c == '\\' { escaped := true; } else if c == '`' { quote := '\0'; }
        case _ =>
          if c == '\\' { escaped := true; } else if c == '\'' || c == '"' || c == '`' { quote := c; }
      }
    }
    open := quote != '\0';
  }

  lemma {:induction false} AfterConcat(st: Scan, a: string, b: string)
    ensures After(st, a + b) == After(After(st, a), b)
    decreases |a|
  {
    if a == "" {
      assert a + b == b;
    } else {
      AfterConcat(Next(st, a[0]), a[1..], b);
      assert (a + b)[1..] == a[1..] + b;
    }
  }

  /** Read from outside quotes, the text leaves no quote open and no backslash pending. */
  predicate Settled(s: string) {
    After(CLOSED, s) == CLOSED
  }

  lemma Escaped(st: Scan, c: char)
    requires !st.escaped && st.quote != '\''
    ensures After(st, ['\\', c]) == st
  {
    assert ['\\', c][1..] == [c] && [c][1..] == "";
    assert Next(st, '\\') == Scan(st.quote, true);
    assert After(Scan(st.quote, true), [c]) == st;
  }

  lemma {:induction false} InsideSingle(v: string)
    ensures After(Scan('\'', false), EscapeSingle(v)) == Scan('\'', false)
  {
    if v != "" {
      InsideSingle(v[1..]);
      var head := if v[0] == '\'' then QUOTE_BREAK else [v[0]];
      AfterConcat(Scan('\'', false), head, EscapeSingle(v[1..]));
      assert After(Scan('\'', false), head) == Scan('\'', false) by {
        if v[0] == '\'' {
          assert head[1..] == "\\''" && head[1..][1..] == "''"
                 && head[1..][1..][1..] == "'" && head[1..][1..][1..][1..] == "";
        } else {
          assert head[1..] == "";
        }
      }
    }
  }

  lemma {:induction false} InsideDouble(v: string)
    ensures After(Scan('"', false), EscapeDouble(v)) == Scan('"', false)
  {
    if v != "" {
      InsideDouble(v[1..]);
      var head := if NeedsEscape(v[0]) then ['\\', v[0]] else [v[0]];
      AfterConcat(Scan('"', false), head, EscapeDouble(v[1..]));
      if NeedsEscape(v[0]) { Escaped(Scan('"', false), v[0]); } else { assert head[1..] == ""; }
    }
  }

  lemma Wrapped(q: char, body: string)
    requires (q == '\'' || q == '"') && After(Scan(q, false), body) == Scan(q, false)
    ensures Settled([q] + body + [q])
  {
    AfterConcat(CLOSED, [q] + body, [q]);
    AfterConcat(CLOSED, [q], body);
    assert [q][1..] == "";
  }

  lemma {:induction false} PlainSettled(v: string)
    requires forall i :: 0 <= i < |v| ==> IsPlain(v[i]) && v[i] != '`'
    ensures Settled(v)
  {
    if v != "" { PlainSettled(v[1..]); }
  }

  lemma {:induction false} BackslashedSettled(v: string, first: bool)
    ensures Settled(Backslashed(v, first))
  {
    if v != "" {
      BackslashedSettled(v[1..], false);
      var head := if first || !AnsiSafe(v[0]) then ['\\', v[0]] else [v[0]];
      AfterConcat(CLOSED, head, Backslashed(v[1..], false));
      if first || !AnsiSafe(v[0]) { Escaped(CLOSED, v[0]); } else { assert head[1..] == ""; }
    }
  }

  /** Every quoter of the builtins. */
  datatype Style = Declare | SetValue(posix: bool) | Ansi | Alias | Printf | Jobs | Key

  function Quote(style: Style, v: string): string {
    match style
    case Declare => ShellQuote(v)
    case SetValue(posix) => AssignmentQuote(v, posix)
    case Ansi => AnsiCQuote(v)
    case Alias => SingleQuoted(v)
    case Printf => PrintfQuote(v)
    case Jobs => JobsQuote(v)
    case Key => AssocKeyQuote(v)
  }

  lemma SingleSettled(v: string)
    ensures Settled(SingleQuoted(v)) && Settled("''")
  {
    InsideSingle(v);
    Wrapped('\'', EscapeSingle(v));
    Wrapped('\'', "");
    assert "''" == ['\''] + "" + ['\''];
  }

  // ----- the `$'...'` form, byte by byte

  const IN_SINGLE := Scan('\'', false)

  /** Out of the first single quote, and not in another. */
  predicate Outside(st: Scan) {
    !st.escaped && st.quote != '\''
  }

  lemma AfterTwo(st: Scan, a: char, b: char)
    ensures After(st, [a, b]) == Next(Next(st, a), b) && After(st, [a]) == Next(st, a)
  {
    assert [a, b][1..] == [b] && [b][1..] == "" && [a][1..] == "";
    assert After(st, [a, b]) == After(Next(st, a), [b]);
    assert After(Next(st, a), [b]) == After(Next(Next(st, a), b), "");
  }

  /** Inside the first quote a byte changes nothing, except a quote, which closes it. */
  lemma AnsiByteInside(c: char)
    ensures After(IN_SINGLE, AnsiByte(c)) == if c == '\'' then CLOSED else IN_SINGLE
  {
    var s := AnsiByte(c);
    if |s| == 2 {
      AfterTwo(IN_SINGLE, s[0], s[1]);
    } else if |s| == 4 {
      assert s == [s[0], s[1]] + [s[2], s[3]];
      AfterConcat(IN_SINGLE, [s[0], s[1]], [s[2], s[3]]);
      AfterTwo(IN_SINGLE, s[0], s[1]);
      AfterTwo(IN_SINGLE, s[2], s[3]);
    } else {
      AfterTwo(IN_SINGLE, c, c);
    }
  }

  lemma AnsiByteOutside(st: Scan, c: char)
    requires Outside(st)
    ensures Outside(After(st, AnsiByte(c)))
  {
    var s := AnsiByte(c);
    if |s| == 2 {
      Escaped(st, s[1]);
    } else if |s| == 4 {
      assert s == ['\\', s[1]] + [s[2], s[3]];
      AfterConcat(st, ['\\', s[1]], [s[2], s[3]]);
      Escaped(st, s[1]);
      AfterTwo(st, s[2], s[3]);
      assert IsOctal(s[2]) && IsOctal(s[3]);
    } else {
      AfterTwo(st, c, c);
    }
  }

  lemma {:induction false} AnsiBodyOutside(st: Scan, v: string)
    requires Outside(st)
    ensures Outside(After(st, AnsiBody(v)))
    decreases |v|
  {
    if v != "" {
      AnsiByteOutside(st, v[0]);
      AfterConcat(st, AnsiByte(v[0]), AnsiBody(v[1..]));
      AnsiBodyOutside(After(st, AnsiByte(v[0])), v[1..]);
    }
  }

  lemma {:induction false} AnsiBodyInside(v: string)
    ensures '\'' !in v ==> After(IN_SINGLE, AnsiBody(v)) == IN_SINGLE
    ensures '\'' in v ==> Outside(After(IN_SINGLE, AnsiBody(v)))
  {
    if v != "" {
      AnsiByteInside(v[0]);
      AfterConcat(IN_SINGLE, AnsiByte(v[0]), AnsiBody(v[1..]));
      if v[0] == '\'' { AnsiBodyOutside(CLOSED, v[1..]); } else { AnsiBodyInside(v[1..]); }
    }
  }

  /** A `$'...'` text closes its quote if and only if the value holds none; if it does, the text ends inside a quote. */
  lemma AnsiFormSettles(v: string)
    ensures var q := "$'" + AnsiBody(v) + "'";
            if '\'' in v then After(CLOSED, q).quote != '\0' else Settled(q)
  {
    var body := AnsiBody(v);
    AfterConcat(CLOSED, "$'" + body, "'");
    AfterConcat(CLOSED, "$'", body);
    AfterTwo(CLOSED, '$', '\'');
    assert "$'" == ['$', '\''] && After(CLOSED, "$'") == IN_SINGLE;
    AnsiBodyInside(v);
    AfterTwo(After(IN_SINGLE, body), '\'', '\'');
    assert "'" == ['\''];
  }

  /** Whether a quoter writes the value as `$'...'`. */
  predicate UsesAnsi(style: Style, v: string) {
    HasControl(v) &&
    match style {
      case Declare => true
      case SetValue(posix) => !posix
      case Ansi => true
      case Alias => false
      case Printf => v[0] != '~'
      case Jobs => false
      case Key => true
    }
  }

  lemma UsesAnsiIs(style: Style, v: string)
    requires UsesAnsi(style, v)
    ensures Quote(style, v) == "$'" + AnsiBody(v) + "'"
  {
    ControlIsLost(v);
    var i :| 0 <= i < |v| && IsControl(v[i]);
    assert !IsPrint(v[i]);
  }

  lemma DoubleSettled(v: string)
    ensures Settled("\"" + EscapeDouble(v) + "\"")
  {
    InsideDouble(v);
    Wrapped('"', EscapeDouble(v));
  }

  lemma SetSettled(v: string, posix: bool)
    requires posix || !HasControl(v)
    ensures Settled(AssignmentQuote(v, posix))
  {
    SingleSettled(v);
    if !ContainsMetas(v) {
      forall i | 0 <= i < |v| ensures IsPlain(v[i]) && v[i] != '`' { assert !IsMeta(v[i], i == 0); }
      PlainSettled(v);
    } else if v == "'" {
      Escaped(CLOSED, '\'');
    }
  }

  lemma AnsiSettled(v: string)
    requires !HasControl(v)
    ensures Settled(AnsiCQuote(v))
  {
    SingleSettled(v);
    if AllSafe(v, AnsiSafe) { PlainSettled(v); }
  }

  lemma PrintfSettled(v: string)
    requires !HasControl(v) || v[0] == '~'
    ensures Settled(PrintfQuote(v))
  {
    BackslashedSettled(v, false);
    BackslashedSettled(v, true);
    if !HasControl(v) { AnsiSettled(v); }
  }

  lemma OtherSettled(style: Style, v: string)
    requires !UsesAnsi(style, v)
    ensures Settled(Quote(style, v))
  {
    match style
    case Declare => DoubleSettled(v);
    case SetValue(posix) => SetSettled(v, posix);
    case Ansi => AnsiSettled(v);
    case Alias => SingleSettled(v);
    case Printf => PrintfSettled(v);
    case Jobs => SingleSettled(v); if AllSafe(v, JobSafe) { PlainSettled(v); }
    case Key => DoubleSettled(v); if AllSafe(v, KeySafe) { PlainSettled(v); }
  }

  /**
   For every quoter and value, the printed text leaves a quote open if and only if it takes the `$'...'` form
   and the value holds a single quote; otherwise it leaves nothing pending.
   */
  lemma QuoteSettled(style: Style, v: string)
    ensures Settled(Quote(style, v)) <==> !(UsesAnsi(style, v) && '\'' in v)
    ensures After(CLOSED, Quote(style, v)).quote != '\0' <==> UsesAnsi(style, v) && '\'' in v
  {
    if UsesAnsi(style, v) {
      UsesAnsiIs(style, v);
      AnsiFormSettles(v);
    } else {
      OtherSettled(style, v);
    }
  }

  function Joined(words: seq<string>): string {
    if words == [] then "" else if |words| == 1 then words[0] else words[0] + (" " + Joined(words[1..]))
  }

  /** A line made of printed values, each by any quoter, is complete where each of them is. */
  lemma {:induction false} PrintedLineComplete(items: seq<(Style, string)>, words: seq<string>)
    requires |words| == |items|
    requires forall i :: 0 <= i < |items| ==>
               words[i] == Quote(items[i].0, items[i].1) && !(UsesAnsi(items[i].0, items[i].1) && '\'' in items[i].1)
    ensures Settled(Joined(words))
  {
    if words != [] {
      QuoteSettled(items[0].0, items[0].1);
      if |words| > 1 {
        PrintedLineComplete(items[1..], words[1..]);
        AfterConcat(CLOSED, words[0], " " + Joined(words[1..]));
        assert (" " + Joined(words[1..]))[1..] == Joined(words[1..]);
      }
    }
  }

  /** A newline and a quote in one value: the line `declare -p` prints for it ends inside a quote. */
  lemma ControlCanStayOpen()
    ensures After(CLOSED, Quote(Declare, "\n'")).quote != '\0'
  {
    var v := "\n'";
    assert IsControl(v[0]) && v[1] == '\'';
    QuoteSettled(Declare, v);
  }
}

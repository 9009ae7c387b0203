/**
 Every way the builtins print a value so that the shell reads it back, and the two quote
 removers.  Text is ASCII.  For each quoter it is settled, for all ASCII texts, exactly
 when the quote remover of indexed subscripts gives the text back.
 */
module Quoting {
  import opened Ascii
  import opened Sequences

  predicate HasControl(v: string) {
    exists i :: 0 <= i < |v| && IsControl(v[i])
  }

  // ----- quoters

  predicate NeedsEscape(c: char) { c == '"' || c == '\\' || c == '$' || c == '`' }

  function EscapeDouble(v: string): string {
    if v == "" then "" else (if NeedsEscape(v[0]) then ['\\', v[0]] else [v[0]]) + EscapeDouble(v[1..])
  }

  /** A quote inside single quotes: close, escaped quote, reopen. */
  const QUOTE_BREAK := "'\\''"

  function EscapeSingle(v: string): string {
    if v == "" then "" else (if v[0] == '\'' then QUOTE_BREAK else [v[0]]) + EscapeSingle(v[1..])
  }

  function SingleQuoted(v: string): string {
    "'" + EscapeSingle(v) + "'"
  }

  function OctalDigit(n: nat): char
    requires n < 8
  {
    '0' + n as char
  }

  function Octal(c: char): string
    requires IsByte(c)
  {
    [OctalDigit(c as int / 64), OctalDigit(c as int / 8 % 8), OctalDigit(c as int % 8)]
  }

  /** One byte inside `$'...'`. */
  function AnsiByte(c: char): string {
    match c
    case '\'' => "\\'"
    case '\\' => "\\\\"
    case '\n' => "\\n"
    case '\t' => "\\t"
    case '\r' => "\\r"
    case '\U{07}' => "\\a"
    case '\U{08}' => "\\b"
    case '\U{1b}' => "\\E"
    case '\U{0c}' => "\\f"
    case '\U{0b}' => "\\v"
    case _ => if IsControl(c) then "\\" + Octal(c) else [c]
  }

  function AnsiBody(v: string): string {
    if v == "" then "" else AnsiByte(v[0]) + AnsiBody(v[1..])
  }

  predicate AnsiSafe(c: char) { IsAlnum(c) || c in "_/.-+:@," }

  predicate AllSafe(v: string, safe: char -> bool) {
    forall i :: 0 <= i < |v| ==> safe(v[i])
  }

  /** `${v@Q}`. */
  function AnsiCQuote(v: string): string {
    if v == "" then "''"
    else if AllSafe(v, AnsiSafe) then v
    else if HasControl(v) then "$'" + AnsiBody(v) + "'"
    else SingleQuoted(v)
  }

  /** `declare -p`. */
  function ShellQuote(v: string): string {
    if HasControl(v) then AnsiCQuote(v) else "\"" + EscapeDouble(v) + "\""
  }

  predicate IsMeta(c: char, first: bool) {
    c in " \t\n'\"\\|&;()<>!{}*[?]^$`" || (first && (c == '~' || c == '#'))
  }

  predicate ContainsMetas(v: string) {
    exists i :: 0 <= i < |v| && IsMeta(v[i], i == 0)
  }

  function SingleQuoteAssignment(v: string): string {
    if v == "'" then "\\'" else SingleQuoted(v)
  }

  /** `set`. */
  function AssignmentQuote(v: string, posix: bool): string {
    if !posix && HasControl(v) then AnsiCQuote(v)
    else if ContainsMetas(v) then SingleQuoteAssignment(v)
    else v
  }

  predicate KeySafe(c: char) { IsAlnum(c) || c in "_/.-+:,=%" }

  /** The key of an associative element. */
  function AssocKeyQuote(v: string): string {
    if HasControl(v) then AnsiCQuote(v) else if AllSafe(v, KeySafe) then v else ShellQuote(v)
  }

  function Backslashed(v: string, first: bool): string {
    if v == "" then ""
    else (if first || !AnsiSafe(v[0]) then ['\\', v[0]] else [v[0]]) + Backslashed(v[1..], false)
  }

  /** `printf %q`. */
  function PrintfQuote(v: string): string {
    if v == "" then "''"
    else if forall i :: 0 <= i < |v| ==> IsPrint(v[i]) then Backslashed(v, false)
    else if v[0] == '~' then Backslashed(v, true)
    else AnsiCQuote(v)
  }

  predicate JobSafe(c: char) { IsAlnum(c) || c in "_-./:" }

  /** `jobs -x`. */
  function JobsQuote(v: string): string {
    if v == "" then "''" else if AllSafe(v, JobSafe) then v else SingleQuoted(v)
  }

  // ----- the printing loops

  method QuoteDouble(v: string) returns (out: string)
    ensures out == "\"" + EscapeDouble(v) + "\""
  {
    out := "\"";
    for i := 0 to |v|
      invariant out + EscapeDouble(v[i..]) == "\"" + EscapeDouble(v)
    {
      assert v[i..][1..] == v[i + 1..];
      out := if NeedsEscape(v[i]) then out + ['\\', v[i]] else out + [v[i]];
    }
    out := out + "\"";
  }

  /** The loop shared by `alias`, `complete`, `mapfile`, `printf %#q` and `${v@Q}`. */
  method QuoteSingle(v: string) returns (out: string)
    ensures out == SingleQuoted(v)
  {
    out := "'";
    for i := 0 to |v|
      invariant out + EscapeSingle(v[i..]) == "'" + EscapeSingle(v)
    {
      assert v[i..][1..] == v[i + 1..];
      out := if v[i] == '\'' then out + QUOTE_BREAK else out + [v[i]];
    }
    out := out + "'";
  }

  /** The loop of `set`, which pushes each byte first and then completes a quote. */
  method QuoteAssignment(v: string) returns (out: string)
    ensures out == SingleQuoteAssignment(v)
  {
    if v == "'" { return "\\'"; }
    out := "'";
    for i := 0 to |v|
      invariant out + EscapeSingle(v[i..]) == "'" + EscapeSingle(v)
    {
      assert v[i..][1..] == v[i + 1..];
      out := out + [v[i]];
      if v[i] == '\'' { out := out + "\\''"; }
    }
    out := out + "'";
  }

  method QuoteAnsi(v: string) returns (out: string)
    ensures out == "$'" + AnsiBody(v) + "'"
  {
    out := "$'";
    for i := 0 to |v|
      invariant out + AnsiBody(v[i..]) == "$'" + AnsiBody(v)
    {
      assert v[i..][1..] == v[i + 1..];
      Regroup(out, AnsiByte(v[i]), AnsiBody(v[i + 1..]));
      out := out + AnsiByte(v[i]);
    }
    out := out + "'";
  }

  method QuoteBackslash(v: string, tilde: bool) returns (out: string)
    ensures out == Backslashed(v, tilde)
  {
    out := "";
    for i := 0 to |v|
      invariant out + Backslashed(v[i..], tilde && i == 0) == Backslashed(v, tilde)
    {
      assert v[i..][1..] == v[i + 1..];
      ghost var head := if (tilde && i == 0) || !AnsiSafe(v[i]) then ['\\', v[i]] else [v[i]];
      ghost var rest := Backslashed(v[i + 1..], false);
      assert Backslashed(v[i..], tilde && i == 0) == head + rest;
      Regroup(out, head, rest);
      ghost var before := out;
      if (tilde && i == 0) || !AnsiSafe(v[i]) { out := out + "\\"; }
      out := out + [v[i]];
      assert out == before + head;
    }
  }

  // ----- removing quotes

  predicate IsPlain(c: char) { c != '\'' && c != '"' && c != '\\' }

  function Dequote(s: string): string
    decreases |s|
  {
    if s == "" then ""
    else if s[0] == '\'' then InSingle(s[1..])
    else if s[0] == '"' then InDouble(s[1..])
    else if s[0] == '\\' && |s| > 1 then [s[1]] + Dequote(s[2..])
    else [s[0]] + Dequote(s[1..])
  }

  function InSingle(s: string): string
    decreases |s|
  {
    if s == "" then "" else if s[0] == '\'' then Dequote(s[1..]) else [s[0]] + InSingle(s[1..])
  }

  function InDouble(s: string): string
    decreases |s|
  {
    if s == "" then ""
    else if s[0] == '"' then Dequote(s[1..])
    else if s[0] == '\\' && |s| > 1 then [s[1]] + InDouble(s[2..])
    else [s[0]] + InDouble(s[1..])
  }

  lemma DequoteAt(s: string, i: nat)
    requires i < |s|
    ensures s[i] == '\'' ==> Dequote(s[i..]) == InSingle(s[i + 1..])
    ensures s[i] == '"' ==> Dequote(s[i..]) == InDouble(s[i + 1..])
    ensures s[i] == '\\' && i + 1 < |s| ==> Dequote(s[i..]) == [s[i + 1]] + Dequote(s[i + 2..])
    ensures IsPlain(s[i]) || (s[i] == '\\' && i + 1 == |s|) ==> Dequote(s[i..]) == [s[i]] + Dequote(s[i + 1..])
  {
    assert s[i..][1..] == s[i + 1..];
    if i + 1 < |s| { assert s[i..][2..] == s[i + 2..]; }
  }

  /** One character outside quotes, behind a backslash or not. */
  method TakeOne(s: string, start: string, from: nat) returns (out: string, i: nat)
    requires from < |s| && s[from] != '\'' && s[from] != '"'
    ensures from < i <= |s| && out + Dequote(s[i..]) == start + Dequote(s[from..])
  {
    DequoteAt(s, from);
    i := from;
    if s[i] == '\\' && i + 1 < |s| { i := i + 1; }
    out := start + [s[i]];
    i := i + 1;
    Regroup(start, [s[i - 1]], Dequote(s[i..]));
  }

  method DequoteIndexedSubscript(s: string) returns (out: string)
    ensures out == Dequote(s)
  {
    out := "";
    var i := 0;
    assert out + Dequote(s[i..]) == Dequote(s);
    while i < |s|
      invariant i <= |s| && out + Dequote(s[i..]) == Dequote(s)
    {
      DequoteAt(s, i);
      if s[i] == '\'' {
        out, i := SpanSingle(s, out, i + 1);
      } else if s[i] == '"' {
        out, i := SpanDouble(s, out, i + 1);
      } else {
        out, i := TakeOne(s, out, i);
      }
    }
  }

  method SpanSingle(s: string, start: string, from: nat) returns (out: string, i: nat)
    requires from <= |s|
    ensures from <= i <= |s| && out + Dequote(s[i..]) == start + InSingle(s[from..])
  {
    out, i := start, from;
    while i < |s| && s[i] != '\''
      invariant from <= i <= |s| && out + InSingle(s[i..]) == start + InSingle(s[from..])
    {
      assert s[i..][1..] == s[i + 1..];
      out := out + [s[i]];
      i := i + 1;
    }
    if i < |s| {
      assert s[i..][1..] == s[i + 1..];
      i := i + 1;
    }
  }

  method SpanDouble(s: string, start: string, from: nat) returns (out: string, i: nat)
    requires from <= |s|
    ensures from <= i <= |s| && out + Dequote(s[i..]) == start + InDouble(s[from..])
  {
    out, i := start, from;
    while i < |s| && s[i] != '"'
      invariant from <= i <= |s| && out + InDouble(s[i..]) == start + InDouble(s[from..])
    {
      if s[i] == '\\' && i + 1 < |s| {
        assert s[i..][2..] == s[i + 2..];
        i := i + 1;
      } else {
        assert s[i..][1..] == s[i + 1..];
      }
      out := out + [s[i]];
      i := i + 1;
    }
    if i < |s| {
      assert s[i..][1..] == s[i + 1..];
      i := i + 1;
    }
  }

  // ----- each form read back, with anything after it

  lemma SingleSteps(c: char, t: string)
    ensures InSingle("'" + t) == Dequote(t) && Dequote("'" + t) == InSingle(t)
    ensures c != '\'' ==> InSingle([c] + t) == [c] + InSingle(t)
    ensures Dequote(['\\', c] + t) == [c] + Dequote(t)
  {
    assert ("'" + t)[1..] == t && ([c] + t)[1..] == t && (['\\', c] + t)[2..] == t;
  }

  lemma DoubleSteps(c: char, t: string)
    ensures InDouble("\"" + t) == Dequote(t)
    ensures c != '"' && c != '\\' ==> InDouble([c] + t) == [c] + InDouble(t)
    ensures InDouble(['\\', c] + t) == [c] + InDouble(t)
  {
    assert ("\"" + t)[1..] == t && ([c] + t)[1..] == t && (['\\', c] + t)[2..] == t;
  }

  /** Inside single quotes, a broken-out quote reads as one quote. */
  lemma QuoteBreakReads(t: string)
    ensures InSingle(QUOTE_BREAK + t) == ['\''] + InSingle(t)
  {
    SingleSteps('\'', ['\\', '\''] + ("'" + t));
    SingleSteps('\'', "'" + t);
    SingleSteps('\'', t);
    assert QUOTE_BREAK + t == "'" + (['\\', '\''] + ("'" + t));
  }

  lemma {:induction false} SingleReadsBack(v: string, rest: string)
    ensures InSingle(EscapeSingle(v) + rest) == v + InSingle(rest)
  {
    if v == "" {
      assert EscapeSingle(v) + rest == rest;
    } else {
      var head := if v[0] == '\'' then QUOTE_BREAK else [v[0]];
      var t := EscapeSingle(v[1..]) + rest;
      SingleReadsBack(v[1..], rest);
      assert InSingle(head + t) == [v[0]] + InSingle(t) by {
        if v[0] == '\'' { QuoteBreakReads(t); } else { SingleSteps(v[0], t); }
      }
      Regroup(head, EscapeSingle(v[1..]), rest);
      Regroup([v[0]], v[1..], InSingle(rest));
    }
  }

  /** An escaped character inside double quotes reads as itself. */
  lemma EscapedReads(c: char, t: string)
    ensures InDouble((if NeedsEscape(c) then ['\\', c] else [c]) + t) == [c] + InDouble(t)
  {
    DoubleSteps(c, t);
  }

  lemma {:induction false} DoubleReadsBack(v: string, rest: string)
    ensures InDouble(EscapeDouble(v) + rest) == v + InDouble(rest)
  {
    if v == "" {
      assert EscapeDouble(v) + rest == rest;
    } else {
      var head := if NeedsEscape(v[0]) then ['\\', v[0]] else [v[0]];
      DoubleReadsBack(v[1..], rest);
      EscapedReads(v[0], EscapeDouble(v[1..]) + rest);
      assert EscapeDouble(v) == head + EscapeDouble(v[1..]);
      Regroup(head, EscapeDouble(v[1..]), rest);
      Regroup([v[0]], v[1..], InDouble(rest));
    }
  }

  lemma {:induction false} PlainReadsBack(v: string)
    requires forall i :: 0 <= i < |v| ==> IsPlain(v[i])
    ensures Dequote(v) == v
  {
    if v != "" { PlainReadsBack(v[1..]); }
  }

  lemma {:induction false} BackslashReadsBack(v: string, first: bool)
    ensures Dequote(Backslashed(v, first)) == v
  {
    if v != "" {
      BackslashReadsBack(v[1..], false);
      var s, t := Backslashed(v, first), Backslashed(v[1..], false);
      if first || !AnsiSafe(v[0]) {
        assert s == ['\\', v[0]] + t && s[2..] == t;
      } else {
        assert s == [v[0]] + t && s[1..] == t;
      }
      assert v == [v[0]] + v[1..];
    }
  }

  lemma SingleQuotedReadsBack(v: string)
    ensures Dequote(SingleQuoted(v)) == v
  {
    SingleReadsBack(v, "'");
    assert SingleQuoted(v)[1..] == EscapeSingle(v) + "'";
  }

  // ----- when quotes are lost

  /** Removing quotes only ever drops characters. */
  lemma {:induction false} DequoteOnlyDrops(s: string, c: char)
    ensures c in Dequote(s) || c in InSingle(s) || c in InDouble(s) ==> c in s
    decreases |s|
  {
    if s != "" {
      DequoteOnlyDrops(s[1..], c);
      assert c in s[1..] ==> c in s;
      if |s| > 1 {
        DequoteOnlyDrops(s[2..], c);
        assert c in s[2..] ==> c in s;
      }
    }
  }

  lemma {:induction false} AnsiBodyPrints(v: string)
    ensures forall c :: c in AnsiBody(v) ==> !IsControl(c)
  {
    if v != "" { AnsiBodyPrints(v[1..]); }
  }

  /** A text with control bytes is never recovered: `$'...'` holds none, so nothing taken from it does. */
  lemma ControlIsLost(v: string)
    requires HasControl(v)
    ensures AnsiCQuote(v) == "$'" + AnsiBody(v) + "'"
    ensures Dequote(AnsiCQuote(v)) != v && AnsiCQuote(v) != v
  {
    var i :| 0 <= i < |v| && IsControl(v[i]);
    assert !AnsiSafe(v[i]);
    AnsiBodyPrints(v);
    var q := AnsiCQuote(v);
    assert forall c :: c in q ==> !IsControl(c);
    DequoteOnlyDrops(q, v[i]);
    assert v[i] in v;
  }

  // ----- the exact conditions

  lemma AnsiExact(v: string)
    ensures Dequote(AnsiCQuote(v)) == v <==> !HasControl(v)
  {
    if HasControl(v) {
      ControlIsLost(v);
    } else if v == "" {
      assert AnsiCQuote(v) == SingleQuoted(v);
      SingleQuotedReadsBack(v);
    } else if AllSafe(v, AnsiSafe) {
      PlainReadsBack(v);
    } else {
      SingleQuotedReadsBack(v);
    }
  }

  /** `declare -p` quoting is undone exactly on texts without control bytes. */
  lemma ShellExact(v: string)
    ensures Dequote(ShellQuote(v)) == v <==> !HasControl(v)
  {
    if HasControl(v) {
      ControlIsLost(v);
    } else {
      DoubleReadsBack(v, "\"");
      assert ShellQuote(v)[1..] == EscapeDouble(v) + "\"";
    }
  }

  lemma SetExact(v: string, posix: bool)
    ensures Dequote(AssignmentQuote(v, posix)) == v <==> posix || !HasControl(v)
  {
    if !posix && HasControl(v) {
      ControlIsLost(v);
    } else if ContainsMetas(v) {
      if v != "'" { SingleQuotedReadsBack(v); }
    } else {
      forall i | 0 <= i < |v| ensures IsPlain(v[i]) { assert !IsMeta(v[i], i == 0); }
      PlainReadsBack(v);
    }
  }

  lemma KeyExact(v: string)
    ensures Dequote(AssocKeyQuote(v)) == v <==> !HasControl(v)
  {
    ShellExact(v);
    if !HasControl(v) && AllSafe(v, KeySafe) { PlainReadsBack(v); }
  }

  /** `printf %q` is undone exactly on printable texts and on those that start with a tilde. */
  lemma PrintfExact(v: string)
    requires AllAscii(v)
    ensures Dequote(PrintfQuote(v)) == v <==> !HasControl(v) || v[0] == '~'
  {
    if v == "" {
      SingleQuotedReadsBack("");
    } else if HasControl(v) {
      var i :| 0 <= i < |v| && IsControl(v[i]);
      assert !IsPrint(v[i]);
      if v[0] == '~' { BackslashReadsBack(v, true); } else { ControlIsLost(v); }
    } else {
      forall i | 0 <= i < |v| ensures IsPrint(v[i]) { assert !IsControl(v[i]) && IsAscii(v[i]); }
      BackslashReadsBack(v, false);
    }
  }

  lemma JobsExact(v: string)
    ensures Dequote(JobsQuote(v)) == v
  {
    SingleQuotedReadsBack(v);
    if AllSafe(v, JobSafe) { PlainReadsBack(v); }
  }
}

/**
 An associative element as `declare -p` prints it, `name[key]=value`, read back by the
 assignment scanners and the quote remover.
 */
module PrintedElement {
  import opened Ascii
  import opened Option
  import opened Quoting
  import opened Scanners
  import opened Sequences

  /** The double-quote scan stops right after the printed value's own closing quote. */
  lemma {:induction false} DoubleSkips(text: string, p: nat, v: string)
    requires At(text, p, EscapeDouble(v) + "\"")
    ensures DoubleFrom(text, p) == p + |EscapeDouble(v)| + 1
    decreases |v|
  {
    if v == "" {
      assert EscapeDouble(v) + "\"" == ['"'] + "";
      AtHead(text, p, '"', "");
    } else {
      var t := EscapeDouble(v[1..]) + "\"";
      if NeedsEscape(v[0]) {
        assert EscapeDouble(v) + "\"" == ['\\'] + ([v[0]] + t);
        AtHead(text, p, '\\', [v[0]] + t);
        AtHead(text, p + 1, v[0], t);
        DoubleSkips(text, p + 2, v[1..]);
      } else {
        assert EscapeDouble(v) + "\"" == [v[0]] + t;
        AtHead(text, p, v[0], t);
        DoubleSkips(text, p + 1, v[1..]);
      }
    }
  }

  predicate Inert(c: char) {
    c != '[' && c != ']' && c != '\'' && c != '"' && c != '\\' && c != '$'
  }

  lemma {:induction false} CloseSkipsInert(text: string, p: nat, s: string)
    requires At(text, p, s) && forall i :: 0 <= i < |s| ==> Inert(s[i])
    ensures CloseFrom(text, p, 1) == CloseFrom(text, p + |s|, 1)
    decreases |s|
  {
    if s != "" {
      assert s == [s[0]] + s[1..];
      AtHead(text, p, s[0], s[1..]);
      CloseSkipsInert(text, p + 1, s[1..]);
    }
  }

  lemma {:induction false} AnsiBodyQuoteFree(k: string)
    requires '\'' !in k
    ensures '\'' !in AnsiBody(k)
  {
    if k != "" { AnsiBodyQuoteFree(k[1..]); }
  }

  lemma {:induction false} QuoteFromIs(b: string, i: nat, q: nat)
    requires i <= q < |b| && b[q] == '\'' && forall j :: i <= j < q ==> b[j] != '\''
    ensures QuoteFrom(b, i) == q
    decreases q - i
  {
    if i < q { QuoteFromIs(b, i + 1, q); }
  }

  /** Keys the scanners step over whole: a key with both control bytes and quotes is not among them. */
  predicate Printable(k: string) {
    HasControl(k) ==> '\'' !in k
  }

  lemma ClosePastAnsi(text: string, p: nat, body: string)
    requires '\'' !in body && At(text, p, "$'" + body + "'")
    ensures CloseFrom(text, p, 1) == CloseFrom(text, p + |body| + 3, 1)
  {
    assert "$'" + body + "'" == ['$'] + (['\''] + (body + "'"));
    AtHead(text, p, '$', ['\''] + (body + "'"));
    AtHead(text, p + 1, '\'', body + "'");
    AtSplit(text, p + 2, body, "'");
    var q := p + 2 + |body|;
    assert text[q] == '\'' by { assert text[q..q + 1][0] == text[q]; }
    forall j | p + 2 <= j < q ensures text[j] != '\'' {
      assert text[j] == text[p + 2..q][j - (p + 2)] == body[j - (p + 2)];
    }
    QuoteFromIs(text, p + 2, q);
  }

  function AnsiQuoted(k: string): string { "$'" + AnsiBody(k) + "'" }

  function DoubleQuoted(k: string): string { "\"" + EscapeDouble(k) + "\"" }

  /** The three ways a key is printed. */
  lemma KeyForm(k: string)
    ensures HasControl(k) ==> AssocKeyQuote(k) == AnsiQuoted(k)
    ensures !HasControl(k) && AllSafe(k, KeySafe) ==> AssocKeyQuote(k) == k
    ensures !HasControl(k) && !AllSafe(k, KeySafe) ==> AssocKeyQuote(k) == DoubleQuoted(k)
  {
    if HasControl(k) { ControlIsLost(k); }
  }

  lemma CloseHere(text: string, e: nat)
    requires e < |text| && text[e] == ']'
    ensures CloseFrom(text, e, 1) == Some(e)
  {}

  lemma ClosePastDouble(text: string, p: nat, v: string)
    requires At(text, p, DoubleQuoted(v))
    ensures CloseFrom(text, p, 1) == CloseFrom(text, p + |DoubleQuoted(v)|, 1)
  {
    assert DoubleQuoted(v) == ['"'] + (EscapeDouble(v) + "\"");
    AtHead(text, p, '"', EscapeDouble(v) + "\"");
    DoubleSkips(text, p + 1, v);
  }

  lemma ClosesBehind(text: string, p: nat, q: string)
    requires At(text, p, q + "]")
    ensures At(text, p, q) && CloseFrom(text, p + |q|, 1) == Some(p + |q|)
  {
    AtSplit(text, p, q, "]");
    AtHead(text, p + |q|, ']', "");
    CloseHere(text, p + |q|);
  }

  lemma DoubleCloses(text: string, p: nat, k: string, q: string)
    requires At(text, p, q + "]") && q == DoubleQuoted(k)
    ensures CloseFrom(text, p, 1) == Some(p + |q|)
  {
    ClosesBehind(text, p, q);
    ClosePastDouble(text, p, k);
  }

  lemma PlainCloses(text: string, p: nat, k: string)
    requires At(text, p, k + "]") && AllSafe(k, KeySafe)
    ensures CloseFrom(text, p, 1) == Some(p + |k|)
  {
    ClosesBehind(text, p, k);
    CloseSkipsInert(text, p, k);
  }

  lemma AnsiCloses(text: string, p: nat, body: string, q: string)
    requires At(text, p, q + "]") && q == "$'" + body + "'" && '\'' !in body
    ensures CloseFrom(text, p, 1) == Some(p + |q|)
  {
    ClosesBehind(text, p, q);
    ClosePastAnsi(text, p, body);
  }

  // ----- keys with both control bytes and quotes

  /** From `i`, stepping over escapes, a scan comes to `e` and meets no bare quote on the way. */
  predicate Aligned(b: string, i: nat, e: nat)
    requires e <= |b|
    decreases e - i
  {
    i == e || (i < e && if b[i] == '\\' then Aligned(b, i + 2, e) else b[i] != '\'' && Aligned(b, i + 1, e))
  }

  /** A quote at `e`, a bracket, and perhaps `=`, up to `g`. */
  predicate Gap(b: string, e: nat, g: nat) {
    && (g == e + 2 || g == e + 3) && g <= |b| && b[e] == '\'' && b[e + 1] == ']' && (g == e + 3 ==> b[e + 2] == '=')
  }

  /** A scan in step with the escapes before `e`, or past the gap. */
  predicate InStep(b: string, i: nat, e: nat, g: nat)
    requires e <= |b|
  {
    Aligned(b, i, e) || i >= g
  }

  lemma SubstitutionAligned(b: string, i: nat, e: nat, g: nat)
    requires Gap(b, e, g) && Aligned(b, i, e) && SubstitutionAt(b, i)
    ensures Aligned(b, i + 2, e)
  {}

  lemma {:induction false} DoubleInStep(b: string, i: nat, e: nat, g: nat)
    requires Gap(b, e, g) && i <= |b| && InStep(b, i, e, g)
    ensures InStep(b, DoubleFrom(b, i), e, g)
    decreases |b| - i
  {
    if i < e {
      if b[i] == '\\' {
        DoubleInStep(b, i + 2, e, g);
      } else if b[i] != '"' {
        if SubstitutionAt(b, i) {
          SubstitutionAligned(b, i, e, g);
          BalancedInStep(b, i + 2, 1, e, g);
          DoubleInStep(b, BalancedFrom(b, i + 2, 1), e, g);
        } else {
          DoubleInStep(b, i + 1, e, g);
        }
      }
    } else if i == e {
      DoubleCrosses(b, e, g);
    }
  }

  /** From the quote, a scan for `"` goes on past the gap. */
  lemma DoubleCrosses(b: string, e: nat, g: nat)
    requires Gap(b, e, g)
    ensures DoubleFrom(b, e) >= g
  {
    assert DoubleFrom(b, e) == DoubleFrom(b, e + 1) == DoubleFrom(b, e + 2);
    if g == e + 3 { assert DoubleFrom(b, e + 2) == DoubleFrom(b, e + 3); }
  }

  lemma SingleCrosses(b: string, e: nat, g: nat)
    requires Gap(b, e, g)
    ensures AfterSingle(b, e) >= g
  {
    var q := QuoteFrom(b, e + 1);
    assert q != e + 1 && (g == e + 3 ==> q != e + 2);
  }

  lemma {:induction false} BalancedInStep(b: string, i: nat, depth: nat, e: nat, g: nat)
    requires Gap(b, e, g) && i <= |b| && InStep(b, i, e, g)
    ensures InStep(b, BalancedFrom(b, i, depth), e, g)
    decreases |b| - i
  {
    if i < e && depth > 0 {
      if b[i] == '"' {
        DoubleInStep(b, i + 1, e, g);
        BalancedInStep(b, DoubleFrom(b, i + 1), depth, e, g);
      } else if b[i] == '\\' {
        BalancedInStep(b, i + 2, depth, e, g);
      } else {
        BalancedInStep(b, i + 1, if b[i] == '(' then depth + 1 else if b[i] == ')' then depth - 1 else depth, e, g);
      }
    } else if i == e {
      SingleCrosses(b, e, g);
    }
  }

  /** Where the subscript scan goes from a character that is no bracket. */
  function Hop(b: string, i: nat): (j: nat)
    requires i < |b|
    ensures i < j <= |b|
  {
    if b[i] == '\'' then AfterSingle(b, i)
    else if b[i] == '"' then DoubleFrom(b, i + 1)
    else if b[i] == '\\' then AfterEscape(b, i)
    else if SubstitutionAt(b, i) then BalancedFrom(b, i + 2, 1)
    else i + 1
  }

  lemma CloseHops(b: string, i: nat, depth: nat)
    requires i < |b| && depth > 0 && b[i] != '[' && b[i] != ']'
    ensures CloseFrom(b, i, depth) == CloseFrom(b, Hop(b, i), depth)
  {}

  lemma HopInStep(b: string, i: nat, e: nat, g: nat)
    requires Gap(b, e, g) && i < |b| && Aligned(b, i, e)
    ensures InStep(b, Hop(b, i), e, g)
  {
    if i == e {
      SingleCrosses(b, e, g);
    } else if b[i] == '"' {
      DoubleInStep(b, i + 1, e, g);
    } else if SubstitutionAt(b, i) {
      SubstitutionAligned(b, i, e, g);
      BalancedInStep(b, i + 2, 1, e, g);
    }
  }

  /** A bracket that closes before `e` leaves the scan in step; one after it is past the gap. */
  lemma {:induction false} CloseInStep(b: string, i: nat, depth: nat, e: nat, g: nat)
    requires Gap(b, e, g) && i <= |b| && depth > 0 && InStep(b, i, e, g)
    ensures var c := CloseFrom(b, i, depth);
            c.Some? ==> InStep(b, c.value + 1, e, g) && c.value != e + 1
    decreases |b| - i
  {
    if i <= e {
      if b[i] == '[' {
        CloseInStep(b, i + 1, depth + 1, e, g);
      } else if b[i] == ']' {
        if depth > 1 { CloseInStep(b, i + 1, depth - 1, e, g); }
      } else {
        CloseHops(b, i, depth);
        HopInStep(b, i, e, g);
        CloseInStep(b, Hop(b, i), depth, e, g);
      }
    }
  }

  /** The operator scan never comes to the `=` behind the gap. */
  lemma {:induction false} OperatorMisses(b: string, i: nat, e: nat, g: nat)
    requires Gap(b, e, g) && g == e + 3 && i <= |b| && InStep(b, i, e, g)
    ensures var r := OperatorFrom(b, i); r.Some? ==> r.value.0 != e + 2
    decreases |b| - i
  {
    if i < e {
      if b[i] == '[' {
        CloseInStep(b, i + 1, 1, e, g);
        var c := CloseFrom(b, i + 1, 1);
        if c.Some? { OperatorMisses(b, c.value + 1, e, g); }
      } else if b[i] == '"' {
        DoubleInStep(b, i + 1, e, g);
        OperatorMisses(b, DoubleFrom(b, i + 1), e, g);
      } else if b[i] == '\\' {
        OperatorMisses(b, i + 2, e, g);
      } else if b[i] != '=' {
        OperatorMisses(b, i + 1, e, g);
      }
    } else if i == e {
      SingleCrosses(b, e, g);
    }
  }

  /** A plain character, or a backslash with what it escapes. */
  predicate IsUnit(a: string) {
    || (|a| == 1 && a[0] != '\\' && a[0] != '\'')
    || (|a| == 2 && a[0] == '\\')
    || (|a| == 4 && a[0] == '\\' && IsDigit(a[2]) && IsDigit(a[3]))
  }

  lemma ByteIsUnit(c: char)
    ensures IsUnit(AnsiByte(c))
  {
    if IsControl(c) { assert IsDigit(Octal(c)[1]) && IsDigit(Octal(c)[2]); }
  }

  lemma AlignedBack(b: string, i: nat, a: string, e: nat)
    requires At(b, i, a) && i + |a| <= e <= |b| && Aligned(b, i + |a|, e) && IsUnit(a)
    ensures Aligned(b, i, e)
  {
    assert b[i] == b[i..i + |a|][0];
    if |a| == 4 {
      assert b[i + 2] == b[i..i + |a|][2] && b[i + 3] == b[i..i + |a|][3];
      assert Aligned(b, i + 3, e);
      assert Aligned(b, i + 2, e);
    }
  }

  /** The first byte of a printed text and the rest. */
  lemma BodyCut(v: string) returns (a: string, rest: string)
    requires v != ""
    ensures AnsiBody(v) == a + rest && rest == AnsiBody(v[1..]) && IsUnit(a)
  {
    a, rest := AnsiByte(v[0]), AnsiBody(v[1..]);
    ByteIsUnit(v[0]);
  }

  lemma {:induction false} BodyAligned(b: string, i: nat, v: string)
    requires At(b, i, AnsiBody(v))
    ensures Aligned(b, i, i + |AnsiBody(v)|)
    decreases |v|
  {
    if v != "" {
      var a, rest := BodyCut(v);
      AtSplit(b, i, a, rest);
      BodyAligned(b, i + |a|, v[1..]);
      AlignedBack(b, i, a, i + |a| + |rest|);
    }
  }

  /** The first quote is an escaped one, and the scan goes on in step behind it; or it is the one at the end. */
  lemma {:induction false} FirstQuote(b: string, i: nat, e: nat)
    requires e < |b| && b[e] == '\'' && Aligned(b, i, e)
    ensures var q := QuoteFrom(b, i); q == e || (q < e && Aligned(b, q + 1, e))
    decreases e - i
  {
    if i < e {
      if b[i] != '\\' {
        FirstQuote(b, i + 1, e);
      } else if b[i + 1] != '\'' {
        FirstQuote(b, i + 2, e);
      }
    }
  }

  lemma {:induction false} QuoteInBody(v: string)
    requires '\'' in v
    ensures '\'' in AnsiBody(v)
  {
    if v[0] == '\'' {
      assert AnsiBody(v)[1] == '\'';
    } else {
      QuoteInBody(v[1..]);
    }
  }

  lemma QuoteInside(b: string, i: nat, body: string, e: nat)
    requires '\'' in body && At(b, i, body) && e == i + |body| < |b| && b[e] == '\'' && Aligned(b, i, e)
    ensures QuoteFrom(b, i) < e && Aligned(b, QuoteFrom(b, i) + 1, e)
  {
    FirstQuote(b, i, e);
    var j :| 0 <= j < |body| && body[j] == '\'';
    assert b[i + j] == b[i..e][j];
    QuoteFromFirst(b, i, i + j);
  }

  /** The single-quoted part of a printed key ends inside the key when the key holds a quote. */
  lemma QuoteEndsEarly(b: string, i: nat, v: string, e: nat)
    requires '\'' in v && At(b, i, AnsiBody(v) + "'") && e == i + |AnsiBody(v)|
    ensures e < |b| && b[e] == '\'' && QuoteFrom(b, i) < e && Aligned(b, QuoteFrom(b, i) + 1, e)
  {
    var body := AnsiBody(v);
    AtSplit(b, i, body, "'");
    AtHead(b, e, '\'', "");
    BodyAligned(b, i, v);
    QuoteInBody(v);
    QuoteInside(b, i, body, e);
  }

  lemma AnsiLayout(b: string, p: nat, body: string)
    requires At(b, p, "$'" + body + "'" + "]")
    ensures p + |body| + 3 < |b| && b[p] == '$' && b[p + 1] == '\''
            && At(b, p + 2, body + "'") && b[p + |body| + 3] == ']'
  {
    assert "$'" + body + "'" + "]" == ['$'] + (['\''] + ((body + "'") + "]"));
    AtHead(b, p, '$', ['\''] + ((body + "'") + "]"));
    AtHead(b, p + 1, '\'', (body + "'") + "]");
    AtSplit(b, p + 2, body + "'", "]");
    AtHead(b, p + |body| + 3, ']', "");
  }

  lemma CloseEnters(b: string, p: nat)
    requires p + 1 < |b| && b[p] == '$' && b[p + 1] == '\'' && QuoteFrom(b, p + 2) < |b|
    ensures CloseFrom(b, p, 1) == CloseFrom(b, QuoteFrom(b, p + 2) + 1, 1)
  {
    assert CloseFrom(b, p, 1) == CloseFrom(b, p + 1, 1);
  }

  /** A key with a control byte and a quote, printed: where its body ends, and the first quote in it. */
  lemma AnsiShape(b: string, p: nat, k: string, q: string) returns (e: nat)
    requires At(b, p, q + "]") && q == AnsiQuoted(k) && '\'' in k
    ensures e + 1 == p + |q| && Gap(b, e, e + 2) && p + 2 <= e && b[p] == '$' && b[p + 1] == '\''
    ensures QuoteFrom(b, p + 2) < e && Aligned(b, QuoteFrom(b, p + 2) + 1, e)
  {
    AnsiLayout(b, p, AnsiBody(k));
    e := p + 2 + |AnsiBody(k)|;
    QuoteEndsEarly(b, p + 2, k, e);
  }

  /** The scan goes on in step behind that quote. */
  lemma AnsiEnters(b: string, p: nat, k: string, q: string) returns (e: nat, i: nat)
    requires At(b, p, q + "]") && q == AnsiQuoted(k) && '\'' in k
    ensures e + 1 == p + |q| && Gap(b, e, e + 2)
    ensures i <= e && Aligned(b, i, e) && CloseFrom(b, p, 1) == CloseFrom(b, i, 1)
  {
    e := AnsiShape(b, p, k, q);
    i := QuoteFrom(b, p + 2) + 1;
    CloseEnters(b, p);
  }

  lemma AnsiMisses(b: string, p: nat, k: string, q: string)
    requires At(b, p, q + "]") && q == AnsiQuoted(k) && '\'' in k
    ensures CloseFrom(b, p, 1) != Some(p + |q|)
  {
    var e, i := AnsiEnters(b, p, k, q);
    CloseInStep(b, i, 1, e, e + 2);
  }

  /** The three forms `KeyForm` gives. */
  predicate IsKeyForm(k: string, q: string) {
    if HasControl(k) then q == AnsiQuoted(k) else if AllSafe(k, KeySafe) then q == k else q == DoubleQuoted(k)
  }

  lemma CloseOfForm(text: string, p: nat, k: string, q: string)
    requires At(text, p, q + "]") && IsKeyForm(k, q)
    ensures CloseFrom(text, p, 1) == Some(p + |q|) <==> Printable(k)
  {
    if HasControl(k) {
      if '\'' in k {
        AnsiMisses(text, p, k, q);
      } else {
        AnsiBodyQuoteFree(k);
        AnsiCloses(text, p, AnsiBody(k), q);
      }
    } else if AllSafe(k, KeySafe) {
      PlainCloses(text, p, k);
    } else {
      DoubleCloses(text, p, k, q);
    }
  }

  /** The scan stops at the bracket behind a printed key exactly when the key has no control byte or no quote. */
  lemma CloseOfKey(text: string, p: nat, k: string)
    requires At(text, p, AssocKeyQuote(k) + "]")
    ensures CloseFrom(text, p, 1) == Some(p + |AssocKeyQuote(k)|) <==> Printable(k)
  {
    KeyForm(k);
    CloseOfForm(text, p, k, AssocKeyQuote(k));
  }

  lemma {:induction false} OperatorSkipsName(text: string, p: nat, n: string)
    requires At(text, p, n) && forall i :: 0 <= i < |n| ==> IsNameChar(n[i])
    ensures OperatorFrom(text, p) == OperatorFrom(text, p + |n|)
    decreases |n|
  {
    if n != "" {
      assert n == [n[0]] + n[1..];
      AtHead(text, p, n[0], n[1..]);
      OperatorSkipsName(text, p + 1, n[1..]);
    }
  }

  function Bracketed(n: string, q: string): string {
    n + ("[" + (q + "]"))
  }

  function Reference(n: string, k: string): string {
    Bracketed(n, AssocKeyQuote(k))
  }

  function Element(n: string, k: string, v: string): string {
    Reference(n, k) + ("=" + ShellQuote(v))
  }

  lemma BracketedParts(text: string, n: string, q: string)
    requires At(text, 0, Bracketed(n, q))
    ensures At(text, 0, n) && |n| + |q| + 1 < |text| && text[|n|] == '[' && At(text, |n| + 1, q + "]")
    ensures text[|n| + |q| + 1] == ']'
  {
    AtSplit(text, 0, n, "[" + (q + "]"));
    AtHead(text, |n|, '[', q + "]");
    AtSplit(text, |n| + 1, q, "]");
    AtHead(text, |n| + 1 + |q|, ']', "");
  }

  /** A name, a subscript that closes at `m - 1`, and the operator at `m`. */
  lemma OperatorAfter(text: string, n: string, m: nat)
    requires At(text, 0, n) && forall i :: 0 <= i < |n| ==> IsNameChar(n[i])
    requires |n| + 1 < m < |text| && text[|n|] == '[' && CloseFrom(text, |n| + 1, 1) == Some((m - 1) as nat)
    requires text[m] == '='
    ensures OperatorFrom(text, 0) == Some((m, false))
  {
    OperatorSkipsName(text, 0, n);
  }

  /** What an element's text holds, by position. */
  lemma ElementLayout(text: string, n: string, q: string)
    requires At(text, 0, Bracketed(n, q) + "=")
    ensures |n| + |q| + 2 < |text| && At(text, 0, n) && text[|n|] == '[' && At(text, |n| + 1, q + "]")
    ensures text[|n| + |q| + 2] == '=' && |Bracketed(n, q)| == |n| + |q| + 2
  {
    AtSplit(text, 0, Bracketed(n, q), "=");
    AtHead(text, |n| + |q| + 2, '=', "");
    BracketedParts(text, n, q);
  }

  lemma OperatorAt(text: string, n: string)
    requires At(text, 0, n) && (forall i :: 0 <= i < |n| ==> IsNameChar(n[i])) && |n| < |text| && text[|n|] == '['
    ensures var c := CloseFrom(text, |n| + 1, 1);
            OperatorFrom(text, 0) == if c == None then None else OperatorFrom(text, c.value + 1)
  {
    OperatorSkipsName(text, 0, n);
  }

  lemma OperatorFound(text: string, n: string, q: string)
    requires IsValidName(n) && At(text, 0, Bracketed(n, q) + "=") && CloseFrom(text, |n| + 1, 1) == Some(|n| + 1 + |q|)
    ensures OperatorFrom(text, 0) == Some((|Bracketed(n, q)|, false))
  {
    ElementLayout(text, n, q);
    OperatorAfter(text, n, |n| + |q| + 2);
  }

  lemma OperatorPast(text: string, i: nat, e: nat)
    requires Gap(text, e, e + 3) && i <= e && Aligned(text, i, e)
    ensures var c := CloseFrom(text, i, 1);
            c.Some? ==> var r := OperatorFrom(text, c.value + 1);
                        r.Some? ==> r.value.0 != e + 2
  {
    CloseInStep(text, i, 1, e, e + 3);
    var c := CloseFrom(text, i, 1);
    if c.Some? { OperatorMisses(text, c.value + 1, e, e + 3); }
  }

  /** The `=` behind the gap is not the one found. */
  lemma OperatorStaysLost(text: string, n: string, i: nat, e: nat)
    requires At(text, 0, n) && (forall j :: 0 <= j < |n| ==> IsNameChar(n[j])) && |n| < |text| && text[|n|] == '['
    requires Gap(text, e, e + 3) && i <= e && Aligned(text, i, e)
             && CloseFrom(text, |n| + 1, 1) == CloseFrom(text, i, 1)
    ensures OperatorFrom(text, 0) != Some((e + 2, false))
  {
    OperatorAt(text, n);
    OperatorPast(text, i, e);
  }

  /** The `=` behind the key is never found when the key holds a control byte and a quote. */
  lemma OperatorLost(text: string, n: string, k: string, q: string)
    requires IsValidName(n) && At(text, 0, Bracketed(n, q) + "=") && q == AnsiQuoted(k) && '\'' in k
    ensures OperatorFrom(text, 0) != Some((|Bracketed(n, q)|, false))
  {
    ElementLayout(text, n, q);
    var e, i := AnsiEnters(text, |n| + 1, k, q);
    OperatorStaysLost(text, n, i, e);
  }

  lemma OperatorOfElement(text: string, n: string, k: string)
    requires IsValidName(n) && At(text, 0, Reference(n, k) + "=")
    ensures OperatorFrom(text, 0) == Some((|Reference(n, k)|, false)) <==> Printable(k)
  {
    var q := AssocKeyQuote(k);
    if Printable(k) {
      ElementLayout(text, n, q);
      CloseOfKey(text, |n| + 1, k);
      OperatorFound(text, n, q);
    } else {
      KeyForm(k);
      OperatorLost(text, n, k, AnsiQuoted(k));
    }
  }

  lemma ElementSplits(n: string, k: string, v: string)
    requires IsValidName(n)
    ensures SplitAssignmentOp(Element(n, k, v)) == Some((Reference(n, k), ShellQuote(v), false)) <==> Printable(k)
  {
    var r := Reference(n, k);
    Halves(r, ShellQuote(v));
    OperatorOfElement(Element(n, k, v), n, k);
    SplitIs(r, ShellQuote(v));
  }

  lemma SplitIs(r: string, q: string)
    ensures var text := r + ("=" + q);
            SplitAssignmentOp(text) == Some((r, q, false)) <==> OperatorFrom(text, 0) == Some((|r|, false))
  {
    var text := r + ("=" + q);
    Halves(r, q);
    var op := OperatorFrom(text, 0);
    if op.Some? && !op.value.1 { assert |text[..op.value.0]| == op.value.0; }
  }

  lemma Halves(r: string, q: string)
    ensures var text := r + ("=" + q);
            At(text, 0, r + "=") && text[..|r|] == r && text[|r| + 1..] == q
  {
    var text := r + ("=" + q);
    assert text[0..|r| + 1] == r + "=";
  }

  predicate StartsPlain(q: string) { q != "" ==> q[0] != '[' && q[0] != ']' }

  lemma KeyStart(k: string)
    ensures StartsPlain(AssocKeyQuote(k))
  {
    if HasControl(k) { ControlIsLost(k); }
  }

  lemma ReferenceAt(r: string, m: nat, q: string, ok: bool)
    requires m < |r| && FindOpen(r, 0) == m && IsValidName(r[..m]) && StartsPlain(q)
    requires |r| == m + |q| + 2 && r[m + 1..m + 1 + |q|] == q
    requires CloseFrom(r, m + 1, 1) == Some(m + 1 + |q|) <==> ok
    ensures ArrayReference(r) == Some((r[..m], q)) <==> ok
  {}

  /** A bracketed text, by position. */
  lemma BracketedLayout(n: string, q: string)
    requires IsValidName(n)
    ensures var r := Bracketed(n, q);
            && |r| == |n| + |q| + 2 && r[..|n|] == n && r[|n| + 1..|n| + 1 + |q|] == q
            && At(r, |n| + 1, q + "]") && FindOpen(r, 0) == |n|
  {
    var r := Bracketed(n, q);
    assert At(r, 0, r);
    BracketedParts(r, n, q);
    assert forall i :: 0 <= i < |n| ==> r[i] == n[i];
    FindOpenIs(r, |n|);
  }

  /** Wherever `q` and a bracket stand, the scan from `q` on stops at that bracket, or does not, as `ok` says. */
  ghost predicate ClosesAlways(q: string, ok: bool) {
    forall text: string, p: nat {:trigger At(text, p, q + "]")} ::
      At(text, p, q + "]") ==> (CloseFrom(text, p, 1) == Some(p + |q|) <==> ok)
  }

  lemma KeyClosesAlways(k: string)
    ensures ClosesAlways(AssocKeyQuote(k), Printable(k))
  {
    forall text: string, p: nat | At(text, p, AssocKeyQuote(k) + "]")
      ensures CloseFrom(text, p, 1) == Some(p + |AssocKeyQuote(k)|) <==> Printable(k)
    {
      CloseOfKey(text, p, k);
    }
  }

  lemma ReferenceReads(r: string, n: string, q: string, ok: bool)
    requires IsValidName(n) && |r| == |n| + |q| + 2 && r[..|n|] == n && r[|n| + 1..|n| + 1 + |q|] == q
    requires At(r, |n| + 1, q + "]") && FindOpen(r, 0) == |n| && StartsPlain(q) && ClosesAlways(q, ok)
    ensures ArrayReference(r) == Some((n, q)) <==> ok
  {
    ReferenceAt(r, |n|, q, ok);
  }

  lemma BracketedReads(n: string, q: string, ok: bool)
    requires IsValidName(n) && StartsPlain(q) && ClosesAlways(q, ok)
    ensures ArrayReference(Bracketed(n, q)) == Some((n, q)) <==> ok
  {
    BracketedLayout(n, q);
    ReferenceReads(Bracketed(n, q), n, q, ok);
  }

  lemma ReferenceSplits(n: string, k: string)
    requires IsValidName(n)
    ensures ArrayReference(Reference(n, k)) == Some((n, AssocKeyQuote(k))) <==> Printable(k)
  {
    KeyStart(k);
    KeyClosesAlways(k);
    BracketedReads(n, AssocKeyQuote(k), Printable(k));
  }

  lemma FindOpenIs(s: string, i: nat)
    requires i < |s| && s[i] == '[' && forall j :: 0 <= j < i ==> IsNameChar(s[j])
    ensures FindOpen(s, 0) == i
  {
    var r := FindOpen(s, 0);
    assert r < i ==> IsNameChar(s[r]);
  }

  /**
   A printed element is read back as it was: the split falls on the intended `=` and the left side names the variable
   and the printed key exactly when the key does not hold both a control byte and a quote; removing quotes recovers the
   key and the value exactly when they hold no control bytes.
   */
  lemma PrintedElementReads(n: string, k: string, v: string)
    requires IsValidName(n)
    ensures SplitAssignmentOp(Element(n, k, v)) == Some((Reference(n, k), ShellQuote(v), false)) <==> Printable(k)
    ensures ArrayReference(Reference(n, k)) == Some((n, AssocKeyQuote(k))) <==> Printable(k)
    ensures Dequote(AssocKeyQuote(k)) == k <==> !HasControl(k)
    ensures Dequote(ShellQuote(v)) == v <==> !HasControl(v)
  {
    ElementSplits(n, k, v);
    ReferenceSplits(n, k);
    KeyExact(k);
    ShellExact(v);
  }

  /** A newline and a quote in the key: neither scan finds the intended bracket. */
  lemma UnprintableKey()
    ensures SplitAssignmentOp(Element("a", "\n'", "")) != Some((Reference("a", "\n'"), ShellQuote(""), false))
    ensures ArrayReference(Reference("a", "\n'")) != Some(("a", AssocKeyQuote("\n'")))
  {
    var k := "\n'";
    assert IsControl(k[0]) && k[1] == '\'';
    PrintedElementReads("a", k, "");
  }
}

/** Conversion specifications of a printf format: the parser, and the grammar it reads. */
module PrintfFormat {
  import opened Ascii
  import opened Option
  import opened PrintfEscape
  import opened Sequences

  const MAX_WIDTH: nat := 1_000_000
  const I32_MAX: nat := 0x7fff_ffff

  datatype Size = Absent | Number(value: nat) | Star

  datatype Spec = Spec(
    left: bool, plus: bool, space: bool, zero: bool, alternate: bool,
    width: Size, precision: Size, overflow: bool, conv: char, time: Option<string>)

  datatype Parsed =
    | Good(spec: Spec, next: nat)
    | Missing(raw: string)
    | Invalid(ch: char, next: nat)
    | InvalidTime(ch: char, raw: string, next: nat)

  predicate IsFlag(c: char) { c == '-' || c == '+' || c == ' ' || c == '0' || c == '#' }

  predicate IsLength(c: char) { c == 'h' || c == 'j' || c == 'l' || c == 'L' || c == 't' || c == 'z' }

  predicate IsConversion(c: char) {
    || c == 'd' || c == 'i' || c == 'o' || c == 'u' || c == 'x' || c == 'X'
    || c == 's' || c == 'S' || c == 'c' || c == 'C'
    || c == 'e' || c == 'E' || c == 'f' || c == 'F' || c == 'g' || c == 'G' || c == 'b' || c == 'q' || c == 'Q'
    || c == 'n' || c == 'T'
  }

  /** The first position from `i` on that is the end or fails `ok`. */
  function Skip(s: string, i: nat, ok: char -> bool): (j: nat)
    requires i <= |s|
    ensures i <= j <= |s|
    decreases |s| - i
  {
    if i < |s| && ok(s[i]) then Skip(s, i + 1, ok) else i
  }

  predicate All(s: string, ok: char -> bool) {
    forall k :: 0 <= k < |s| ==> ok(s[k])
  }

  /** `Skip` is the only place with that description. */
  lemma {:induction false} SkipIs(s: string, i: nat, j: nat, ok: char -> bool)
    requires i <= j <= |s|
    ensures Skip(s, i, ok) == j <==> All(s[i..j], ok) && (j < |s| ==> !ok(s[j]))
    decreases |s| - i
  {
    if i < |s| && ok(s[i]) {
      SkipIs(s, i + 1, if j == i then j + 1 else j, ok);
      if i < j {
        var t := s[i..j];
        assert t[1..] == s[i + 1..j] && t[0] == s[i] && t == [s[i]] + t[1..];
      }
    } else if i < j {
      assert s[i..j][0] == s[i];
    }
  }

  function Clamp(n: nat): nat { if n < MAX_WIDTH then n else MAX_WIDTH }

  /** A closing parenthesis with a letter after it. */
  predicate Ends(s: string, k: nat) {
    k + 1 < |s| && s[k] == ')' && IsAlpha(s[k + 1])
  }

  /** The position of the parenthesis that ends a time format: the first one before a letter. */
  function TimeEnd(s: string, j: nat): (e: nat)
    ensures e + 1 < |s| ==> j <= e && Ends(s, e)
    decreases |s| - j
  {
    if j + 1 >= |s| || Ends(s, j) then j else TimeEnd(s, j + 1)
  }

  datatype Piece = Piece(size: Size, overflow: bool, next: nat)

  function WidthAt(s: string, i: nat): (p: Piece)
    requires i <= |s|
    ensures i <= p.next <= |s|
  {
    var j := Skip(s, i, IsDigit);
    if i < |s| && s[i] == '*' then Piece(Star, false, i + 1)
    else Piece(if j == i then Absent else Number(Clamp(ValueOf(s[i..j], 10))), false, j)
  }

  function PrecisionAt(s: string, i: nat): (p: Piece)
    requires i <= |s|
    ensures i <= p.next <= |s|
  {
    if i == |s| || s[i] != '.' then Piece(Absent, false, i)
    else if i + 1 < |s| && s[i + 1] == '*' then Piece(Star, false, i + 2)
    else
      var j := Skip(s, i + 1, IsDigit);
      Piece(Number(Clamp(ValueOf(s[i + 1..j], 10))), ValueOf(s[i + 1..j], 10) > I32_MAX, j)
  }

  /** The last part: a time format in parentheses, or a conversion letter. */
  function TailAt(s: string, start: nat, i: nat, spec: Spec): (r: Parsed)
    requires 1 <= start <= i <= |s|
    ensures !r.Missing? ==> i < r.next <= |s|
  {
    if i == |s| then Missing(s[start - 1..])
    else if s[i] == '(' then
      var e := TimeEnd(s, i + 1);
      if e + 1 >= |s| then Missing(s[start - 1..])
      else if s[e + 1] == 'T' then Good(spec.(conv := 'T', time := Some(s[i + 1..e])), e + 2)
      else InvalidTime(s[e + 1], s[start - 1..e + 2], e + 2)
    else if IsConversion(s[i]) then Good(spec.(conv := s[i]), i + 1)
    else Invalid(s[i], i + 1)
  }

  function FlagsSpec(flags: string): Spec {
    Spec('-' in flags, '+' in flags, ' ' in flags, '0' in flags, '#' in flags, Absent, Absent, false, '\0', None)
  }

  /** Everything before the last part. */
  function HeadAt(s: string, start: nat): (r: (Spec, nat))
    requires start <= |s|
    ensures start <= r.1 <= |s|
  {
    var f := Skip(s, start, IsFlag);
    var w := WidthAt(s, f);
    var p := PrecisionAt(s, w.next);
    (FlagsSpec(s[start..f]).(width := w.size, precision := p.size, overflow := p.overflow),
     Skip(s, Skip(s, p.next, IsDigit), IsLength))
  }

  /** What follows a percent sign at `start - 1`: it always ends after `start` and inside the format. */
  function ParseAt(s: string, start: nat): (r: Parsed)
    requires 1 <= start <= |s|
    ensures !r.Missing? ==> start < r.next <= |s|
  {
    TailAt(s, start, HeadAt(s, start).1, HeadAt(s, start).0)
  }

  // ---- The loops

  method ParseFlags(bytes: string, start: nat) returns (spec: Spec, i: nat)
    requires start <= |bytes|
    ensures i == Skip(bytes, start, IsFlag) && spec == FlagsSpec(bytes[start..i])
  {
    i := start;
    spec := FlagsSpec("");
    while i < |bytes|
      invariant start <= i <= |bytes|
      invariant Skip(bytes, start, IsFlag) == Skip(bytes, i, IsFlag)
      invariant spec == FlagsSpec(bytes[start..i])
      decreases |bytes| - i
    {
      assert bytes[start..i + 1] == bytes[start..i] + [bytes[i]];
      match bytes[i] {
        case '-' => spec := spec.(left := true);
        case '+' => spec := spec.(plus := true);
        case ' ' => spec := spec.(space := true);
        case '0' => spec := spec.(zero := true);
        case '#' => spec := spec.(alternate := true);
        case _ => break;
      }
      i := i + 1;
    }
  }

  /** The saturating sum never differs from clamping the true number once. */
  method ParseNumber(bytes: string, start: nat) returns (value: nat, overflow: bool, i: nat)
    requires start <= |bytes|
    ensures i == Skip(bytes, start, IsDigit)
    ensures value == Clamp(ValueOf(bytes[start..i], 10)) && overflow == (ValueOf(bytes[start..i], 10) > I32_MAX)
  {
    i, value, overflow := start, 0, false;
    var raw := 0;
    while i < |bytes| && IsDigit(bytes[i])
      invariant start <= i <= |bytes|
      invariant Skip(bytes, start, IsDigit) == Skip(bytes, i, IsDigit)
      invariant value == Clamp(ValueOf(bytes[start..i], 10))
      invariant raw == Saturate(ValueOf(bytes[start..i], 10)) && overflow == (ValueOf(bytes[start..i], 10) > I32_MAX)
    {
      ValueSnoc(bytes, start, i, 10);
      var digit := bytes[i] as int - '0' as int;
      raw := Saturate(Saturate(raw * 10) + digit);
      if raw > I32_MAX { overflow := true; }
      value := Clamp(value * 10 + digit);
      i := i + 1;
    }
  }

  /** Saturation at the top of an unsigned 128-bit number. */
  function Saturate(n: nat): nat {
    if n < 0x1_0000_0000_0000_0000_0000_0000_0000_0000 then n else 0xffff_ffff_ffff_ffff_ffff_ffff_ffff_ffff
  }

  method SkipRun(bytes: string, start: nat, ok: char -> bool) returns (i: nat)
    requires start <= |bytes|
    ensures i == Skip(bytes, start, ok)
  {
    i := start;
    while i < |bytes| && ok(bytes[i])
      invariant start <= i <= |bytes| && Skip(bytes, start, ok) == Skip(bytes, i, ok)
    {
      i := i + 1;
    }
  }

  method ParseTime(bytes: string, start: nat, i: nat, spec: Spec) returns (r: Parsed)
    requires 1 <= start <= i < |bytes| && bytes[i] == '('
    ensures r == TailAt(bytes, start, i, spec)
  {
    var j := i + 1;
    while j + 1 < |bytes|
      invariant i < j <= |bytes| && TimeEnd(bytes, i + 1) == TimeEnd(bytes, j)
    {
      if bytes[j] == ')' {
        var trailer := bytes[j + 1];
        if trailer == 'T' {
          return Good(spec.(conv := 'T', time := Some(bytes[i + 1..j])), j + 2);
        }
        if IsAlpha(trailer) {
          return InvalidTime(trailer, bytes[start - 1..j + 2], j + 2);
        }
      }
      j := j + 1;
    }
    r := Missing(bytes[start - 1..]);
  }

  method ParseWidth(bytes: string, start: nat, spec: Spec) returns (res: Spec, i: nat)
    requires start <= |bytes| && spec.width == Absent
    ensures i == WidthAt(bytes, start).next && res == spec.(width := WidthAt(bytes, start).size)
  {
    res := spec;
    if start < |bytes| && bytes[start] == '*' {
      res, i := res.(width := Star), start + 1;
    } else {
      var width, _, j := ParseNumber(bytes, start);
      if j > start { res := res.(width := Number(width)); }
      i := j;
    }
  }

  method ParsePrecision(bytes: string, start: nat, spec: Spec) returns (res: Spec, i: nat)
    requires start <= |bytes| && spec.precision == Absent && !spec.overflow
    ensures var p := PrecisionAt(bytes, start);
            i == p.next && res == spec.(precision := p.size, overflow := p.overflow)
  {
    res, i := spec, start;
    if i < |bytes| && bytes[i] == '.' {
      i := i + 1;
      if i < |bytes| && bytes[i] == '*' {
        res, i := res.(precision := Star), i + 1;
      } else {
        var precision, overflow, j := ParseNumber(bytes, i);
        res, i := res.(precision := Number(precision), overflow := overflow), j;
      }
    }
  }

  method ParseConversion(bytes: string, start: nat) returns (r: Parsed)
    requires 1 <= start <= |bytes|
    ensures r == ParseAt(bytes, start)
  {
    var spec, i := ParseFlags(bytes, start);
    spec, i := ParseWidth(bytes, i, spec);
    spec, i := ParsePrecision(bytes, i, spec);
    i := SkipRun(bytes, i, IsDigit);
    i := SkipRun(bytes, i, IsLength);
    assert HeadAt(bytes, start) == (spec, i);
    if i < |bytes| && bytes[i] == '(' {
      r := ParseTime(bytes, start, i, spec);
    } else if i == |bytes| {
      r := Missing(bytes[start - 1..]);
    } else if IsConversion(bytes[i]) {
      r := Good(spec.(conv := bytes[i]), i + 1);
    } else {
      r := Invalid(bytes[i], i + 1);
    }
  }

  // ---- The grammar

  /** One conversion specification, piece by piece, without its percent sign. */
  datatype Directive = Directive(
    flags: string, width: string, precision: Option<string>, digits: string, lengths: string, tail: Tail)

  datatype Tail = Letter(conv: char) | Time(format: string)

  function TailText(t: Tail): (s: string)
    ensures s != ""
  {
    if t.Letter? then [t.conv] else "(" + t.format + ")T"
  }

  /** No parenthesis inside a time format stands before a letter. */
  ghost predicate TailOk(t: Tail) {
    match t
    case Letter(c) => IsConversion(c)
    case Time(f) => forall k :: 0 <= k < |f| ==> !Ends(f + ")T", k)
  }

  function PrecisionText(p: Option<string>): string { if p.None? then "" else "." + p.value }

  function TextOf(d: Directive): string {
    d.flags + (d.width + (PrecisionText(d.precision) + (d.digits + (d.lengths + TailText(d.tail)))))
  }

  ghost predicate IsNumber(s: string) { s == "*" || All(s, IsDigit) }

  /** Ignored digits can only follow a star: anywhere else they belong to a number or to the flags. */
  ghost predicate WellFormed(d: Directive) {
    && All(d.flags, IsFlag)
    && IsNumber(d.width) && (d.width != "" ==> d.width[0] != '0')
    && (d.precision.Some? ==> IsNumber(d.precision.value))
    && All(d.digits, IsDigit)
    && (d.digits != "" ==> (if d.precision.Some? then d.precision.value else d.width) == "*")
    && All(d.lengths, IsLength)
    && TailOk(d.tail)
  }

  function SizeOf(s: string): Size {
    if s == "*" then Star else Number(Clamp(ValueOf(s, 10)))
  }

  function SpecOf(d: Directive): Spec {
    FlagsSpec(d.flags).(
      width := if d.width == "" then Absent else SizeOf(d.width),
      precision := if d.precision.None? then Absent else SizeOf(d.precision.value),
      overflow := d.precision.Some? && ValueOf(d.precision.value, 10) > I32_MAX,
      conv := if d.tail.Letter? then d.tail.conv else 'T',
      time := if d.tail.Letter? then None else Some(d.tail.format))
  }

  lemma WidthPiece(s: string, i: nat, j: nat)
    requires i <= j < |s| && IsNumber(s[i..j]) && (s[i..j] != "*" ==> !IsDigit(s[j])) && s[j] != '*'
    ensures WidthAt(s, i) == Piece(if i == j then Absent else SizeOf(s[i..j]), false, j)
  {
    var a := s[i..j];
    assert a != "" ==> a[0] == s[i];
    if a != "*" {
      SkipIs(s, i, j, IsDigit);
      assert a != "" ==> IsDigit(a[0]);
    }
  }

  lemma PrecisionPiece(s: string, i: nat, j: nat)
    requires i < j < |s| && s[i] == '.' && s[j] != '*'
    requires IsNumber(s[i + 1..j]) && (s[i + 1..j] != "*" ==> !IsDigit(s[j]))
    ensures PrecisionAt(s, i) == Piece(SizeOf(s[i + 1..j]), ValueOf(s[i + 1..j], 10) > I32_MAX, j)
  {
    var a := s[i + 1..j];
    assert a != "" ==> a[0] == s[i + 1];
    if a == "*" {
      assert ValueOf(a, 10) == DigitOf('*') by { assert a[..0] == ""; }
    } else {
      SkipIs(s, i + 1, j, IsDigit);
      assert a != "" ==> IsDigit(a[0]);
    }
  }

  lemma {:induction false} TimeEndIs(s: string, j: nat, e: nat)
    requires j <= e && Ends(s, e)
    requires forall k :: j <= k < e ==> !Ends(s, k)
    ensures TimeEnd(s, j) == e
    decreases e - j
  {
    if j < e {
      TimeEndIs(s, j + 1, e);
    }
  }

  lemma {:induction false} TimeEndFirst(s: string, j: nat, k: nat)
    requires j <= k < TimeEnd(s, j)
    ensures !Ends(s, k)
    decreases k - j
  {
    if j < k { TimeEndFirst(s, j + 1, k); }
  }

  lemma TailPiece(s: string, start: nat, i: nat, t: Tail, spec: Spec)
    requires 1 <= start <= i && At(s, i, TailText(t)) && spec.time == None
    requires TailOk(t)
    ensures TailAt(s, start, i, spec)
         == Good(spec.(conv := if t.Letter? then t.conv else 'T', time := if t.Letter? then None else Some(t.format)),
                 i + |TailText(t)|)
  {
    match t
    case Letter(c) => assert s[i] == TailText(t)[0];
    case Time(f) => TimeTailReads(s, start, i, f, spec);
  }

  lemma TimeTailAt(s: string, start: nat, i: nat, e: nat, spec: Spec)
    requires 1 <= start <= i && i + 1 <= e && e + 1 < |s| && s[i] == '(' && TimeEnd(s, i + 1) == e && s[e + 1] == 'T'
    ensures TailAt(s, start, i, spec) == Good(spec.(conv := 'T', time := Some(s[i + 1..e])), e + 2)
  {}

  /** A time specification's text, by position. */
  lemma TimeParts(s: string, i: nat, f: string)
    requires At(s, i, TailText(Time(f)))
    ensures i < |s| && s[i] == '(' && At(s, i + 1, f + ")T") && |TailText(Time(f))| == |f| + 3
  {
    assert TailText(Time(f)) == ['('] + (f + ")T");
    AtHead(s, i, '(', f + ")T");
  }

  lemma TimeTailReads(s: string, start: nat, i: nat, f: string, spec: Spec)
    requires 1 <= start <= i && At(s, i, TailText(Time(f))) && TailOk(Time(f))
    ensures TailAt(s, start, i, spec) == Good(spec.(conv := 'T', time := Some(f)), i + |TailText(Time(f))|)
  {
    TimeParts(s, i, f);
    TimePiece(s, i + 1, f);
    TimeTailAt(s, start, i, i + 1 + |f|, spec);
  }

  lemma TimePiece(s: string, j: nat, f: string)
    requires At(s, j, f + ")T") && TailOk(Time(f))
    ensures TimeEnd(s, j) == j + |f| && s[j..j + |f|] == f && s[j + |f| + 1] == 'T'
  {
    AtSplit(s, j, f, ")T");
    var t := f + ")T";
    assert s[j + |f|] == t[|f|] && s[j + |f| + 1] == t[|f| + 1];
    forall k | j <= k < j + |f| ensures !Ends(s, k) {
      assert s[k] == t[k - j] && s[k + 1] == t[k + 1 - j];
      assert !Ends(t, k - j);
    }
    TimeEndIs(s, j, j + |f|);
  }

  function HeadSpec(d: Directive): Spec { SpecOf(d).(conv := '\0', time := None) }

  /** The pieces of a specification stand one after the other. */
  ghost predicate Laid(s: string, f: nat, w: nat, p: nat, g: nat, m: nat, d: Directive) {
    && f <= w <= p <= g <= m < |s|
    && s[f..w] == d.width && s[w..p] == PrecisionText(d.precision) && s[p..g] == d.digits && s[g..m] == d.lengths
    && s[m] == TailText(d.tail)[0]
  }

  lemma AtSplit3(s: string, i: nat, a: string, b: string, c: string)
    requires At(s, i, a + (b + c))
    ensures At(s, i, a) && At(s, i + |a|, b) && At(s, i + |a| + |b|, c)
  {
    AtSplit(s, i, a, b + c);
    AtSplit(s, i + |a|, b, c);
  }

  lemma AtSplit6(s: string, i: nat, a: string, b: string, c: string, d: string, e: string, t: string)
    requires At(s, i, a + (b + (c + (d + (e + t)))))
    ensures At(s, i, a) && At(s, i + |a|, b) && At(s, i + |a| + |b|, c)
    ensures var j := i + |a| + |b| + |c|; At(s, j, d) && At(s, j + |d|, e) && At(s, j + |d| + |e|, t)
  {
    assert At(s, i, a) && At(s, i + |a|, b) && At(s, i + |a| + |b|, c + (d + (e + t))) by {
      AtSplit3(s, i, a, b, c + (d + (e + t)));
    }
    assert At(s, i + |a| + |b|, c) && At(s, i + |a| + |b| + |c|, d + (e + t)) by {
      AtSplit(s, i + |a| + |b|, c, d + (e + t));
    }
    AtSplit3(s, i + |a| + |b| + |c|, d, e, t);
  }

  lemma LaidAt(s: string, start: nat, d: Directive)
    requires At(s, start, TextOf(d))
    ensures var f := start + |d.flags|;
            var w := f + |d.width|;
            var p := w + |PrecisionText(d.precision)|;
            var g := p + |d.digits|;
            var m := g + |d.lengths|;
            && Laid(s, f, w, p, g, m, d)
            && s[start..f] == d.flags && At(s, m, TailText(d.tail)) && m + |TailText(d.tail)| == start + |TextOf(d)|
  {
    AtSplit6(s, start, d.flags, d.width, PrecisionText(d.precision), d.digits, d.lengths, TailText(d.tail));
  }

  lemma LaidOut(s: string, start: nat, d: Directive) returns (f: nat, w: nat, p: nat, g: nat, m: nat)
    requires At(s, start, TextOf(d))
    ensures start <= f && Laid(s, f, w, p, g, m, d)
    ensures s[start..f] == d.flags && At(s, m, TailText(d.tail)) && m + |TailText(d.tail)| == start + |TextOf(d)|
  {
    LaidAt(s, start, d);
    f := start + |d.flags|;
    w := f + |d.width|;
    p := w + |PrecisionText(d.precision)|;
    g := p + |d.digits|;
    m := g + |d.lengths|;
  }

  lemma FirstOf(s: string, a: nat, b: nat, piece: string)
    requires a <= b < |s| && s[a..b] == piece
    ensures s[a] == if piece == "" then s[b] else piece[0]
  {}

  lemma DotFirst(s: string, w: nat, p: nat, precision: Option<string>)
    requires w <= p < |s| && s[w..p] == PrecisionText(precision)
    ensures precision.None? ==> w == p
    ensures precision.Some? ==> w < p && s[w] == '.' && s[w + 1..p] == precision.value
  {
    if precision.Some? {
      FirstOf(s, w, p, PrecisionText(precision));
      assert s[w + 1..p] == s[w..p][1..] && PrecisionText(precision)[1..] == precision.value;
    }
  }

  /** A character that can follow the lengths, and one that can follow the digits. */
  predicate EndsLengths(c: char) { c == '(' || IsConversion(c) }

  predicate EndsDigits(c: char) { EndsLengths(c) || IsLength(c) }

  lemma EndersApart(c: char)
    ensures EndsLengths(c) ==> !IsLength(c)
    ensures EndsDigits(c) ==> !IsDigit(c) && !IsFlag(c) && c != '.' && c != '*'
    ensures IsDigit(c) ==> c != '.' && c != '*' && (IsFlag(c) ==> c == '0')
  {}

  lemma LengthsEnd(s: string, g: nat, m: nat, lengths: string, t: Tail)
    requires g <= m < |s| && s[g..m] == lengths && s[m] == TailText(t)[0] && All(lengths, IsLength) && TailOk(t)
    ensures EndsLengths(s[m]) && EndsDigits(s[g])
  {
    FirstOf(s, g, m, lengths);
  }

  lemma DigitsEnd(s: string, p: nat, g: nat, digits: string)
    requires p <= g < |s| && s[p..g] == digits && All(digits, IsDigit) && EndsDigits(s[g])
    ensures if digits == "" then EndsDigits(s[p]) else IsDigit(s[p])
  {
    FirstOf(s, p, g, digits);
  }

  lemma WidthEnds(s: string, f: nat, w: nat, width: string)
    requires f <= w < |s| && s[f..w] == width && IsNumber(width) && (width != "" ==> width[0] != '0')
    requires width == "" ==> !IsFlag(s[w])
    ensures !IsFlag(s[f])
  {
    FirstOf(s, f, w, width);
    EndersApart(s[f]);
  }

  /** Each piece stops where the next begins. */
  lemma Boundaries(s: string, f: nat, w: nat, p: nat, g: nat, m: nat, d: Directive)
    requires WellFormed(d) && Laid(s, f, w, p, g, m, d)
    ensures !IsLength(s[m]) && !IsDigit(s[g])
    ensures s[p] != '.' && s[p] != '*' && (d.precision.Some? && d.precision.value != "*" ==> !IsDigit(s[p]))
    ensures s[w] != '*' && (d.width != "*" ==> !IsDigit(s[w]))
    ensures d.precision.None? ==> w == p
    ensures d.precision.Some? ==> s[w] == '.' && s[w + 1..p] == d.precision.value
    ensures !IsFlag(s[f])
  {
    LengthsEnd(s, g, m, d.lengths, d.tail);
    DigitsEnd(s, p, g, d.digits);
    DotFirst(s, w, p, d.precision);
    EndersApart(s[m]);
    EndersApart(s[g]);
    EndersApart(s[p]);
    WidthEnds(s, f, w, d.width);
  }

  /** The positions of the pieces are the ones the parser finds. */
  lemma HeadSteps(s: string, start: nat, f: nat, w: nat, p: nat, g: nat, m: nat)
    requires start <= f <= w <= p <= g <= m < |s|
    requires All(s[start..f], IsFlag) && !IsFlag(s[f])
    requires IsNumber(s[f..w]) && (s[f..w] != "*" ==> !IsDigit(s[w])) && s[w] != '*'
    requires if w == p then s[p] != '.' else
               s[w] == '.' && s[p] != '*' && IsNumber(s[w + 1..p]) && (s[w + 1..p] != "*" ==> !IsDigit(s[p]))
    requires All(s[p..g], IsDigit) && !IsDigit(s[g]) && All(s[g..m], IsLength) && !IsLength(s[m])
    ensures HeadAt(s, start)
         == (FlagsSpec(s[start..f]).(
               width := if f == w then Absent else SizeOf(s[f..w]),
               precision := if w == p then Absent else SizeOf(s[w + 1..p]),
               overflow := w < p && ValueOf(s[w + 1..p], 10) > I32_MAX), m)
  {
    assert Skip(s, start, IsFlag) == f by { SkipIs(s, start, f, IsFlag); }
    assert Skip(s, p, IsDigit) == g by { SkipIs(s, p, g, IsDigit); }
    assert Skip(s, g, IsLength) == m by { SkipIs(s, g, m, IsLength); }
    WidthPiece(s, f, w);
    if w < p { PrecisionPiece(s, w, p); }
  }

  lemma LaidReads(s: string, start: nat, f: nat, w: nat, p: nat, g: nat, m: nat, d: Directive)
    requires start <= f && WellFormed(d) && Laid(s, f, w, p, g, m, d) && s[start..f] == d.flags
    ensures HeadAt(s, start) == (HeadSpec(d), m)
  {
    Boundaries(s, f, w, p, g, m, d);
    HeadSteps(s, start, f, w, p, g, m);
  }

  lemma WholeSpec(d: Directive)
    ensures HeadSpec(d).time == None
    ensures SpecOf(d) == HeadSpec(d).(conv := if d.tail.Letter? then d.tail.conv else 'T',
                                      time := if d.tail.Letter? then None else Some(d.tail.format))
  {}

  lemma LaidParses(s: string, start: nat, f: nat, w: nat, p: nat, g: nat, m: nat, d: Directive)
    requires 1 <= start <= f && WellFormed(d) && Laid(s, f, w, p, g, m, d) && s[start..f] == d.flags
    requires At(s, m, TailText(d.tail))
    ensures ParseAt(s, start) == Good(SpecOf(d), m + |TailText(d.tail)|)
  {
    LaidReads(s, start, f, w, p, g, m, d);
    WholeSpec(d);
    TailPiece(s, start, m, d.tail, HeadSpec(d));
  }

  /** Every well-formed specification is read as what it says, whatever follows it. */
  lemma DirectiveReads(s: string, start: nat, d: Directive)
    requires 1 <= start && At(s, start, TextOf(d)) && WellFormed(d)
    ensures ParseAt(s, start) == Good(SpecOf(d), start + |TextOf(d)|)
  {
    var f, w, p, g, m := LaidOut(s, start, d);
    LaidParses(s, start, f, w, p, g, m, d);
  }

  ghost predicate IsReading(d: Directive, text: string, spec: Spec) {
    WellFormed(d) && TextOf(d) == text && SpecOf(d) == spec
  }

  /** The positions the parser goes through. */
  ghost predicate Positions(s: string, start: nat, f: nat, w: nat, p: nat, g: nat, m: nat) {
    && start <= f <= w <= p <= g <= m <= |s|
    && f == Skip(s, start, IsFlag) && w == WidthAt(s, f).next && p == PrecisionAt(s, w).next
    && g == Skip(s, p, IsDigit) && m == Skip(s, g, IsLength)
  }

  ghost predicate Cut(s: string, start: nat, f: nat, w: nat, p: nat, g: nat, m: nat, d: Directive)
    requires start <= f <= w <= p <= g <= m <= |s|
  {
    && d.flags == s[start..f] && d.width == s[f..w] && d.digits == s[p..g] && d.lengths == s[g..m]
    && d.precision == if p == w then None else Some(s[w + 1..p])
  }

  lemma CutWellFormed(s: string, start: nat, f: nat, w: nat, p: nat, g: nat, m: nat, d: Directive)
    requires Positions(s, start, f, w, p, g, m) && Cut(s, start, f, w, p, g, m, d) && TailOk(d.tail)
    ensures WellFormed(d)
  {
    assert All(d.flags, IsFlag) && (f < |s| ==> !IsFlag(s[f])) by { SkipIs(s, start, f, IsFlag); }
    assert All(d.digits, IsDigit) by { SkipIs(s, p, g, IsDigit); }
    assert All(d.lengths, IsLength) by { SkipIs(s, g, m, IsLength); }
    WidthIs(s, f);
    PrecisionIs(s, w);
    assert d.width != "" ==> d.width[0] == s[f];
    assert d.digits != "" ==> d.digits[0] == s[p];
  }

  lemma CutSpec(s: string, start: nat, f: nat, w: nat, p: nat, g: nat, m: nat, d: Directive)
    requires Positions(s, start, f, w, p, g, m) && Cut(s, start, f, w, p, g, m, d)
    ensures HeadAt(s, start) == (HeadSpec(d), m)
  {
    WidthIs(s, f);
    PrecisionIs(s, w);
  }

  lemma CutReads(s: string, start: nat, f: nat, w: nat, p: nat, g: nat, m: nat, d: Directive)
    requires 1 <= start && Positions(s, start, f, w, p, g, m) && Cut(s, start, f, w, p, g, m, d)
    requires ParseAt(s, start).Good?
    requires d.tail == if s[m] == '(' then Time(s[m + 1..ParseAt(s, start).next - 2]) else Letter(s[m])
    ensures IsReading(d, s[start..ParseAt(s, start).next], ParseAt(s, start).spec)
  {
    CutSpec(s, start, f, w, p, g, m, d);
    WholeSpec(d);
    TailIs(s, start, m, HeadSpec(d), d.tail);
    CutWellFormed(s, start, f, w, p, g, m, d);
    assert p > w ==> s[w] == '.';
    PiecesTile(s, start, f, w, p, g, m, ParseAt(s, start).next, d);
  }

  /** And nothing else is accepted: an accepted specification is the text of a well-formed one. */
  lemma AcceptedIsDirective(s: string, start: nat)
    requires 1 <= start <= |s| && ParseAt(s, start).Good?
    ensures exists d :: IsReading(d, s[start..ParseAt(s, start).next], ParseAt(s, start).spec)
  {
    var f := Skip(s, start, IsFlag);
    var w := WidthAt(s, f).next;
    var p := PrecisionAt(s, w).next;
    var g := Skip(s, p, IsDigit);
    var m := Skip(s, g, IsLength);
    var d := Directive(s[start..f], s[f..w], if p == w then None else Some(s[w + 1..p]), s[p..g], s[g..m],
                       if s[m] == '(' then Time(s[m + 1..ParseAt(s, start).next - 2]) else Letter(s[m]));
    CutReads(s, start, f, w, p, g, m, d);
  }

  lemma TailIs(s: string, start: nat, m: nat, spec: Spec, t: Tail)
    requires 1 <= start <= m <= |s| && TailAt(s, start, m, spec).Good? && spec.time == None
    requires t == if s[m] == '(' then Time(s[m + 1..TailAt(s, start, m, spec).next - 2]) else Letter(s[m])
    ensures TailOk(t) && TailText(t) == s[m..TailAt(s, start, m, spec).next]
    ensures TailAt(s, start, m, spec).spec
         == spec.(conv := if t.Letter? then t.conv else 'T', time := if t.Letter? then None else Some(t.format))
  {
    if t.Time? { TimeTail(s, m); }
  }

  lemma WidthIs(s: string, i: nat)
    requires i <= |s|
    ensures var w := WidthAt(s, i); var a := s[i..w.next];
            && IsNumber(a) && w.size == (if a == "" then Absent else SizeOf(a)) && !w.overflow
            && (a != "*" && w.next < |s| ==> !IsDigit(s[w.next]))
  {
    var j := Skip(s, i, IsDigit);
    SkipIs(s, i, j, IsDigit);
    if i < |s| && s[i] == '*' { assert s[i..i + 1] == "*"; }
    else if i < j { assert s[i..j][0] == s[i]; }
  }

  lemma PrecisionIs(s: string, i: nat)
    requires i <= |s|
    ensures var p := PrecisionAt(s, i);
            if p.next == i then p == Piece(Absent, false, i)
            else
              var a := s[i + 1..p.next];
              && s[i] == '.' && IsNumber(a) && p.size == SizeOf(a)
              && p.overflow == (ValueOf(a, 10) > I32_MAX)
              && (a != "*" && p.next < |s| ==> !IsDigit(s[p.next]))
  {
    if i < |s| && s[i] == '.' {
      var j := Skip(s, i + 1, IsDigit);
      SkipIs(s, i + 1, j, IsDigit);
      if i + 1 < |s| && s[i + 1] == '*' {
        assert s[i + 1..i + 2] == "*" && s[i + 1..i + 2][0] == '*';
      } else if i + 1 < j {
        assert s[i + 1..j][0] == s[i + 1];
      }
    }
  }

  lemma TimeTail(s: string, m: nat)
    requires m < |s| && TimeEnd(s, m + 1) + 1 < |s| && s[TimeEnd(s, m + 1) + 1] == 'T'
    ensures var f := s[m + 1..TimeEnd(s, m + 1)];
            forall k :: 0 <= k < |f| ==> !Ends(f + ")T", k)
  {
    var e := TimeEnd(s, m + 1);
    var f := s[m + 1..e];
    assert f + ")T" == s[m + 1..e + 2];
    forall k | 0 <= k < |f| ensures !Ends(f + ")T", k) {
      TimeEndFirst(s, m + 1, m + 1 + k);
      assert s[m + 1..e + 2][k] == s[m + 1 + k] && s[m + 1..e + 2][k + 1] == s[m + 1 + k + 1];
    }
  }

  lemma PiecesTile(s: string, start: nat, f: nat, w: nat, p: nat, g: nat, m: nat, end: nat, d: Directive)
    requires start <= f <= w <= p <= g <= m < end <= |s| && Cut(s, start, f, w, p, g, m, d)
    requires p > w ==> s[w] == '.'
    requires TailText(d.tail) == s[m..end]
    ensures TextOf(d) == s[start..end]
  {
    assert PrecisionText(d.precision) == s[w..p];
    Tile(s, g, m, end);
    Tile(s, p, g, end);
    Tile(s, w, p, end);
    Tile(s, f, w, end);
    Tile(s, start, f, end);
  }

  lemma Tile(s: string, i: nat, j: nat, k: nat)
    requires i <= j <= k <= |s|
    ensures s[i..j] + s[j..k] == s[i..k]
  {
  }
}

/** Backslash escapes in a printf format, and the byte quoter they undo. Bytes are characters below 256. */
module PrintfEscape {
  import opened Ascii
  import opened Quoting

  /** How many leading characters of `s` satisfy `ok`, at most `max`. */
  function Span(s: string, ok: char -> bool, max: nat): (n: nat)
    ensures n <= |s| && n <= max
    decreases max
  {
    if max == 0 || s == "" || !ok(s[0]) then 0 else 1 + Span(s[1..], ok, max - 1)
  }

  function DigitOf(c: char): nat {
    if IsDigit(c) then c as int - '0' as int
    else if 'a' <= c <= 'f' then c as int - 'a' as int + 10
    else if 'A' <= c <= 'F' then c as int - 'A' as int + 10 else 0
  }

  function ValueOf(s: string, radix: nat): nat {
    if s == "" then 0 else ValueOf(s[..|s| - 1], radix) * radix + DigitOf(s[|s| - 1])
  }

  /** `wide` stands for the locale's encoding of a code point. */
  function Unicode(s: string, digits: nat, wide: nat -> string): (string, nat)
    requires s != ""
  {
    var k := Span(s[1..], IsHex, digits);
    var value := ValueOf(s[1..1 + k], 16);
    if k == 0 then (['\\', s[0]], 1)
    else (if value > 0x7fff_ffff then "" else wide(value), 1 + k)
  }

  /** What an escape means: `s` follows the backslash; the bytes it yields, and how much of `s` it uses. */
  function Escape(s: string, wide: nat -> string): (r: (string, nat))
    requires s != ""
    ensures 1 <= r.1 <= |s|
  {
    match s[0]
    case 'a' => ("\U{07}", 1)
    case 'b' => ("\U{08}", 1)
    case 'e' => ("\U{1b}", 1)
    case 'E' => ("\U{1b}", 1)
    case 'f' => ("\U{0c}", 1)
    case 'n' => ("\n", 1)
    case 'r' => ("\r", 1)
    case 't' => ("\t", 1)
    case 'v' => ("\U{0b}", 1)
    case 'u' => Unicode(s, 4, wide)
    case 'U' => Unicode(s, 8, wide)
    case 'x' =>
      var k := Span(s[1..], IsHex, 2);
      if k == 0 then ("\\x", 1) else ([(ValueOf(s[1..1 + k], 16) % 256) as char], 1 + k)
    case _ =>
      if IsOctal(s[0]) then
        var k := Span(s, IsOctal, 3);
        assert k > 0;
        ([(ValueOf(s[..k], 8) % 256) as char], k)
      else if s[0] == '"' || s[0] == '\'' || s[0] == '?' || s[0] == '\\' then ([s[0]], 1)
      else (['\\', s[0]], 1)
  }

  lemma ValueSnoc(bytes: string, start: nat, i: nat, radix: nat)
    requires start <= i < |bytes|
    ensures ValueOf(bytes[start..i + 1], radix) == ValueOf(bytes[start..i], radix) * radix + DigitOf(bytes[i])
  {
    assert bytes[start..i + 1][..i - start] == bytes[start..i];
  }

  lemma SpanStep(bytes: string, i: nat, ok: char -> bool, max: nat)
    requires i <= |bytes|
    ensures Span(bytes[i..], ok, max)
         == if max > 0 && i < |bytes| && ok(bytes[i]) then 1 + Span(bytes[i + 1..], ok, max - 1) else 0
  {
    if i < |bytes| { assert bytes[i..][1..] == bytes[i + 1..]; }
  }

  /** The digit loop all numeric escapes share: as many as there are, up to `max`. */
  method Digits(bytes: string, start: nat, ok: char -> bool, max: nat, radix: nat) returns (val: nat, i: nat)
    requires start <= |bytes|
    ensures i == start + Span(bytes[start..], ok, max)
    ensures val == ValueOf(bytes[start..i], radix)
    ensures start <= i <= |bytes| && i - start <= max && forall k :: start <= k < i ==> ok(bytes[k])
    ensures i < |bytes| && i - start < max ==> !ok(bytes[i])
  {
    val, i := 0, start;
    ghost var end := start + Span(bytes[start..], ok, max);
    while i - start < max && i < |bytes| && ok(bytes[i])
      invariant start <= i <= |bytes| && i - start <= max && forall k :: start <= k < i ==> ok(bytes[k])
      invariant end == i + Span(bytes[i..], ok, max - (i - start))
      invariant val == ValueOf(bytes[start..i], radix)
    {
      SpanStep(bytes, i, ok, max - (i - start));
      ValueSnoc(bytes, start, i, radix);
      val := val * radix + DigitOf(bytes[i]);
      i := i + 1;
    }
    SpanStep(bytes, i, ok, max - (i - start));
  }

  method EmitUnicode(bytes: string, i: nat, digits: nat, out: string, wide: nat -> string)
    returns (res: string, next: nat)
    requires i < |bytes|
    ensures res == out + Unicode(bytes[i..], digits, wide).0 && next == i + Unicode(bytes[i..], digits, wide).1
  {
    var val;
    val, next := Digits(bytes, i + 1, IsHex, digits, 16);
    assert bytes[i..][1..] == bytes[i + 1..];
    assert bytes[i..][1..next - i] == bytes[i + 1..next];
    if next > i + 1 {
      res := out + if val > 0x7fff_ffff then "" else wide(val);
    } else {
      res := out + ['\\', bytes[i]];
    }
  }

  method EmitHex(bytes: string, i: nat, out: string, wide: nat -> string) returns (res: string, next: nat)
    requires i < |bytes| && bytes[i] == 'x'
    ensures res == out + Escape(bytes[i..], wide).0 && next == i + Escape(bytes[i..], wide).1
  {
    var val;
    val, next := Digits(bytes, i + 1, IsHex, 2, 16);
    assert bytes[i..][1..] == bytes[i + 1..];
    assert bytes[i..][1..next - i] == bytes[i + 1..next];
    if next == i + 1 { res := out + "\\x"; } else { res := out + [(val % 256) as char]; }
  }

  method EmitOctal(bytes: string, i: nat, out: string, wide: nat -> string) returns (res: string, next: nat)
    requires i < |bytes| && IsOctal(bytes[i])
    ensures res == out + Escape(bytes[i..], wide).0 && next == i + Escape(bytes[i..], wide).1
  {
    var val;
    val, next := Digits(bytes, i, IsOctal, 3, 8);
    assert bytes[i..][..next - i] == bytes[i..next];
    res := out + [(val % 256) as char];
  }

  method EmitFormatEscape(bytes: string, i: nat, out: string, wide: nat -> string) returns (res: string, next: nat)
    requires i < |bytes|
    ensures res == out + Escape(bytes[i..], wide).0 && next == i + Escape(bytes[i..], wide).1
    ensures i < next <= |bytes|
  {
    var c := bytes[i];
    assert bytes[i..][0] == c;
    next := i + 1;
    match c
    case 'a' => res := out + "\U{07}";
    case 'b' => res := out + "\U{08}";
    case 'e' => res := out + "\U{1b}";
    case 'E' => res := out + "\U{1b}";
    case 'f' => res := out + "\U{0c}";
    case 'n' => res := out + "\n";
    case 'r' => res := out + "\r";
    case 't' => res := out + "\t";
    case 'v' => res := out + "\U{0b}";
    case 'x' => res, next := EmitHex(bytes, i, out, wide);
    case 'u' => res, next := EmitUnicode(bytes, i, 4, out, wide);
    case 'U' => res, next := EmitUnicode(bytes, i, 8, out, wide);
    case _ =>
      if IsOctal(c) {
        res, next := EmitOctal(bytes, i, out, wide);
      } else if c == '"' || c == '\'' || c == '?' || c == '\\' {
        res := out + [c];
      } else {
        res := out + ['\\', c];
      }
  }

  /** One byte as the byte quoter writes it between `$'` and `'`. */
  function QuotedByte(c: char): (s: string)
    requires IsByte(c)
    ensures s != ""
  {
    if IsAscii(c) then AnsiByte(c) else "\\" + Octal(c)
  }

  function QuotedBytes(v: string): string
    requires forall i :: 0 <= i < |v| ==> IsByte(v[i])
  {
    if v == "" then "" else QuotedByte(v[0]) + QuotedBytes(v[1..])
  }

  lemma ValueOfThree(a: char, b: char, c: char, radix: nat)
    ensures ValueOf([a, b, c], radix) == (DigitOf(a) * radix + DigitOf(b)) * radix + DigitOf(c)
  {
    var o := [a, b, c];
    assert o[..2] == [a, b] && [a, b][..1] == [a] && [a][..0] == "";
    assert ValueOf([a], radix) == DigitOf(a);
    assert ValueOf([a, b], radix) == DigitOf(a) * radix + DigitOf(b);
  }

  lemma OctalDigitValue(n: nat)
    requires n < 8
    ensures IsOctal(OctalDigit(n)) && DigitOf(OctalDigit(n)) == n
  {}

  lemma ThreeDigits(n: nat)
    requires n < 256
    ensures n / 64 < 8 && n == (n / 64 * 8 + n / 8 % 8) * 8 + n % 8
  {}

  /** Three octal digits hold a byte. */
  lemma OctalValue(c: char)
    requires IsByte(c)
    ensures ValueOf(Octal(c), 8) == c as int
    ensures forall k :: 0 <= k < 3 ==> IsOctal(Octal(c)[k])
  {
    var n := c as int;
    ThreeDigits(n);
    OctalDigitValue(n / 64);
    OctalDigitValue(n / 8 % 8);
    OctalDigitValue(n % 8);
    ValueOfThree(OctalDigit(n / 64), OctalDigit(n / 8 % 8), OctalDigit(n % 8), 8);
  }

  /** A quoted octal byte never takes a digit from what follows. */
  lemma OctalEscape(c: char, rest: string, wide: nat -> string)
    requires IsByte(c)
    ensures Escape(Octal(c) + rest, wide) == ([c], 3)
  {
    var s := Octal(c) + rest;
    OctalValue(c);
    assert forall k :: 0 <= k < 3 ==> s[k] == Octal(c)[k];
    assert IsOctal(s[0]) && IsOctal(s[1]) && IsOctal(s[2]);
    assert Span(s, IsOctal, 3) == 3;
    assert s[..3] == Octal(c);
  }

  /** Each quoted byte is one plain character or one escape, and stands for itself. */
  lemma QuotedByteReads(c: char, rest: string, wide: nat -> string)
    requires IsByte(c)
    ensures var q := QuotedByte(c);
            if q[0] == '\\' then |q| > 1 && Escape(q[1..] + rest, wide) == ([c], |q| - 1)
            else q == [c]
    ensures c != '%' ==> QuotedByte(c)[0] != '%'
  {
    var q := QuotedByte(c);
    if q == "\\" + Octal(c) {
      assert q[1..] == Octal(c);
      OctalEscape(c, rest, wide);
    } else if q[0] == '\\' {
      assert |q| == 2 && (q[1..] + rest)[0] == q[1];
    }
  }
}

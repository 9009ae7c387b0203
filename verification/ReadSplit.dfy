/**
 Field splitting of the `read` builtin: a line of characters, each marked if a backslash
 protected it, cut at the unprotected characters of `IFS`.

 The cursor loops are proved against a grammar of fields and delimiters that has exactly
 one reading of every line.
 */
module ReadSplit {
  import opened Option

  /** A character and whether it was escaped. */
  type Item = (char, bool)

  const ESCAPED_CHAR: char := '\U{E000}'

  // ----- marking

  /** Backslash pairs become a marker and the character. */
  function ProcessBackslashes(s: string): string {
    if s == "" then ""
    else if s[0] == '\\' && |s| > 1 then [ESCAPED_CHAR, s[1]] + ProcessBackslashes(s[2..])
    else [s[0]] + ProcessBackslashes(s[1..])
  }

  function MarkedChars(s: string): seq<Item> {
    if s == "" then []
    else if s[0] == ESCAPED_CHAR then if |s| > 1 then [(s[1], true)] + MarkedChars(s[2..]) else []
    else [(s[0], false)] + MarkedChars(s[1..])
  }

  /** What the marks are meant to say: a character is escaped when a backslash stands before it. */
  function Marked(s: string): seq<Item> {
    if s == "" then []
    else if s[0] == '\\' && |s| > 1 then [(s[1], true)] + Marked(s[2..])
    else [(s[0], false)] + Marked(s[1..])
  }

  lemma {:induction false} NoBareMarker(s: string)
    ensures (ESCAPED_CHAR, false) !in MarkedChars(s)
    decreases |s|
  {
    if s != "" {
      NoBareMarker(s[1..]);
      if |s| > 1 { NoBareMarker(s[2..]); }
    }
  }

  /** The marker is faithful exactly when the line holds no unescaped marker character of its own. */
  lemma {:induction false} MarkingExact(s: string)
    ensures MarkedChars(ProcessBackslashes(s)) == Marked(s) <==> (ESCAPED_CHAR, false) !in Marked(s)
    decreases |s|
  {
    NoBareMarker(ProcessBackslashes(s));
    if (ESCAPED_CHAR, false) !in Marked(s) { MarkingFaithful(s); }
  }

  lemma {:induction false} MarkingFaithful(s: string)
    requires (ESCAPED_CHAR, false) !in Marked(s)
    ensures MarkedChars(ProcessBackslashes(s)) == Marked(s)
    decreases |s|
  {
    if s != "" {
      var p := ProcessBackslashes(s);
      if s[0] == '\\' && |s| > 1 {
        MarkingFaithful(s[2..]);
        assert p[2..] == ProcessBackslashes(s[2..]);
      } else {
        assert Marked(s)[0] == (s[0], false);
        MarkingFaithful(s[1..]);
        assert p[1..] == ProcessBackslashes(s[1..]);
      }
    }
  }

  /** A marker character of the line itself is taken for a mark: it goes missing and protects what follows. */
  lemma OwnMarkerMisread()
    ensures MarkedChars(ProcessBackslashes([ESCAPED_CHAR, ' '])) == [(' ', true)]
    ensures Marked([ESCAPED_CHAR, ' ']) == [(ESCAPED_CHAR, false), (' ', false)]
  {
    var s := [ESCAPED_CHAR, ' '];
    assert s[1..] == " " && s[2..] == "" && " "[1..] == "";
    assert ProcessBackslashes(" ") == " " && Marked(" ") == [(' ', false)];
    assert ProcessBackslashes(s) == s;
  }

  // ----- separators

  predicate IsBlank(c: char) {
    c == ' ' || c == '\t' || c == '\n' || c == '\r' || c == '\U{0c}' || c == '\U{0b}'
  }

  predicate IsSep(x: Item, ifs: string) { !x.1 && x.0 in ifs }

  predicate IsWs(x: Item, ifs: string) { IsSep(x, ifs) && IsBlank(x.0) }

  predicate IsNonWs(x: Item, ifs: string) { IsSep(x, ifs) && !IsBlank(x.0) }

  function Text(items: seq<Item>): (s: string)
    ensures |s| == |items| && forall i :: 0 <= i < |s| ==> s[i] == items[i].0
  {
    seq(|items|, i requires 0 <= i < |items| => items[i].0)
  }

  // ----- where the cursor goes

  function SkipWs(chars: seq<Item>, i: nat, ifs: string): (r: nat)
    requires i <= |chars|
    ensures i <= r <= |chars|
    decreases |chars| - i
  {
    if i == |chars| || !IsWs(chars[i], ifs) then i else SkipWs(chars, i + 1, ifs)
  }

  lemma {:induction false} SkipWsStops(chars: seq<Item>, i: nat, ifs: string)
    requires i <= |chars|
    ensures var r := SkipWs(chars, i, ifs);
            (r < |chars| ==> !IsWs(chars[r], ifs)) && forall k :: i <= k < r ==> IsWs(chars[k], ifs)
    decreases |chars| - i
  {
    if i < |chars| && IsWs(chars[i], ifs) { SkipWsStops(chars, i + 1, ifs); }
  }

  function WordEnd(chars: seq<Item>, i: nat, ifs: string): (r: nat)
    requires i <= |chars|
    ensures i <= r <= |chars|
    decreases |chars| - i
  {
    if i == |chars| || IsSep(chars[i], ifs) then i else WordEnd(chars, i + 1, ifs)
  }

  lemma {:induction false} WordEndStops(chars: seq<Item>, i: nat, ifs: string)
    requires i <= |chars|
    ensures var r := WordEnd(chars, i, ifs);
            (r < |chars| ==> IsSep(chars[r], ifs)) && forall k :: i <= k < r ==> !IsSep(chars[k], ifs)
    decreases |chars| - i
  {
    if i < |chars| && !IsSep(chars[i], ifs) { WordEndStops(chars, i + 1, ifs); }
  }

  /** Past the delimiter that starts at `e`. */
  function AfterDelim(chars: seq<Item>, e: nat, ifs: string): (r: nat)
    requires e <= |chars|
    ensures e <= r <= |chars| && (e < |chars| ==> e < r)
  {
    if e == |chars| then e
    else
      var p := SkipWs(chars, e + 1, ifs);
      if IsWs(chars[e], ifs) && p < |chars| && IsNonWs(chars[p], ifs) then SkipWs(chars, p + 1, ifs) else p
  }

  /** The cursor after one more word. */
  function NextPos(chars: seq<Item>, pos: nat, ifs: string): (r: nat)
    requires pos <= |chars|
    ensures pos <= r <= |chars| && (pos < |chars| ==> pos < r)
  {
    AfterDelim(chars, WordEnd(chars, SkipWs(chars, pos, ifs), ifs), ifs)
  }

  /** The word at the cursor; none when only blanks are left. */
  function WordAt(chars: seq<Item>, pos: nat, ifs: string): Option<seq<Item>>
    requires pos <= |chars|
  {
    var start := SkipWs(chars, pos, ifs);
    if start == |chars| then None else Some(chars[start..WordEnd(chars, start, ifs)])
  }

  function Fields(chars: seq<Item>, pos: nat, ifs: string): seq<seq<Item>>
    requires pos <= |chars|
    decreases |chars| - pos
  {
    var word := WordAt(chars, pos, ifs);
    if word == None then [] else [word.value] + Fields(chars, NextPos(chars, pos, ifs), ifs)
  }

  // ----- the loops

  method SkipBlanks(chars: seq<Item>, from: nat, ifs: string) returns (pos: nat)
    requires from <= |chars|
    ensures pos == SkipWs(chars, from, ifs)
  {
    pos := from;
    while pos < |chars| && IsWs(chars[pos], ifs)
      invariant from <= pos <= |chars| && SkipWs(chars, pos, ifs) == SkipWs(chars, from, ifs)
    {
      pos := pos + 1;
    }
  }

  method GetWord(chars: seq<Item>, from: nat, ifs: string) returns (word: Option<string>, pos: nat)
    requires from <= |chars|
    ensures pos == NextPos(chars, from, ifs)
    ensures word == match WordAt(chars, from, ifs) { case None => None case Some(w) => Some(Text(w)) }
  {
    var start := SkipBlanks(chars, from, ifs);
    pos := start;
    if pos >= |chars| { return None, pos; }
    while pos < |chars| && !IsSep(chars[pos], ifs)
      invariant start <= pos <= |chars| && WordEnd(chars, pos, ifs) == WordEnd(chars, start, ifs)
    {
      pos := pos + 1;
    }
    word := Some(Text(chars[start..pos]));
    var whitesep := pos < |chars| && IsWs(chars[pos], ifs);
    if pos < |chars| {
      pos := SkipBlanks(chars, pos + 1, ifs);
    }
    if whitesep && pos < |chars| && IsNonWs(chars[pos], ifs) {
      pos := SkipBlanks(chars, pos + 1, ifs);
    }
  }

  function Texts(fields: seq<seq<Item>>): (r: seq<string>)
    ensures |r| == |fields| && forall i :: 0 <= i < |r| ==> r[i] == Text(fields[i])
  {
    seq(|fields|, i requires 0 <= i < |fields| => Text(fields[i]))
  }

  /** `read -a`: every field. */
  method SplitIfs(chars: seq<Item>, ifs: string) returns (out: seq<string>)
    ensures ifs == "" ==> out == [Text(chars)]
    ensures ifs != "" ==> out == Texts(Fields(chars, 0, ifs))
  {
    if ifs == "" { return [Text(chars)]; }
    out := [];
    var pos := 0;
    ghost var rest := Texts(Fields(chars, 0, ifs));
    while pos < |chars|
      invariant pos <= |chars| && rest == Texts(Fields(chars, pos, ifs))
      invariant out + rest == Texts(Fields(chars, 0, ifs))
      decreases |chars| - pos
    {
      TextsStep(chars, pos, ifs);
      var word, next := GetWord(chars, pos, ifs);
      if word == None { return; }
      out := out + [word.value];
      pos := next;
      rest := Texts(Fields(chars, pos, ifs));
    }
  }

  lemma TextsStep(chars: seq<Item>, pos: nat, ifs: string)
    requires pos <= |chars|
    ensures var w := WordAt(chars, pos, ifs);
            Texts(Fields(chars, pos, ifs)) ==
              if w.Some? then [Text(w.value)] + Texts(Fields(chars, NextPos(chars, pos, ifs), ifs)) else []
  {}

  // ----- conservation

  function Concat<T>(parts: seq<seq<T>>): seq<T> {
    if parts == [] then [] else parts[0] + Concat(parts[1..])
  }

  /** What splitting must keep: the characters that are escaped or not in `IFS`. */
  function Kept(chars: seq<Item>, i: nat, ifs: string): seq<Item>
    requires i <= |chars|
    decreases |chars| - i
  {
    if i == |chars| then [] else (if IsSep(chars[i], ifs) then [] else [chars[i]]) + Kept(chars, i + 1, ifs)
  }

  lemma {:induction false} KeptSkips(chars: seq<Item>, i: nat, j: nat, ifs: string)
    requires i <= j <= |chars| && forall k :: i <= k < j ==> IsSep(chars[k], ifs)
    ensures Kept(chars, i, ifs) == Kept(chars, j, ifs)
    decreases j - i
  {
    if i < j { KeptSkips(chars, i + 1, j, ifs); }
  }

  lemma {:induction false} KeptTakes(chars: seq<Item>, i: nat, j: nat, ifs: string)
    requires i <= j <= |chars| && forall k :: i <= k < j ==> !IsSep(chars[k], ifs)
    ensures Kept(chars, i, ifs) == chars[i..j] + Kept(chars, j, ifs)
    decreases j - i
  {
    if i < j {
      KeptTakes(chars, i + 1, j, ifs);
      var rest := Kept(chars, j, ifs);
      assert chars[i..j] == [chars[i]] + chars[i + 1..j];
      assert [chars[i]] + (chars[i + 1..j] + rest) == chars[i..j] + rest;
    }
  }

  lemma DelimIsSeparators(chars: seq<Item>, e: nat, ifs: string)
    requires e <= |chars| && (e < |chars| ==> IsSep(chars[e], ifs))
    ensures forall k :: e <= k < AfterDelim(chars, e, ifs) ==> IsSep(chars[k], ifs)
  {
    if e < |chars| {
      SkipWsStops(chars, e + 1, ifs);
      var p := SkipWs(chars, e + 1, ifs);
      if p < |chars| { SkipWsStops(chars, p + 1, ifs); }
    }
  }

  /** The fields, put end to end, are exactly the characters that are escaped or not in `IFS`, in order. */
  lemma {:induction false} FieldsConserve(chars: seq<Item>, pos: nat, ifs: string)
    requires pos <= |chars|
    ensures Concat(Fields(chars, pos, ifs)) == Kept(chars, pos, ifs)
    decreases |chars| - pos
  {
    var start := SkipWs(chars, pos, ifs);
    SkipWsStops(chars, pos, ifs);
    KeptSkips(chars, pos, start, ifs);
    if start < |chars| {
      var e := WordEnd(chars, start, ifs);
      WordEndStops(chars, start, ifs);
      var next := AfterDelim(chars, e, ifs);
      KeptTakes(chars, start, e, ifs);
      DelimIsSeparators(chars, e, ifs);
      KeptSkips(chars, e, next, ifs);
      FieldsConserve(chars, next, ifs);
      var rest := Fields(chars, next, ifs);
      assert Fields(chars, pos, ifs) == [chars[start..e]] + rest;
      assert ([chars[start..e]] + rest)[1..] == rest;
    }
  }

  /** When `IFS` is all blanks, no field is empty. */
  lemma {:induction false} BlankIfsNoEmpty(chars: seq<Item>, pos: nat, ifs: string)
    requires pos <= |chars| && forall i :: 0 <= i < |ifs| ==> IsBlank(ifs[i])
    ensures forall n :: 0 <= n < |Fields(chars, pos, ifs)| ==> Fields(chars, pos, ifs)[n] != []
    decreases |chars| - pos
  {
    var start := SkipWs(chars, pos, ifs);
    SkipWsStops(chars, pos, ifs);
    if start < |chars| {
      assert !IsSep(chars[start], ifs);
      BlankIfsNoEmpty(chars, NextPos(chars, pos, ifs), ifs);
    }
  }

  // ----- the grammar

  /**
   One delimiter from `e` to `p`: blanks alone and then no separator, or a single other
   separator among blanks and then no blank.  At the end of the line there is none.
   */
  ghost predicate DelimAt(chars: seq<Item>, e: nat, p: nat, ifs: string) {
    && e <= p <= |chars|
    && if e == |chars| then p == e
       else
         || (e < p && (forall k :: e <= k < p ==> IsWs(chars[k], ifs)) && (p < |chars| ==> !IsSep(chars[p], ifs)))
         || (&& (p < |chars| ==> !IsWs(chars[p], ifs))
             && exists k :: e <= k < p && IsNonWs(chars[k], ifs)
                            && forall j :: e <= j < p && j != k ==> IsWs(chars[j], ifs))
  }

  /** `fields` is a reading of the line from `i`, which is not a blank: field, delimiter, field, delimiter, ... */
  ghost predicate Reads(chars: seq<Item>, i: nat, fields: seq<seq<Item>>, ifs: string)
    requires i <= |chars|
    decreases |fields|
  {
    if i == |chars| then fields == []
    else
      && fields != []
      && exists e: nat, p: nat {:trigger DelimAt(chars, e, p, ifs)} ::
           && i <= e && DelimAt(chars, e, p, ifs)
           && fields[0] == chars[i..e] && (forall k :: i <= k < e ==> !IsSep(chars[k], ifs))
           && Reads(chars, p, fields[1..], ifs)
  }

  lemma SkipWsIs(chars: seq<Item>, i: nat, j: nat, ifs: string)
    requires i <= j <= |chars| && (forall k :: i <= k < j ==> IsWs(chars[k], ifs))
             && (j < |chars| ==> !IsWs(chars[j], ifs))
    ensures SkipWs(chars, i, ifs) == j
  {
    SkipWsStops(chars, i, ifs);
  }

  lemma WordEndIs(chars: seq<Item>, i: nat, e: nat, ifs: string)
    requires i <= e <= |chars| && (forall k :: i <= k < e ==> !IsSep(chars[k], ifs))
             && (e < |chars| ==> IsSep(chars[e], ifs))
    ensures WordEnd(chars, i, ifs) == e
  {
    WordEndStops(chars, i, ifs);
  }

  /** The grammar's delimiter is the one the cursor steps over. */
  lemma DelimUnique(chars: seq<Item>, e: nat, p: nat, ifs: string)
    requires DelimAt(chars, e, p, ifs)
    ensures p == AfterDelim(chars, e, ifs) && (e < |chars| ==> IsSep(chars[e], ifs))
  {
    if e < |chars| {
      if e < p && (forall k :: e <= k < p ==> IsWs(chars[k], ifs)) && (p < |chars| ==> !IsSep(chars[p], ifs)) {
        SkipWsIs(chars, e + 1, p, ifs);
      } else {
        var k :| e <= k < p && IsNonWs(chars[k], ifs) && forall j :: e <= j < p && j != k ==> IsWs(chars[j], ifs);
        if k == e {
          SkipWsIs(chars, e + 1, p, ifs);
        } else {
          SkipWsIs(chars, e + 1, k, ifs);
          SkipWsIs(chars, k + 1, p, ifs);
        }
      }
    }
  }

  lemma DelimExists(chars: seq<Item>, e: nat, ifs: string)
    requires e <= |chars| && (e < |chars| ==> IsSep(chars[e], ifs))
    ensures DelimAt(chars, e, AfterDelim(chars, e, ifs), ifs)
  {
    if e < |chars| {
      var q := SkipWs(chars, e + 1, ifs);
      SkipWsStops(chars, e + 1, ifs);
      if q < |chars| { SkipWsStops(chars, q + 1, ifs); }
      if IsWs(chars[e], ifs) && q < |chars| && IsNonWs(chars[q], ifs) {
        assert IsNonWs(chars[q], ifs);
      } else if IsNonWs(chars[e], ifs) {
        assert IsNonWs(chars[e], ifs);
      }
    }
  }

  /** Where words start after the first delimiter, no blank is in front. */
  lemma AfterDelimClean(chars: seq<Item>, e: nat, ifs: string)
    requires e <= |chars|
    ensures var p := AfterDelim(chars, e, ifs); SkipWs(chars, p, ifs) == p
  {
    if e < |chars| {
      SkipWsStops(chars, e + 1, ifs);
      var p := SkipWs(chars, e + 1, ifs);
      if p < |chars| { SkipWsStops(chars, p + 1, ifs); }
    }
  }

  lemma {:induction false} SplitReads(chars: seq<Item>, i: nat, ifs: string)
    requires i <= |chars| && SkipWs(chars, i, ifs) == i
    ensures Reads(chars, i, Fields(chars, i, ifs), ifs)
    decreases |chars| - i
  {
    if i < |chars| {
      var e := WordEnd(chars, i, ifs);
      var p := AfterDelim(chars, e, ifs);
      WordEndStops(chars, i, ifs);
      AfterDelimClean(chars, e, ifs);
      DelimExists(chars, e, ifs);
      SplitReads(chars, p, ifs);
      var fields := Fields(chars, i, ifs);
      assert fields == [chars[i..e]] + Fields(chars, p, ifs) && fields[1..] == Fields(chars, p, ifs);
    }
  }

  /** The first field of a reading and the delimiter after it. */
  lemma ReadsFirst(chars: seq<Item>, i: nat, fields: seq<seq<Item>>, ifs: string) returns (e: nat, p: nat)
    requires i < |chars| && Reads(chars, i, fields, ifs)
    ensures fields != [] && i <= e == WordEnd(chars, i, ifs) && p == AfterDelim(chars, e, ifs)
    ensures i < p <= |chars| && fields[0] == chars[i..e] && Reads(chars, p, fields[1..], ifs)
  {
    e, p :| i <= e && DelimAt(chars, e, p, ifs)
      && fields[0] == chars[i..e] && (forall k :: i <= k < e ==> !IsSep(chars[k], ifs))
      && Reads(chars, p, fields[1..], ifs);
    DelimUnique(chars, e, p, ifs);
    WordEndIs(chars, i, e, ifs);
  }

  lemma FieldsCons(chars: seq<Item>, i: nat, ifs: string)
    requires i < |chars| && SkipWs(chars, i, ifs) == i
    ensures var e := WordEnd(chars, i, ifs);
            Fields(chars, i, ifs) == [chars[i..e]] + Fields(chars, AfterDelim(chars, e, ifs), ifs)
  {}

  lemma {:induction false} ReadsUnique(chars: seq<Item>, i: nat, fields: seq<seq<Item>>, ifs: string)
    requires i <= |chars| && SkipWs(chars, i, ifs) == i && Reads(chars, i, fields, ifs)
    ensures fields == Fields(chars, i, ifs)
    decreases |chars| - i
  {
    if i < |chars| {
      var e, p := ReadsFirst(chars, i, fields, ifs);
      AfterDelimClean(chars, e, ifs);
      ReadsUnique(chars, p, fields[1..], ifs);
      FieldsCons(chars, i, ifs);
      assert fields == [fields[0]] + fields[1..];
    }
  }

  /** A line has one reading, and splitting finds it. */
  lemma SplitIsTheReading(chars: seq<Item>, i: nat, fields: seq<seq<Item>>, ifs: string)
    requires i <= |chars| && SkipWs(chars, i, ifs) == i
    ensures Reads(chars, i, fields, ifs) <==> fields == Fields(chars, i, ifs)
  {
    SplitReads(chars, i, ifs);
    if Reads(chars, i, fields, ifs) { ReadsUnique(chars, i, fields, ifs); }
  }

  /** The whole line: leading blanks, then its one reading. */
  lemma SplitExact(chars: seq<Item>, fields: seq<seq<Item>>, ifs: string)
    ensures fields == Fields(chars, 0, ifs) <==> Reads(chars, SkipWs(chars, 0, ifs), fields, ifs)
  {
    var start := SkipWs(chars, 0, ifs);
    SkipWsStops(chars, 0, ifs);
    SkipWsIs(chars, start, start, ifs);
    SplitIsTheReading(chars, start, fields, ifs);
    assert Fields(chars, 0, ifs) == Fields(chars, start, ifs);
  }

  // ----- read with names

  /** The cursor after `k` words. */
  function PosAfter(chars: seq<Item>, k: nat, ifs: string): (r: nat)
    ensures r <= |chars|
  {
    if k == 0 then 0 else NextPos(chars, PosAfter(chars, k - 1, ifs), ifs)
  }

  function StripEnd(chars: seq<Item>, lo: nat, hi: nat, ifs: string): (r: nat)
    requires lo <= hi <= |chars|
    ensures lo <= r <= hi
    decreases hi - lo
  {
    if lo < hi && IsWs(chars[hi - 1], ifs) then StripEnd(chars, lo, hi - 1, ifs) else hi
  }

  /** Stripping removes exactly the unescaped blanks at the end. */
  lemma {:induction false} StripEndStops(chars: seq<Item>, lo: nat, hi: nat, ifs: string)
    requires lo <= hi <= |chars|
    ensures var r := StripEnd(chars, lo, hi, ifs);
            (lo < r ==> !IsWs(chars[r - 1], ifs)) && forall k :: r <= k < hi ==> IsWs(chars[k], ifs)
    decreases hi - lo
  {
    if lo < hi && IsWs(chars[hi - 1], ifs) { StripEndStops(chars, lo, hi - 1, ifs); }
  }

  /** The `i`th field, or the empty text. */
  function Nth(fields: seq<seq<Item>>, i: nat): string {
    if i < |fields| then Text(fields[i]) else ""
  }

  lemma NextPosClean(chars: seq<Item>, pos: nat, ifs: string)
    requires pos <= |chars|
    ensures var p := NextPos(chars, pos, ifs); SkipWs(chars, p, ifs) == p
  {
    AfterDelimClean(chars, WordEnd(chars, SkipWs(chars, pos, ifs), ifs), ifs);
  }

  /** The list without its first `k`. */
  function From(all: seq<seq<Item>>, k: nat): seq<seq<Item>> {
    if k <= |all| then all[k..] else []
  }

  lemma FromLaws(all: seq<seq<Item>>, k: nat)
    ensures From(all, 0) == all
    ensures From(all, k + 1) == if From(all, k) == [] then [] else From(all, k)[1..]
  {}

  lemma FieldsOn(chars: seq<Item>, pos: nat, next: nat, ifs: string, all: seq<seq<Item>>, k: nat)
    requires pos <= |chars| && next == NextPos(chars, pos, ifs) && Fields(chars, pos, ifs) == From(all, k)
    ensures Fields(chars, next, ifs) == From(all, k + 1)
  {
    FieldsStep(chars, pos, ifs);
    FromLaws(all, k);
  }

  /** After `k` words, the fields still to come are those of `all` from the `k`th on. */
  ghost predicate LeftAfter(chars: seq<Item>, k: nat, ifs: string, all: seq<seq<Item>>) {
    Fields(chars, PosAfter(chars, k, ifs), ifs) == From(all, k)
  }

  lemma LeftAfterNext(chars: seq<Item>, k: nat, ifs: string, all: seq<seq<Item>>)
    requires LeftAfter(chars, k, ifs, all)
    ensures LeftAfter(chars, k + 1, ifs, all)
  {
    FieldsOn(chars, PosAfter(chars, k, ifs), PosAfter(chars, k + 1, ifs), ifs, all, k);
  }

  lemma {:induction false} LeftAfterEach(chars: seq<Item>, k: nat, ifs: string, all: seq<seq<Item>>)
    requires LeftAfter(chars, 0, ifs, all)
    ensures LeftAfter(chars, k, ifs, all)
    decreases k
  {
    if k > 0 {
      LeftAfterEach(chars, k - 1, ifs, all);
      LeftAfterNext(chars, k - 1, ifs, all);
    }
  }

  lemma FieldsFrom(chars: seq<Item>, k: nat, ifs: string)
    ensures Fields(chars, PosAfter(chars, k, ifs), ifs) == From(Fields(chars, 0, ifs), k)
  {
    var all := Fields(chars, 0, ifs);
    FromLaws(all, 0);
    LeftAfterEach(chars, k, ifs, all);
  }

  lemma FieldsStep(chars: seq<Item>, pos: nat, ifs: string)
    requires pos <= |chars|
    ensures var here := Fields(chars, pos, ifs);
            Fields(chars, NextPos(chars, pos, ifs), ifs) == if here == [] then [] else here[1..]
  {
    if SkipWs(chars, pos, ifs) == |chars| {
      assert NextPos(chars, pos, ifs) == |chars|;
    }
  }

  predicate IsTrimmed(x: Item, ifs: string) { IsBlank(x.0) && x.0 in ifs }

  method TrimBoth(chars: seq<Item>, ifs: string) returns (lo: nat, hi: nat)
    ensures TrimsTo(chars, ifs, lo, hi)
  {
    lo := 0;
    while lo < |chars| && IsTrimmed(chars[lo], ifs)
      invariant lo <= |chars| && forall k :: 0 <= k < lo ==> IsTrimmed(chars[k], ifs)
    {
      lo := lo + 1;
    }
    hi := |chars|;
    while hi > lo && IsTrimmed(chars[hi - 1], ifs)
      invariant lo <= hi <= |chars| && forall k :: hi <= k < |chars| ==> IsTrimmed(chars[k], ifs)
    {
      hi := hi - 1;
    }
  }

  ghost predicate FirstsAre(values: seq<string>, fields: seq<seq<Item>>, n: nat) {
    n <= |values| && forall i :: 0 <= i < n ==> values[i] == Nth(fields, i)
  }

  /** The values of two or more names: field by field, and the rest of the line for the last where some is left. */
  ghost predicate Distributed(chars: seq<Item>, ifs: string, count: nat, values: seq<string>) {
    var fields := Fields(chars, 0, ifs);
    && count >= 2 && |values| == count
    && FirstsAre(values, fields, count - 1)
    && values[count - 1] == LastOf(chars, ifs, count - 1)
  }

  function LastOf(chars: seq<Item>, ifs: string, k: nat): string {
    var fields := Fields(chars, 0, ifs);
    var pos := PosAfter(chars, k, ifs);
    if |fields| <= k + 1 then Nth(fields, k) else Text(chars[pos..StripEnd(chars, pos, |chars|, ifs)])
  }

  /** The part of a line from `a` to `b` is what is left of it without blanks at either end, escaped ones too. */
  ghost predicate TrimsTo(chars: seq<Item>, ifs: string, a: nat, b: nat) {
    && a <= b <= |chars|
    && (forall k :: 0 <= k < |chars| && !(a <= k < b) ==> IsTrimmed(chars[k], ifs))
    && (a < b ==> !IsTrimmed(chars[a], ifs) && !IsTrimmed(chars[b - 1], ifs))
  }

  /** The whole line for one name, less blanks at either end, escaped ones too. */
  ghost predicate Trimmed(chars: seq<Item>, ifs: string, value: string) {
    exists a: nat, b: nat {:trigger chars[a..b]} :: TrimsTo(chars, ifs, a, b) && value == Text(chars[a..b])
  }

  lemma DistributedSnoc(chars: seq<Item>, ifs: string, k: nat, firsts: seq<string>, last: string)
    requires k >= 1 && |firsts| == k && FirstsAre(firsts, Fields(chars, 0, ifs), k) && last == LastOf(chars, ifs, k)
    ensures Distributed(chars, ifs, k + 1, firsts + [last])
  {}

  /** `read name...`; an empty `IFS` gives the first name the whole line untouched. */
  method SplitReadVariables(chars: seq<Item>, ifs: string, count: nat) returns (values: seq<string>)
    ensures |values| == count
    ensures ifs == "" && count > 0 ==> values[0] == Text(chars) && forall i :: 1 <= i < count ==> values[i] == ""
    ensures ifs != "" && count == 1 ==> Trimmed(chars, ifs, values[0])
    ensures ifs != "" && count >= 2 ==> Distributed(chars, ifs, count, values)
  {
    if count == 0 { return []; }
    if ifs == "" { return [Text(chars)] + seq(count - 1, _ => ""); }
    if count == 1 {
      var value := TrimLine(chars, ifs);
      return [value];
    }
    values := SplitSeveral(chars, ifs, count - 1);
  }

  method TrimLine(chars: seq<Item>, ifs: string) returns (value: string)
    ensures Trimmed(chars, ifs, value)
  {
    var lo, hi := TrimBoth(chars, ifs);
    value := Text(chars[lo..hi]);
  }

  method SplitSeveral(chars: seq<Item>, ifs: string, k: nat) returns (values: seq<string>)
    requires k >= 1
    ensures Distributed(chars, ifs, k + 1, values)
  {
    var firsts := FirstValues(chars, ifs, k);
    var last := LastValue(chars, ifs, k);
    DistributedSnoc(chars, ifs, k, firsts, last);
    values := firsts + [last];
  }

  method FirstValues(chars: seq<Item>, ifs: string, k: nat) returns (values: seq<string>)
    ensures |values| == k && FirstsAre(values, Fields(chars, 0, ifs), k)
  {
    values := [];
    var pos := 0;
    for n := 0 to k
      invariant |values| == n && pos == PosAfter(chars, n, ifs) && FirstsAre(values, Fields(chars, 0, ifs), n)
    {
      var value;
      value, pos := NextValue(chars, ifs, n, pos);
      FirstsSnoc(values, value, Fields(chars, 0, ifs), n);
      values := values + [value];
    }
  }

  /** The value of one name, and the cursor behind it. */
  method NextValue(chars: seq<Item>, ifs: string, n: nat, pos: nat) returns (value: string, next: nat)
    requires pos == PosAfter(chars, n, ifs)
    ensures value == Nth(Fields(chars, 0, ifs), n) && next == PosAfter(chars, n + 1, ifs)
  {
    NthWord(chars, n, ifs);
    var word;
    word, next := GetWord(chars, pos, ifs);
    value := if word.Some? then word.value else "";
  }

  lemma FirstsSnoc(values: seq<string>, value: string, fields: seq<seq<Item>>, n: nat)
    requires |values| == n && FirstsAre(values, fields, n) && value == Nth(fields, n)
    ensures FirstsAre(values + [value], fields, n + 1)
  {}

  lemma NthWord(chars: seq<Item>, n: nat, ifs: string)
    ensures var w := WordAt(chars, PosAfter(chars, n, ifs), ifs);
            Nth(Fields(chars, 0, ifs), n) == if w.Some? then Text(w.value) else ""
  {
    FieldsFrom(chars, n, ifs);
  }

  method StripTail(chars: seq<Item>, pos: nat, ifs: string) returns (end: nat)
    requires pos <= |chars|
    ensures end == StripEnd(chars, pos, |chars|, ifs)
  {
    end := |chars|;
    while end > pos && IsWs(chars[end - 1], ifs)
      invariant pos <= end <= |chars| && StripEnd(chars, pos, end, ifs) == StripEnd(chars, pos, |chars|, ifs)
    {
      end := end - 1;
    }
  }

  method LastValue(chars: seq<Item>, ifs: string, k: nat) returns (last: string)
    requires k >= 1
    ensures last == LastOf(chars, ifs, k)
  {
    var pos := PosAfter(chars, k, ifs);
    FieldsFrom(chars, k, ifs);
    FieldsFrom(chars, k + 1, ifs);
    NextPosClean(chars, PosAfter(chars, k - 1, ifs), ifs);
    last := "";
    if pos < |chars| {
      var word, probe := GetWord(chars, pos, ifs);
      NextPosClean(chars, pos, ifs);
      if probe >= |chars| {
        last := if word.Some? then word.value else "";
      } else {
        var end := StripTail(chars, pos, ifs);
        last := Text(chars[pos..end]);
      }
    }
  }

  /** With as many names as fields or more, the values are the fields themselves, padded. */
  lemma NamesGetFields(chars: seq<Item>, ifs: string, count: nat, values: seq<string>)
    requires Distributed(chars, ifs, count, values) && |Fields(chars, 0, ifs)| <= count
    ensures values == Texts(Fields(chars, 0, ifs)) + seq(count - |Fields(chars, 0, ifs)|, _ => "")
  {}

  /** Against a part outside which there are only blanks: the same length exactly when no blank is at its ends. */
  lemma TrimsAgainst(chars: seq<Item>, ifs: string, lo: nat, hi: nat, a: nat, b: nat)
    requires TrimsTo(chars, ifs, a, b) && lo <= hi <= |chars|
    requires forall k :: 0 <= k < lo || hi <= k < |chars| ==> IsTrimmed(chars[k], ifs)
    ensures a < b ==> lo <= a && b <= hi
    ensures b - a == hi - lo <==> lo == hi || (!IsTrimmed(chars[lo], ifs) && !IsTrimmed(chars[hi - 1], ifs))
  {}

  /** What one name gets, against a line less its unescaped blanks at either end. */
  lemma TrimmedAgainst(chars: seq<Item>, ifs: string, lo: nat, hi: nat, value: string)
    requires lo <= hi <= |chars| && Trimmed(chars, ifs, value)
    requires forall k :: 0 <= k < lo || hi <= k < |chars| ==> IsTrimmed(chars[k], ifs)
    ensures value == Text(chars[lo..hi]) <==> lo == hi || (!IsTrimmed(chars[lo], ifs) && !IsTrimmed(chars[hi - 1], ifs))
  {
    var a: nat, b: nat {:trigger chars[a..b]} :| TrimsTo(chars, ifs, a, b) && value == Text(chars[a..b]);
    TrimsAgainst(chars, ifs, lo, hi, a, b);
    assert |value| == b - a && |Text(chars[lo..hi])| == hi - lo;
    assert b - a == hi - lo > 0 ==> a == lo && b == hi;
  }

  lemma BlanksOutside(chars: seq<Item>, ifs: string, lo: nat, hi: nat)
    requires lo == SkipWs(chars, 0, ifs) && hi == StripEnd(chars, lo, |chars|, ifs)
    ensures forall k :: 0 <= k < lo || hi <= k < |chars| ==> IsTrimmed(chars[k], ifs)
  {
    SkipWsStops(chars, 0, ifs);
    StripEndStops(chars, lo, |chars|, ifs);
  }

  /**
   One name gets the line less its unescaped blanks, as the last of several names gets its rest, if and only if
   the line so stripped is empty or has no escaped blank of IFS at either end.
   */
  lemma OneNameExactly(chars: seq<Item>, ifs: string, value: string)
    requires Trimmed(chars, ifs, value)
    ensures var lo := SkipWs(chars, 0, ifs);
            var hi := StripEnd(chars, lo, |chars|, ifs);
            value == Text(chars[lo..hi]) <==> lo == hi || (!IsTrimmed(chars[lo], ifs) && !IsTrimmed(chars[hi - 1], ifs))
  {
    var lo := SkipWs(chars, 0, ifs);
    var hi := StripEnd(chars, lo, |chars|, ifs);
    BlanksOutside(chars, ifs, lo, hi);
    TrimmedAgainst(chars, ifs, lo, hi, value);
  }

  /** Unlike a line read into several names, one name loses even an escaped blank at the end. */
  lemma OneNameTrimsEscaped()
    ensures var chars := [('a', false), (' ', true)];
            && (forall v :: Trimmed(chars, " ", v) ==> v == "a")
            && (forall vs :: Distributed(chars, " ", 2, vs) ==> vs == ["a ", ""])
  {
    var chars := [('a', false), (' ', true)];
    forall v | Trimmed(chars, " ", v) ensures v == "a" {
      TrimmedAgainst(chars, " ", 0, 1, v);
      assert Text(chars[0..1]) == "a";
    }
    assert WordEnd(chars, 2, " ") == 2 && WordEnd(chars, 1, " ") == 2 && WordEnd(chars, 0, " ") == 2;
    assert chars[0..2] == chars;
    assert Fields(chars, 2, " ") == [];
    assert Fields(chars, 0, " ") == [chars] && Text(chars) == "a ";
    forall vs | Distributed(chars, " ", 2, vs) ensures vs == ["a ", ""] { NamesGetFields(chars, " ", 2, vs); }
  }
}

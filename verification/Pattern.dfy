/**
 The shell pattern matcher: POSIX globs plus the extended operators
 `?(p) *(p) +(p) @(p) !(p)`, over an already parsed pattern.

 `Matches` gives a pattern a language of words, by splitting words and with no
 positions.  The methods below it are the matcher, which enumerates end
 positions, and they are proved to enumerate exactly the words of that language.
 */
module Pattern {
  import opened Ascii
  import opened Sequences

  datatype NamedClass =
    | Alpha | Alnum | Digit | Lower | Upper | Space | Blank
    | Print | Punct | Xdigit | Cntrl | Graph | AsciiClass | Word

  datatype ClassItem = Single(c: char) | Range(lo: char, hi: char) | Named(name: NamedClass)

  datatype ExtKind = Opt | Many | Plus | At | Bang

  datatype Tok =
    | Lit(c: char)
    | Star
    | Question
    | Class(negate: bool, items: seq<ClassItem>)
    | Ext(kind: ExtKind, branches: seq<Branch>)

  datatype Branch = Branch(toks: seq<Tok>)

  predicate NamedMatches(name: NamedClass, c: char) {
    match name
    case Alpha => IsAlpha(c)
    case Alnum => IsAlnum(c)
    case Digit => IsDigit(c)
    case Lower => IsLower(c)
    case Upper => IsUpper(c)
    case Space => c in [' ', '\t', '\n', '\r', '\U{0c}']
    case Blank => c == ' ' || c == '\t'
    case Print => IsPrint(c)
    case Punct => IsPrint(c) && c != ' ' && !IsAlnum(c)
    case Xdigit => IsHex(c)
    case Cntrl => IsControl(c)
    case Graph => IsPrint(c) && c != ' '
    case AsciiClass => IsAscii(c)
    case Word => IsAlnum(c) || c == '_'
  }

  function Fold(c: char, nocase: bool): char {
    if nocase then ToLower(c) else c
  }

  predicate ItemMatches(item: ClassItem, c: char, nocase: bool) {
    match item
    case Single(s) => Fold(s, nocase) == Fold(c, nocase)
    case Range(lo, hi) => Fold(lo, nocase) <= Fold(c, nocase) <= Fold(hi, nocase)
    case Named(n) => NamedMatches(n, c)
  }

  predicate ClassMatches(items: seq<ClassItem>, c: char, nocase: bool) {
    exists i :: 0 <= i < |items| && ItemMatches(items[i], c, nocase)
  }

  // ----- the language of a pattern

  /**
   The two readings of `+(p)` that matter here.  In `Documented`, it is one or more
   occurrences of `p`, empty ones included.  In `Implemented`, every occurrence
   the matcher counts must move forward, so the empty word is never in it.
   */
  datatype Reading = Documented | Implemented

  ghost predicate Matches(toks: seq<Tok>, w: string, nocase: bool, reading: Reading)
    decreases toks
  {
    if toks == [] then w == ""
    else exists k :: 0 <= k <= |w| && TokMatches(toks[0], w[..k], nocase, reading)
                     && Matches(toks[1..], w[k..], nocase, reading)
  }

  ghost predicate TokMatches(t: Tok, w: string, nocase: bool, reading: Reading)
    decreases t
  {
    match t
    case Lit(c) => |w| == 1 && Fold(c, nocase) == Fold(w[0], nocase)
    case Star => true
    case Question => |w| == 1
    case Class(negate, items) => |w| == 1 && ClassMatches(items, w[0], nocase) != negate
    case Ext(kind, branches) =>
      match kind
      case At => AnyMatches(branches, w, nocase, reading)
      case Opt => w == "" || AnyMatches(branches, w, nocase, reading)
      case Many => Iterated(branches, w, nocase, reading)
      case Plus =>
        if reading.Implemented? then w != "" && Iterated(branches, w, nocase, reading)
        else exists k :: 0 <= k <= |w| && AnyMatches(branches, w[..k], nocase, reading)
                         && Iterated(branches, w[k..], nocase, reading)
      case Bang => !AnyMatches(branches, w, nocase, reading)
  }

  ghost predicate AnyMatches(branches: seq<Branch>, w: string, nocase: bool, reading: Reading)
    decreases branches, 0, 0
  {
    exists i :: 0 <= i < |branches| && Matches(branches[i].toks, w, nocase, reading)
  }

  /** Zero or more occurrences: a word cut into non-empty pieces, each matching a branch. */
  ghost predicate Iterated(branches: seq<Branch>, w: string, nocase: bool, reading: Reading)
    decreases branches, 1, |w|
  {
    w == "" ||
    exists k :: 0 < k <= |w| && AnyMatches(branches, w[..k], nocase, reading)
                && Iterated(branches, w[k..], nocase, reading)
  }

  // ----- the same language, read off positions of one text

  lemma SliceOfSlice(text: string, si: nat, e: nat, j: nat)
    requires si <= e <= |text| && j <= e - si
    ensures text[si..e][..j] == text[si..si + j] && text[si..e][j..] == text[si + j..e]
  {}

  /** Cutting a slice in two is cutting the text at a position inside it. */
  lemma CutAtPosition(p: string -> bool, q: string -> bool, text: string, si: nat, e: nat)
    requires si <= e <= |text|
    ensures (exists j :: 0 <= j <= |text[si..e]| && p(text[si..e][..j]) && q(text[si..e][j..]))
            <==> exists k :: si <= k <= e && p(text[si..k]) && q(text[k..e])
  {
    if j :| 0 <= j <= |text[si..e]| && p(text[si..e][..j]) && q(text[si..e][j..]) {
      SliceOfSlice(text, si, e, j);
      assert p(text[si..si + j]) && q(text[si + j..e]);
    }
    if k :| si <= k <= e && p(text[si..k]) && q(text[k..e]) {
      SliceOfSlice(text, si, e, k - si);
      assert p(text[si..e][..k - si]) && q(text[si..e][k - si..]);
    }
  }

  lemma MatchesAt(toks: seq<Tok>, text: string, si: nat, e: nat, nocase: bool)
    requires toks != [] && si <= e <= |text|
    ensures Matches(toks, text[si..e], nocase, Implemented) <==>
            exists k :: si <= k <= e && TokMatches(toks[0], text[si..k], nocase, Implemented)
                        && Matches(toks[1..], text[k..e], nocase, Implemented)
  {
    var p := (w: string) => TokMatches(toks[0], w, nocase, Implemented);
    var q := (w: string) => Matches(toks[1..], w, nocase, Implemented);
    CutAtPosition(p, q, text, si, e);
    assert forall k | si <= k <= e ::
        p(text[si..k]) && q(text[k..e])
        <==> TokMatches(toks[0], text[si..k], nocase, Implemented)
             && Matches(toks[1..], text[k..e], nocase, Implemented);
  }

  lemma IteratedAt(branches: seq<Branch>, text: string, si: nat, m: nat, e: nat, nocase: bool)
    requires si < m <= e <= |text|
    requires AnyMatches(branches, text[si..m], nocase, Implemented)
    requires Iterated(branches, text[m..e], nocase, Implemented)
    ensures Iterated(branches, text[si..e], nocase, Implemented)
  {
    SliceOfSlice(text, si, e, m - si);
  }

  /** Pieces may also be added at the end. */
  lemma {:induction false} IteratedSnoc(branches: seq<Branch>, text: string, si: nat, m: nat, e: nat, nocase: bool)
    requires si <= m < e <= |text|
    requires Iterated(branches, text[si..m], nocase, Implemented)
    requires AnyMatches(branches, text[m..e], nocase, Implemented)
    ensures Iterated(branches, text[si..e], nocase, Implemented)
    decreases m - si
  {
    if si == m {
      assert text[e..e] == "";
      IteratedAt(branches, text, si, e, e, nocase);
    } else {
      var j := IteratedSplits(branches, text, si, m, nocase);
      IteratedSnoc(branches, text, j, m, e, nocase);
      IteratedAt(branches, text, si, j, e, nocase);
    }
  }

  /** Every forward occurrence from a position of the set ends in the set. */
  ghost predicate Closed(branches: seq<Branch>, text: string, nocase: bool, ps: set<nat>) {
    forall c, d :: c in ps && c < d <= |text| && AnyMatches(branches, text[c..d], nocase, Implemented) ==> d in ps
  }

  lemma IteratedSplits(branches: seq<Branch>, text: string, si: nat, e: nat, nocase: bool) returns (m: nat)
    requires si < e <= |text| && Iterated(branches, text[si..e], nocase, Implemented)
    ensures si < m <= e && AnyMatches(branches, text[si..m], nocase, Implemented)
            && Iterated(branches, text[m..e], nocase, Implemented)
  {
    var p := (w: string) => w != "" && AnyMatches(branches, w, nocase, Implemented);
    var q := (w: string) => Iterated(branches, w, nocase, Implemented);
    CutAtPosition(p, q, text, si, e);
    var w := text[si..e];
    var j :| 0 < j <= |w| && AnyMatches(branches, w[..j], nocase, Implemented)
             && Iterated(branches, w[j..], nocase, Implemented);
    assert p(w[..j]) && q(w[j..]);
    m :| si <= m <= e && p(text[si..m]) && q(text[m..e]);
  }

  /** A closed set that holds `si` holds every iterate of `si`. */
  lemma {:induction false} ClosedHoldsIterates(branches: seq<Branch>, text: string, si: nat, e: nat, nocase: bool,
                                               closed: set<nat>)
    requires si <= e <= |text| && si in closed && Closed(branches, text, nocase, closed)
    requires Iterated(branches, text[si..e], nocase, Implemented)
    ensures e in closed
    decreases e - si
  {
    if si < e {
      var m := IteratedSplits(branches, text, si, e, nocase);
      ClosedHoldsIterates(branches, text, m, e, nocase, closed);
    }
  }

  // ----- the matcher

  function Positions(lo: nat, hi: nat): (ps: set<nat>)
    ensures forall k :: k in ps <==> lo <= k <= hi
    decreases hi - lo
  {
    if lo > hi then {} else {lo} + Positions(lo + 1, hi)
  }

  /** Every end position of a match of `toks[ti..]` that starts at `si`, and nothing else. */
  method CollectMatchEnds(toks: seq<Tok>, ti: nat, text: string, si: nat, nocase: bool) returns (out: set<nat>)
    requires ti <= |toks| && si <= |text|
    ensures forall e :: e in out <==> si <= e <= |text| && Matches(toks[ti..], text[si..e], nocase, Implemented)
    decreases toks, |toks| - ti
  {
    if ti >= |toks| {
      assert text[si..si] == "";
      return {si};
    }
    assert toks[ti..][0] == toks[ti] && toks[ti..][1..] == toks[ti + 1..];
    forall e | si <= e <= |text| {
      MatchesAt(toks[ti..], text, si, e, nocase);
    }
    var candidates := TokEnds(toks[ti], text, si, nocase);
    out := {};
    var rest := candidates;
    while rest != {}
      invariant rest <= candidates
      invariant forall e :: e in out <==>
        exists k :: k in candidates - rest && k <= e <= |text|
                    && Matches(toks[ti + 1..], text[k..e], nocase, Implemented)
      decreases rest
    {
      var k :| k in rest;
      var ends := CollectMatchEnds(toks, ti + 1, text, k, nocase);
      out := out + ends;
      assert candidates - (rest - {k}) == (candidates - rest) + {k};
      rest := rest - {k};
    }
    assert candidates - rest == candidates;
  }

  /** The end positions one token can reach from `si`. */
  method TokEnds(t: Tok, text: string, si: nat, nocase: bool) returns (out: set<nat>)
    requires si <= |text|
    ensures forall e :: e in out <==> si <= e <= |text| && TokMatches(t, text[si..e], nocase, Implemented)
    decreases t, 1
  {
    match t
    case Lit(c) =>
      out := if si < |text| && Fold(c, nocase) == Fold(text[si], nocase) then {si + 1} else {};
    case Question =>
      out := if si < |text| then {si + 1} else {};
    case Class(negate, items) =>
      out := if si < |text| && ClassMatches(items, text[si], nocase) != negate then {si + 1} else {};
    case Star =>
      out := Positions(si, |text|);
    case Ext(kind, branches) =>
      out := EnumerateExtEnds(t, text, si, nocase);
  }

  /** The end positions of one occurrence of any branch. */
  method OneStep(branches: seq<Branch>, text: string, from: nat, nocase: bool) returns (ends: set<nat>)
    requires from <= |text|
    ensures forall e :: e in ends <==> from <= e <= |text| && AnyMatches(branches, text[from..e], nocase, Implemented)
    decreases branches, 0
  {
    ends := {};
    for i := 0 to |branches|
      invariant forall e :: e in ends <==>
        (from <= e <= |text| && exists b :: 0 <= b < i && Matches(branches[b].toks, text[from..e], nocase, Implemented))
    {
      var r := CollectMatchEnds(branches[i].toks, 0, text, from, nocase);
      assert branches[i].toks[0..] == branches[i].toks;
      ends := ends + r;
    }
  }

  method EnumerateExtEnds(t: Tok, text: string, si: nat, nocase: bool) returns (ends: set<nat>)
    requires t.Ext? && si <= |text|
    ensures forall e :: e in ends <==> si <= e <= |text| && TokMatches(t, text[si..e], nocase, Implemented)
    decreases t, 0
  {
    var first := OneStep(t.branches, text, si, nocase);
    match t.kind
    case At => ends := first;
    case Opt => ends := first + {si};
    case Bang => ends := Positions(si, |text|) - first;
    case Many =>
      ends := ForwardClosure(t.branches, text, si, first, nocase);
      ends := ends + {si};
    case Plus =>
      ends := ForwardClosure(t.branches, text, si, first, nocase);
  }

  /** The work list of `*(p)` and `+(p)`: positions after one or more forward occurrences. */
  method ForwardClosure(branches: seq<Branch>, text: string, si: nat, first: set<nat>, nocase: bool)
    returns (ends: set<nat>)
    requires si <= |text|
    requires forall e :: e in first <==> si <= e <= |text| && AnyMatches(branches, text[si..e], nocase, Implemented)
    ensures forall e :: e in ends <==> si < e <= |text| && Iterated(branches, text[si..e], nocase, Implemented)
    decreases branches, 1
  {
    var seen: set<nat> := set e | e in first && e > si;
    var frontier: set<nat> := seen;
    ends := {};
    assert text[si..si] == "";
    forall e | e in seen ensures Iterated(branches, text[si..e], nocase, Implemented) {
      IteratedSnoc(branches, text, si, si, e, nocase);
    }
    while frontier != {}
      invariant seen == ends + frontier && ends !! frontier
      invariant forall e :: e in seen ==> si < e <= |text| && Iterated(branches, text[si..e], nocase, Implemented)
      invariant forall e :: e in first && e > si ==> e in seen
      invariant forall c, d :: c in ends && c < d <= |text| && AnyMatches(branches, text[c..d], nocase, Implemented)
                               ==> d in seen
      decreases Positions(si, |text|) - ends
    {
      var c :| c in frontier;
      var next := OneStep(branches, text, c, nocase);
      var unseen: set<nat> := set e | e in next && e > c && e !in seen;
      forall e | e in unseen ensures Iterated(branches, text[si..e], nocase, Implemented) {
        IteratedSnoc(branches, text, si, c, e, nocase);
      }
      assert c in Positions(si, |text|) - ends;
      ends := ends + {c};
      seen := seen + unseen;
      frontier := frontier - {c} + unseen;
    }
    forall e | si < e <= |text| && Iterated(branches, text[si..e], nocase, Implemented) ensures e in ends {
      ClosedHoldsIterates(branches, text, si, e, nocase, ends + {si});
    }
  }

  /** Anchored match: the pattern matches the whole text. */
  method Fnmatch(toks: seq<Tok>, text: string, nocase: bool) returns (matched: bool)
    ensures matched <==> Matches(toks, text, nocase, Implemented)
  {
    var ends := CollectMatchEnds(toks, 0, text, 0, nocase);
    assert toks[0..] == toks && text[0..|text|] == text;
    matched := |text| in ends;
  }

  // ----- the two readings of `+(p)`

  /** No `+(p)` anywhere in the pattern has a branch that matches the empty word. */
  ghost predicate PlusSafe(toks: seq<Tok>, nocase: bool)
    decreases toks
  {
    forall i :: 0 <= i < |toks| ==> TokPlusSafe(toks[i], nocase)
  }

  ghost predicate TokPlusSafe(t: Tok, nocase: bool)
    decreases t
  {
    t.Ext? ==>
      && (forall i :: 0 <= i < |t.branches| ==> PlusSafe(t.branches[i].toks, nocase))
      && (t.kind.Plus? ==> !AnyMatches(t.branches, "", nocase, Documented))
  }

  /** On such patterns the matcher decides the documented language, for every word. */
  lemma {:induction false} ReadingsAgree(toks: seq<Tok>, w: string, nocase: bool)
    requires PlusSafe(toks, nocase)
    ensures Matches(toks, w, nocase, Documented) <==> Matches(toks, w, nocase, Implemented)
    decreases toks
  {
    if toks != [] {
      forall k | 0 <= k <= |w|
        ensures TokMatches(toks[0], w[..k], nocase, Documented) <==> TokMatches(toks[0], w[..k], nocase, Implemented)
        ensures Matches(toks[1..], w[k..], nocase, Documented) <==> Matches(toks[1..], w[k..], nocase, Implemented)
      {
        TokReadingsAgree(toks[0], w[..k], nocase);
        ReadingsAgree(toks[1..], w[k..], nocase);
      }
    }
  }

  lemma {:induction false} TokReadingsAgree(t: Tok, w: string, nocase: bool)
    requires TokPlusSafe(t, nocase)
    ensures TokMatches(t, w, nocase, Documented) <==> TokMatches(t, w, nocase, Implemented)
    decreases t
  {
    if t.Ext? {
      AnyReadingsAgree(t.branches, w, nocase);
      IteratedReadingsAgree(t.branches, w, nocase);
      if t.kind.Plus? {
        assert w[..0] == "";
        forall k | 0 <= k <= |w| ensures w[k..] == "" ==> k == |w| {}
        forall k | 0 <= k <= |w| ensures w[..k] == "" ==> k == 0 {}
      }
    }
  }

  lemma {:induction false} AnyReadingsAgree(branches: seq<Branch>, w: string, nocase: bool)
    requires forall i :: 0 <= i < |branches| ==> PlusSafe(branches[i].toks, nocase)
    ensures AnyMatches(branches, w, nocase, Documented) <==> AnyMatches(branches, w, nocase, Implemented)
    decreases branches, 0, 0
  {
    forall i | 0 <= i < |branches|
      ensures Matches(branches[i].toks, w, nocase, Documented) <==> Matches(branches[i].toks, w, nocase, Implemented)
    {
      ReadingsAgree(branches[i].toks, w, nocase);
    }
  }

  lemma {:induction false} IteratedReadingsAgree(branches: seq<Branch>, w: string, nocase: bool)
    requires forall i :: 0 <= i < |branches| ==> PlusSafe(branches[i].toks, nocase)
    ensures Iterated(branches, w, nocase, Documented) <==> Iterated(branches, w, nocase, Implemented)
    decreases branches, 1, |w|
  {
    forall k | 0 < k <= |w|
      ensures AnyMatches(branches, w[..k], nocase, Documented) <==> AnyMatches(branches, w[..k], nocase, Implemented)
      ensures Iterated(branches, w[k..], nocase, Documented) <==> Iterated(branches, w[k..], nocase, Implemented)
    {
      AnyReadingsAgree(branches, w[..k], nocase);
      IteratedReadingsAgree(branches, w[k..], nocase);
    }
  }

  /** The exact condition for one `+(p)`: the matcher agrees on all words iff no branch matches the empty one. */
  lemma PlusAgreesExactly(branches: seq<Branch>, nocase: bool)
    requires forall i :: 0 <= i < |branches| ==> PlusSafe(branches[i].toks, nocase)
    ensures (forall w :: TokMatches(Ext(Plus, branches), w, nocase, Documented)
                         <==> TokMatches(Ext(Plus, branches), w, nocase, Implemented))
            <==> !AnyMatches(branches, "", nocase, Documented)
  {
    var t := Ext(Plus, branches);
    if AnyMatches(branches, "", nocase, Documented) {
      var w := "";
      assert w[..0] == "" && w[0..] == "";
      assert Iterated(branches, w[0..], nocase, Documented);
      assert TokMatches(t, w, nocase, Documented);
      assert !TokMatches(t, w, nocase, Implemented) by { assert t.kind.Plus? && w == ""; }
    } else {
      forall w ensures TokMatches(t, w, nocase, Documented) <==> TokMatches(t, w, nocase, Implemented) {
        TokReadingsAgree(t, w, nocase);
      }
    }
  }

  /** `+(|a)` documents a match of the empty text; the matcher refuses it. */
  lemma PlusMissesEmptyText()
    ensures var toks := [Ext(Plus, [Branch([]), Branch([Lit('a')])])];
            Matches(toks, "", false, Documented) && !Matches(toks, "", false, Implemented)
  {
    var branches := [Branch([]), Branch([Lit('a')])];
    var t := Ext(Plus, branches);
    var toks := [t];
    var w := "";
    assert w[..0] == "" && w[0..] == "" && toks[0] == t && toks[1..] == [];
    assert Matches(branches[0].toks, w, false, Documented);
    assert TokMatches(t, w, false, Documented);
    assert !TokMatches(t, w, false, Implemented);
  }

  // ----- removing a matching prefix or suffix

  /** The part `k` cuts off (before `k` for a prefix, after it for a suffix) matches. */
  ghost predicate Hit(toks: seq<Tok>, s: string, prefix: bool, nocase: bool, k: nat)
    requires k <= |s|
  {
    Matches(toks, if prefix then s[..k] else s[k..], nocase, Implemented)
  }

  /** `r` is `s` less its longest or shortest matching prefix or suffix, or `s` when there is none. */
  ghost predicate Removed(toks: seq<Tok>, s: string, prefix: bool, longest: bool, nocase: bool, r: string) {
    if exists k: nat :: k <= |s| && Hit(toks, s, prefix, nocase, k) then
      exists k: nat ::
        && k <= |s| && Hit(toks, s, prefix, nocase, k)
        && r == (if prefix then s[k..] else s[..k])
        && forall j: nat :: j <= |s| && Hit(toks, s, prefix, nocase, j) ==> if prefix == longest then j <= k else k <= j
    else r == s
  }

  predicate AllLiteral(toks: seq<Tok>) {
    forall i :: 0 <= i < |toks| ==> toks[i].Lit?
  }

  /** `s` and the literal pattern agree, letter for letter, up to case folding. */
  predicate LiteralEq(toks: seq<Tok>, s: string, nocase: bool)
    requires AllLiteral(toks)
  {
    |s| == |toks| && forall i :: 0 <= i < |s| ==> Fold(toks[i].c, nocase) == Fold(s[i], nocase)
  }

  lemma {:induction false} LiteralLanguage(toks: seq<Tok>, w: string, nocase: bool)
    requires AllLiteral(toks)
    ensures Matches(toks, w, nocase, Implemented) <==> LiteralEq(toks, w, nocase)
    decreases toks
  {
    if toks != [] {
      forall k | 0 <= k <= |w|
        ensures Matches(toks[1..], w[k..], nocase, Implemented) <==> LiteralEq(toks[1..], w[k..], nocase)
      {
        LiteralLanguage(toks[1..], w[k..], nocase);
      }
      if LiteralEq(toks, w, nocase) {
        assert w[..1] == [w[0]];
        assert forall i :: 0 <= i < |w[1..]| ==> toks[1..][i] == toks[i + 1] && w[1..][i] == w[i + 1];
        assert TokMatches(toks[0], w[..1], nocase, Implemented) && LiteralEq(toks[1..], w[1..], nocase);
      }
      if Matches(toks, w, nocase, Implemented) {
        var k :| 0 <= k <= |w| && TokMatches(toks[0], w[..k], nocase, Implemented)
                 && Matches(toks[1..], w[k..], nocase, Implemented);
        assert k == 1;
        forall i | 0 <= i < |w| ensures Fold(toks[i].c, nocase) == Fold(w[i], nocase) {
          if i > 0 { assert toks[1..][i - 1] == toks[i] && w[1..][i - 1] == w[i]; }
        }
      }
    }
  }

  /** A literal pattern can only hit at its own length. */
  lemma LiteralHits(toks: seq<Tok>, s: string, prefix: bool, nocase: bool, k: nat)
    requires AllLiteral(toks) && k <= |s|
    ensures Hit(toks, s, prefix, nocase, k) ==> k == if prefix then |toks| else |s| - |toks|
    ensures Hit(toks, s, prefix, nocase, k) <==> LiteralEq(toks, if prefix then s[..k] else s[k..], nocase)
  {
    LiteralLanguage(toks, if prefix then s[..k] else s[k..], nocase);
  }

  /**
   `${v#p}`, `${v##p}`, `${v%p}` and `${v%%p}`.  `fast` says whether the pattern text
   had no glob character, which lets an all-literal pattern skip the matcher.
   */
  method RemovePattern(s: string, toks: seq<Tok>, prefix: bool, longest: bool, nocase: bool, fast: bool)
    returns (r: string)
    ensures Removed(toks, s, prefix, longest, nocase, r)
  {
    if fast && AllLiteral(toks) {
      forall k: nat | k <= |s| {
        LiteralHits(toks, s, prefix, nocase, k);
      }
      if |toks| > |s| { return s; }
      var at := if prefix then |toks| else |s| - |toks|;
      if LiteralEq(toks, if prefix then s[..at] else s[at..], nocase) {
        assert Hit(toks, s, prefix, nocase, at);
        return if prefix then s[at..] else s[..at];
      }
      return s;
    }
    var hits := Hits(toks, s, prefix, nocase);
    if hits == {} { return s; }
    var k := Extreme(hits, prefix == longest);
    r := if prefix then s[k..] else s[..k];
  }

  /** Every place where a prefix (or suffix) match can be cut off. */
  method Hits(toks: seq<Tok>, s: string, prefix: bool, nocase: bool) returns (hits: set<nat>)
    ensures forall j: nat :: j in hits <==> j <= |s| && Hit(toks, s, prefix, nocase, j)
  {
    assert toks[0..] == toks;
    if prefix {
      hits := CollectMatchEnds(toks, 0, s, 0, nocase);
      assert forall k: nat :: k <= |s| ==> s[0..k] == s[..k];
      return;
    }
    hits := {};
    for k := 0 to |s| + 1
      invariant forall j: nat :: j in hits <==> j < k && Hit(toks, s, prefix, nocase, j)
    {
      var ends := CollectMatchEnds(toks, 0, s, k, nocase);
      assert s[k..|s|] == s[k..];
      if |s| in ends { hits := hits + {k}; }
    }
  }

  method Extreme(hits: set<nat>, largest: bool) returns (k: nat)
    requires hits != {}
    ensures k in hits && forall j :: j in hits ==> if largest then j <= k else k <= j
  {
    k :| k in hits;
    var rest := hits - {k};
    while rest != {}
      invariant rest <= hits && k in hits
      invariant forall j :: j in hits && j !in rest ==> if largest then j <= k else k <= j
      decreases rest
    {
      var j :| j in rest;
      rest := rest - {j};
      if (largest && j > k) || (!largest && j < k) { k := j; }
    }
  }

  // ----- replacing matches

  /** The end of the longest match at `i`, counting down from `hi`; `i` itself when no match moves forward. */
  ghost function LongestEnd(toks: seq<Tok>, s: string, i: nat, hi: nat, nocase: bool): (e: nat)
    requires i <= hi <= |s|
    ensures i <= e <= hi
    ensures i < e ==> Matches(toks, s[i..e], nocase, Implemented)
    ensures forall d :: e < d <= hi ==> !Matches(toks, s[i..d], nocase, Implemented)
  {
    if hi == i || Matches(toks, s[i..hi], nocase, Implemented) then hi else LongestEnd(toks, s, i, hi - 1, nocase)
  }

  /** Left to right, each longest non-empty match replaced (only the first when `once`), all else kept. */
  ghost function Substituted(toks: seq<Tok>, s: string, i: nat, nocase: bool, once: bool, rep: string -> string): string
    requires i <= |s|
    decreases |s| - i
  {
    if i == |s| then ""
    else
      var e := LongestEnd(toks, s, i, |s|, nocase);
      if e == i then [s[i]] + Substituted(toks, s, i + 1, nocase, once, rep)
      else rep(s[i..e]) + if once then s[e..] else Substituted(toks, s, e, nocase, once, rep)
  }

  /** The text with the part before or after `k` replaced. */
  function Patched(s: string, prefix: bool, k: nat, rep: string -> string): string
    requires k <= |s|
  {
    if prefix then rep(s[..k]) + s[k..] else s[..k] + rep(s[k..])
  }

  /** The longest match at one end of `s` replaced, or `s` itself. */
  ghost predicate AnchoredSubst(toks: seq<Tok>, s: string, prefix: bool, nocase: bool,
                                rep: string -> string, out: string) {
    if exists k: nat :: k <= |s| && Hit(toks, s, prefix, nocase, k) then
      exists k: nat ::
        && k <= |s| && Hit(toks, s, prefix, nocase, k)
        && out == Patched(s, prefix, k, rep)
        && forall j: nat :: j <= |s| && Hit(toks, s, prefix, nocase, j) ==> if prefix then j <= k else k <= j
    else out == s
  }

  /** `${v/#p/r}` and `${v/%p/r}`. */
  method SubstAnchored(s: string, toks: seq<Tok>, prefix: bool, nocase: bool, rep: string -> string)
    returns (out: string)
    ensures AnchoredSubst(toks, s, prefix, nocase, rep, out)
  {
    var hits := Hits(toks, s, prefix, nocase);
    if hits == {} { return s; }
    var k := Extreme(hits, prefix);
    out := Patched(s, prefix, k, rep);
  }

  /** The longest match at `i`, or `i`. */
  method LongestMatch(s: string, toks: seq<Tok>, i: nat, nocase: bool) returns (e: nat)
    requires i <= |s|
    ensures e == LongestEnd(toks, s, i, |s|, nocase)
  {
    var ends := CollectMatchEnds(toks, 0, s, i, nocase);
    assert toks[0..] == toks;
    ghost var longest := LongestEnd(toks, s, i, |s|, nocase);
    var forward: set<nat> := set e | e in ends && e > i;
    if forward == {} {
      assert longest > i ==> longest in forward;
      return i;
    }
    e := Extreme(forward, true);
    assert e in ends;
    assert longest > i ==> longest in forward;
  }

  /** The scan of a text for leftmost longest matches. */
  method SubstScan(s: string, toks: seq<Tok>, once: bool, nocase: bool, rep: string -> string) returns (out: string)
    ensures out == Substituted(toks, s, 0, nocase, once, rep)
  {
    out := "";
    var i := 0;
    ghost var rest := Substituted(toks, s, 0, nocase, once, rep);
    while i < |s|
      invariant 0 <= i <= |s|
      invariant rest == Substituted(toks, s, i, nocase, once, rep)
      invariant out + rest == Substituted(toks, s, 0, nocase, once, rep)
    {
      var e := LongestMatch(s, toks, i, nocase);
      if e > i && once { return out + (rep(s[i..e]) + s[e..]); }
      var piece := if e == i then [s[i]] else rep(s[i..e]);
      i := if e == i then i + 1 else e;
      ghost var tail := Substituted(toks, s, i, nocase, once, rep);
      assert rest == piece + tail;
      Regroup(out, piece, tail);
      out, rest := out + piece, tail;
    }
  }

  // ----- the path for literal patterns

  /** A literal stands at `i`. */
  predicate LiteralAt(toks: seq<Tok>, s: string, i: nat, nocase: bool)
    requires AllLiteral(toks)
  {
    i + |toks| <= |s| && LiteralEq(toks, s[i..i + |toks|], nocase)
  }

  /** The longest match of a literal is the literal. */
  lemma LiteralLongest(toks: seq<Tok>, s: string, i: nat, nocase: bool)
    requires AllLiteral(toks) && i <= |s|
    ensures LongestEnd(toks, s, i, |s|, nocase) == if LiteralAt(toks, s, i, nocase) then i + |toks| else i
  {
    var e := LongestEnd(toks, s, i, |s|, nocase);
    LiteralLanguage(toks, s[i..e], nocase);
    if LiteralAt(toks, s, i, nocase) { LiteralLanguage(toks, s[i..i + |toks|], nocase); }
  }

  lemma NoLiteralHere(toks: seq<Tok>, s: string, i: nat, nocase: bool, once: bool, rep: string -> string)
    requires AllLiteral(toks) && i < |s| && !LiteralAt(toks, s, i, nocase)
    ensures Substituted(toks, s, i, nocase, once, rep) == [s[i]] + Substituted(toks, s, i + 1, nocase, once, rep)
  {
    LiteralLongest(toks, s, i, nocase);
  }

  /** Where no literal starts, the text is kept. */
  lemma {:induction false} GapKept(toks: seq<Tok>, s: string, i: nat, j: nat, nocase: bool, once: bool,
                                   rep: string -> string)
    requires AllLiteral(toks) && i <= j <= |s|
    requires forall k :: i <= k < j ==> !LiteralAt(toks, s, k, nocase)
    ensures Substituted(toks, s, i, nocase, once, rep) == s[i..j] + Substituted(toks, s, j, nocase, once, rep)
    decreases j - i
  {
    if i < j {
      NoLiteralHere(toks, s, i, nocase, once, rep);
      GapKept(toks, s, i + 1, j, nocase, once, rep);
      HeadOff(s, i, j, Substituted(toks, s, j, nocase, once, rep));
    } else {
      assert s[i..j] == "";
    }
  }

  lemma HeadOff(s: string, i: nat, j: nat, t: string)
    requires i < j <= |s|
    ensures s[i..j] + t == [s[i]] + (s[i + 1..j] + t)
  {
    assert s[i..j] == [s[i]] + s[i + 1..j];
  }

  /** The first place at or after `from` where the literal stands, or the length of the text. */
  method FindLiteral(s: string, from: nat, toks: seq<Tok>, nocase: bool) returns (start: nat)
    requires AllLiteral(toks) && toks != [] && from <= |s|
    ensures from <= start <= |s| && forall k :: from <= k < start ==> !LiteralAt(toks, s, k, nocase)
    ensures start < |s| ==> LiteralAt(toks, s, start, nocase)
  {
    start := from;
    while start + |toks| <= |s|
      invariant from <= start <= |s| && forall k :: from <= k < start ==> !LiteralAt(toks, s, k, nocase)
    {
      if LiteralEq(toks, s[start..start + |toks|], nocase) { return; }
      start := start + 1;
    }
    start := |s|;
  }

  /** From one found literal to the next. */
  lemma NextLiteral(toks: seq<Tok>, s: string, i: nat, start: nat, nocase: bool, once: bool, rep: string -> string)
    requires AllLiteral(toks) && toks != [] && i <= start < |s| && LiteralAt(toks, s, start, nocase)
    requires forall k :: i <= k < start ==> !LiteralAt(toks, s, k, nocase)
    ensures var e := start + |toks|;
            Substituted(toks, s, i, nocase, once, rep)
            == s[i..start] + (rep(s[start..e]) + if once then s[e..] else Substituted(toks, s, e, nocase, once, rep))
  {
    GapKept(toks, s, i, start, nocase, once, rep);
    LiteralLongest(toks, s, start, nocase);
  }

  lemma NoLiteral(toks: seq<Tok>, s: string, i: nat, nocase: bool, once: bool, rep: string -> string)
    requires AllLiteral(toks) && i <= |s| && forall k :: i <= k < |s| ==> !LiteralAt(toks, s, k, nocase)
    ensures Substituted(toks, s, i, nocase, once, rep) == s[i..]
  {
    GapKept(toks, s, i, |s|, nocase, once, rep);
    assert s[i..|s|] == s[i..] && s[i..] + "" == s[i..];
  }

  lemma {:induction false} EmptyPatternKeeps(s: string, i: nat, nocase: bool, once: bool, rep: string -> string)
    requires i <= |s|
    ensures Substituted([], s, i, nocase, once, rep) == s[i..]
    decreases |s| - i
  {
    if i < |s| {
      EmptyPatternKeeps(s, i + 1, nocase, once, rep);
      assert s[i..] == [s[i]] + s[i + 1..];
    }
  }

  /** The output so far and the substitution of what is left make up `whole`. */
  ghost predicate Midway(out: string, i: nat, whole: string, toks: seq<Tok>, s: string, nocase: bool, once: bool,
                         rep: string -> string)
  {
    i <= |s| && out + Substituted(toks, s, i, nocase, once, rep) == whole
  }

  /** One found literal moved from the rest of the text to the output. */
  lemma LiteralMoved(out: string, i: nat, start: nat, moved: string, whole: string, toks: seq<Tok>,
                     s: string, nocase: bool,
                     once: bool, rep: string -> string)
    requires AllLiteral(toks) && toks != [] && i <= start < |s| && LiteralAt(toks, s, start, nocase)
    requires forall k :: i <= k < start ==> !LiteralAt(toks, s, k, nocase)
    requires Midway(out, i, whole, toks, s, nocase, once, rep)
    requires moved == out + s[i..start] + rep(s[start..start + |toks|])
    ensures if once then moved + s[start + |toks|..] == whole
            else Midway(moved, start + |toks|, whole, toks, s, nocase, once, rep)
  {
    var e := start + |toks|;
    var rest := if once then s[e..] else Substituted(toks, s, e, nocase, once, rep);
    NextLiteral(toks, s, i, start, nocase, once, rep);
    Regroup(out, s[i..start], rep(s[start..e]) + rest);
    Regroup(out + s[i..start], rep(s[start..e]), rest);
  }

  /** The scan for a literal gives what the scan with the matcher gives. */
  method LiteralScan(s: string, toks: seq<Tok>, once: bool, nocase: bool, rep: string -> string) returns (out: string)
    requires AllLiteral(toks)
    ensures out == Substituted(toks, s, 0, nocase, once, rep)
  {
    if toks == [] {
      EmptyPatternKeeps(s, 0, nocase, once, rep);
      return s;
    }
    out := "";
    ghost var whole := Substituted(toks, s, 0, nocase, once, rep);
    assert out + whole == whole;
    var cursor := 0;
    var start := FindLiteral(s, cursor, toks, nocase);
    while start < |s|
      invariant cursor <= start <= |s| && Midway(out, cursor, whole, toks, s, nocase, once, rep)
      invariant forall k :: cursor <= k < start ==> !LiteralAt(toks, s, k, nocase)
      invariant start < |s| ==> LiteralAt(toks, s, start, nocase)
      decreases |s| - cursor
    {
      var end := start + |toks|;
      var moved := out + s[cursor..start] + rep(s[start..end]);
      LiteralMoved(out, cursor, start, moved, whole, toks, s, nocase, once, rep);
      out, cursor := moved, end;
      if once { return out + s[cursor..]; }
      start := FindLiteral(s, cursor, toks, nocase);
    }
    NoLiteral(toks, s, cursor, nocase, once, rep);
    out := out + s[cursor..];
  }

  /** Replacing a literal at one end of the text. */
  method LiteralAnchored(s: string, toks: seq<Tok>, prefix: bool, nocase: bool, rep: string -> string)
    returns (out: string)
    requires AllLiteral(toks)
    ensures AnchoredSubst(toks, s, prefix, nocase, rep, out)
  {
    forall k: nat | k <= |s| {
      LiteralHits(toks, s, prefix, nocase, k);
    }
    if |toks| > |s| { return s; }
    var at := if prefix then |toks| else |s| - |toks|;
    if !LiteralEq(toks, if prefix then s[..at] else s[at..], nocase) { return s; }
    assert Hit(toks, s, prefix, nocase, at);
    out := Patched(s, prefix, at, rep);
  }

  // ----- all four modes

  datatype Mode = First | All | PrefixAnchored | SuffixAnchored

  predicate StarOnly(toks: seq<Tok>) {
    toks != [] && forall i :: 0 <= i < |toks| ==> IsStar(toks[i])
  }

  predicate IsStar(t: Tok) { t.Star? || (t.Ext? && t.kind.Many?) }

  lemma LiteralNotStars(toks: seq<Tok>)
    ensures AllLiteral(toks) ==> !StarOnly(toks)
  {
    if toks != [] && toks[0].Lit? { assert !IsStar(toks[0]); }
  }

  /** `out` is `s` with matches replaced as the mode says; stars replace an empty text too. */
  ghost predicate Replaced(toks: seq<Tok>, s: string, mode: Mode, nocase: bool, rep: string -> string, out: string) {
    if mode.PrefixAnchored? || mode.SuffixAnchored? then AnchoredSubst(toks, s, mode.PrefixAnchored?, nocase, rep, out)
    else if s == "" && StarOnly(toks) then out == rep("") && Matches(toks, s, nocase, Implemented)
    else out == Substituted(toks, s, 0, nocase, mode.First?, rep)
  }

  /** `${v/p/r}` in its four modes. `fast` says whether the pattern text had no glob character. */
  method PatSubst(s: string, toks: seq<Tok>, mode: Mode, nocase: bool, fast: bool, rep: string -> string)
    returns (out: string)
    ensures Replaced(toks, s, mode, nocase, rep, out)
  {
    var anchored := mode.PrefixAnchored? || mode.SuffixAnchored?;
    if fast && AllLiteral(toks) {
      if anchored {
        out := LiteralAnchored(s, toks, mode.PrefixAnchored?, nocase, rep);
      } else {
        LiteralNotStars(toks);
        out := LiteralScan(s, toks, mode.First?, nocase, rep);
      }
    } else if anchored {
      out := SubstAnchored(s, toks, mode.PrefixAnchored?, nocase, rep);
    } else if s == "" && StarOnly(toks) {
      StarsMatchEmpty(toks, nocase);
      out := rep("");
    } else {
      out := SubstScan(s, toks, mode.First?, nocase, rep);
    }
  }

  lemma {:induction false} StarsMatchEmpty(toks: seq<Tok>, nocase: bool)
    requires toks == [] || StarOnly(toks)
    ensures Matches(toks, "", nocase, Implemented)
    decreases toks
  {
    if toks != [] {
      StarsMatchEmpty(toks[1..], nocase);
      var w := "";
      assert w[..0] == "" && w[0..] == "" && TokMatches(toks[0], w[..0], nocase, Implemented);
    }
  }

  lemma Rejoin(s: string, i: nat, e: nat)
    requires i <= e <= |s|
    ensures s[i..e] + s[e..] == s[i..] && (e == i + 1 ==> s[i..e] == [s[i]])
  {}

  lemma {:induction false} ScanSelf(toks: seq<Tok>, s: string, i: nat, nocase: bool, once: bool, rep: string -> string)
    requires i <= |s| && forall m :: rep(m) == m
    ensures Substituted(toks, s, i, nocase, once, rep) == s[i..]
    decreases |s| - i
  {
    if i < |s| {
      var e := LongestEnd(toks, s, i, |s|, nocase);
      if e == i {
        ScanSelf(toks, s, i + 1, nocase, once, rep);
        Rejoin(s, i, i + 1);
      } else {
        ScanSelf(toks, s, e, nocase, once, rep);
        Rejoin(s, i, e);
      }
    }
  }

  lemma PatchedSelf(s: string, prefix: bool, k: nat, rep: string -> string)
    requires k <= |s| && forall m :: rep(m) == m
    ensures Patched(s, prefix, k, rep) == s
  {
    assert s[..k] + s[k..] == s;
  }

  lemma AnchoredSelf(toks: seq<Tok>, s: string, prefix: bool, nocase: bool, rep: string -> string, out: string)
    requires AnchoredSubst(toks, s, prefix, nocase, rep, out) && forall m :: rep(m) == m
    ensures out == s
  {
    forall k: nat | k <= |s| ensures Patched(s, prefix, k, rep) == s {
      PatchedSelf(s, prefix, k, rep);
    }
  }

  /** Replacing every match by itself changes nothing, for every pattern and mode. */
  lemma SubstituteSelf(toks: seq<Tok>, s: string, mode: Mode, nocase: bool, rep: string -> string, out: string)
    requires Replaced(toks, s, mode, nocase, rep, out) && forall m :: rep(m) == m
    ensures out == s
  {
    if mode.PrefixAnchored? || mode.SuffixAnchored? {
      AnchoredSelf(toks, s, mode.PrefixAnchored?, nocase, rep, out);
    } else if !(s == "" && StarOnly(toks)) {
      ScanSelf(toks, s, 0, nocase, mode.First?, rep);
    }
  }
}

/**
 The scanners that find the end of a subscript and the operator of an assignment word,
 stepping over quotes, backslashes and `$(...)`; and the C scanner for the same subscript.
 */
module Scanners {
  import opened Ascii
  import opened Option

  // ----- where each scan ends

  function QuoteFrom(b: string, i: nat): (r: nat)
    requires i <= |b|
    ensures i <= r <= |b| && (r < |b| ==> b[r] == '\'')
    decreases |b| - i
  {
    if i == |b| || b[i] == '\'' then i else QuoteFrom(b, i + 1)
  }

  lemma {:induction false} QuoteFromFirst(b: string, i: nat, k: nat)
    requires i <= k < |b| && b[k] == '\''
    ensures QuoteFrom(b, i) <= k
    decreases |b| - i
  {
    if i < k && b[i] != '\'' { QuoteFromFirst(b, i + 1, k); }
  }

  /** Past the single-quoted text that opens at `i`; the end of the text when it does not close. */
  function AfterSingle(b: string, i: nat): (r: nat)
    requires i < |b|
    ensures i < r <= |b|
  {
    var q := QuoteFrom(b, i + 1);
    if q < |b| then q + 1 else q
  }

  predicate SubstitutionAt(b: string, i: nat) {
    i + 1 < |b| && b[i] == '$' && b[i + 1] == '('
  }

  function AfterEscape(b: string, i: nat): (r: nat)
    requires i < |b|
    ensures i < r <= |b|
  {
    if i + 2 <= |b| then i + 2 else |b|
  }

  /** Past the double-quoted text whose content continues at `i`. */
  function DoubleFrom(b: string, i: nat): (r: nat)
    requires i <= |b|
    ensures i <= r <= |b|
    decreases |b| - i
  {
    if i == |b| then i
    else if b[i] == '\\' && i + 1 < |b| then DoubleFrom(b, i + 2)
    else if b[i] == '"' then i + 1
    else if SubstitutionAt(b, i) then DoubleFrom(b, BalancedFrom(b, i + 2, 1))
    else DoubleFrom(b, i + 1)
  }

  /** Past the closing parenthesis that brings `depth` to zero. */
  function BalancedFrom(b: string, i: nat, depth: nat): (r: nat)
    requires i <= |b|
    ensures i <= r <= |b|
    decreases |b| - i
  {
    if i == |b| || depth == 0 then i
    else if b[i] == '(' then BalancedFrom(b, i + 1, depth + 1)
    else if b[i] == ')' then BalancedFrom(b, i + 1, depth - 1)
    else if b[i] == '\'' then BalancedFrom(b, AfterSingle(b, i), depth)
    else if b[i] == '"' then BalancedFrom(b, DoubleFrom(b, i + 1), depth)
    else if b[i] == '\\' then BalancedFrom(b, AfterEscape(b, i), depth)
    else BalancedFrom(b, i + 1, depth)
  }

  /** The `]` that closes the subscript whose content continues at `i`, `depth` brackets deep. */
  function CloseFrom(b: string, i: nat, depth: nat): (r: Option<nat>)
    requires i <= |b| && depth > 0
    ensures r.Some? ==> i <= r.value < |b| && b[r.value] == ']'
    decreases |b| - i
  {
    if i == |b| then None
    else if b[i] == '[' then CloseFrom(b, i + 1, depth + 1)
    else if b[i] == ']' then if depth == 1 then Some(i) else CloseFrom(b, i + 1, depth - 1)
    else if b[i] == '\'' then CloseFrom(b, AfterSingle(b, i), depth)
    else if b[i] == '"' then CloseFrom(b, DoubleFrom(b, i + 1), depth)
    else if b[i] == '\\' then CloseFrom(b, AfterEscape(b, i), depth)
    else if SubstitutionAt(b, i) then CloseFrom(b, BalancedFrom(b, i + 2, 1), depth)
    else CloseFrom(b, i + 1, depth)
  }

  /** The `=` of an assignment word, and whether it is `+=`. */
  function OperatorFrom(b: string, i: nat): (r: Option<(nat, bool)>)
    requires i <= |b|
    ensures r.Some? ==> i <= r.value.0 < |b| && b[r.value.0] == '=' && (r.value.1 ==> r.value.0 > 0)
    decreases |b| - i
  {
    if i == |b| then None
    else if b[i] == '[' then
      var c := CloseFrom(b, i + 1, 1);
      if c == None then None else OperatorFrom(b, c.value + 1)
    else if b[i] == '=' then Some((i, i > 0 && b[i - 1] == '+'))
    else if b[i] == '\'' then OperatorFrom(b, AfterSingle(b, i))
    else if b[i] == '"' then OperatorFrom(b, DoubleFrom(b, i + 1))
    else if b[i] == '\\' then OperatorFrom(b, AfterEscape(b, i))
    else OperatorFrom(b, i + 1)
  }

  // ----- the loops

  method SkipSingleQuoted(b: string, start: nat) returns (i: nat)
    requires start < |b|
    ensures i == AfterSingle(b, start)
  {
    i := start + 1;
    while i < |b|
      invariant start < i <= |b| && QuoteFrom(b, i) == QuoteFrom(b, start + 1)
    {
      if b[i] == '\'' { return i + 1; }
      i := i + 1;
    }
  }

  method SkipDoubleQuoted(b: string, start: nat) returns (i: nat)
    requires start < |b|
    ensures i == DoubleFrom(b, start + 1) && start < i <= |b|
    decreases |b| - start, 0
  {
    i := start + 1;
    while i < |b|
      invariant start < i <= |b| && DoubleFrom(b, i) == DoubleFrom(b, start + 1)
    {
      if b[i] == '\\' && i + 1 < |b| { i := i + 2; }
      else if b[i] == '"' { return i + 1; }
      else if SubstitutionAt(b, i) { i := SkipBalancedPair(b, i + 2); }
      else { i := i + 1; }
    }
  }

  method SkipBalancedPair(b: string, start: nat) returns (i: nat)
    requires start <= |b|
    ensures i == BalancedFrom(b, start, 1) && start <= i <= |b|
    decreases |b| - start, 1
  {
    i := start;
    var depth := 1;
    while i < |b| && depth > 0
      invariant start <= i <= |b| && 0 <= depth && BalancedFrom(b, i, depth) == BalancedFrom(b, start, 1)
      decreases |b| - i
    {
      if b[i] == '(' { depth := depth + 1; i := i + 1; }
      else if b[i] == ')' { depth := depth - 1; i := i + 1; }
      else if b[i] == '\'' { i := SkipSingleQuoted(b, i); }
      else if b[i] == '"' { i := SkipDoubleQuoted(b, i); }
      else if b[i] == '\\' { i := AfterEscape(b, i); }
      else { i := i + 1; }
    }
  }

  /** The scan of `assignment_operator`: past the close. */
  method SkipAssignmentSubscript(b: string, start: nat) returns (r: Option<nat>)
    requires start < |b|
    ensures r == match CloseFrom(b, start + 1, 1) { case None => None case Some(c) => Some(c + 1) }
    ensures r.Some? ==> start < r.value <= |b|
  {
    var depth, i := 1, start + 1;
    while i < |b|
      invariant start < i <= |b| && depth > 0 && CloseFrom(b, i, depth) == CloseFrom(b, start + 1, 1)
    {
      if b[i] == '[' { depth := depth + 1; i := i + 1; }
      else if b[i] == ']' {
        depth := depth - 1;
        i := i + 1;
        if depth == 0 { return Some(i); }
      }
      else if b[i] == '\'' { i := SkipSingleQuoted(b, i); }
      else if b[i] == '"' { i := SkipDoubleQuoted(b, i); }
      else if b[i] == '\\' { i := AfterEscape(b, i); }
      else if SubstitutionAt(b, i) { i := SkipBalancedPair(b, i + 2); }
      else { i := i + 1; }
    }
    r := None;
  }

  /** The scan of `array_reference`: at the close. */
  method MatchingArrayClose(b: string, open: nat) returns (r: Option<nat>)
    requires open < |b|
    ensures r == CloseFrom(b, open + 1, 1)
  {
    var depth, i := 1, open + 1;
    while i < |b|
      invariant open < i <= |b| && depth > 0 && CloseFrom(b, i, depth) == CloseFrom(b, open + 1, 1)
    {
      if b[i] == '[' { depth := depth + 1; i := i + 1; }
      else if b[i] == ']' {
        depth := depth - 1;
        if depth == 0 { return Some(i); }
        i := i + 1;
      }
      else if b[i] == '\'' { i := SkipSingleQuoted(b, i); }
      else if b[i] == '"' { i := SkipDoubleQuoted(b, i); }
      else if b[i] == '\\' { i := AfterEscape(b, i); }
      else if SubstitutionAt(b, i) { i := SkipBalancedPair(b, i + 2); }
      else { i := i + 1; }
    }
    r := None;
  }

  method AssignmentOperator(b: string) returns (r: Option<(nat, bool)>)
    ensures r == OperatorFrom(b, 0)
  {
    var i := 0;
    while i < |b|
      invariant i <= |b| && OperatorFrom(b, i) == OperatorFrom(b, 0)
    {
      if b[i] == '[' {
        var next := SkipAssignmentSubscript(b, i);
        if next == None { return None; }
        i := next.value;
      }
      else if b[i] == '=' { return Some((i, i > 0 && b[i - 1] == '+')); }
      else if b[i] == '\'' { i := SkipSingleQuoted(b, i); }
      else if b[i] == '"' { i := SkipDoubleQuoted(b, i); }
      else if b[i] == '\\' { i := AfterEscape(b, i); }
      else { i := i + 1; }
    }
    r := None;
  }

  /** Both subscript scans find the same bracket, on every text: one stops at it, the other just past it. */
  method ScansAgree(b: string, open: nat) returns (past: Option<nat>, at: Option<nat>)
    requires open < |b|
    ensures (past == None <==> at == None) && (past.Some? ==> past.value == at.value + 1)
  {
    past := SkipAssignmentSubscript(b, open);
    at := MatchingArrayClose(b, open);
  }

  // ----- the C scanner

  /** The C automaton: one byte at a time, with the open quote or `'\0'`. */
  function SkipFrom(text: string, i: nat, depth: nat, quote: char): (r: Option<nat>)
    requires i <= |text|
    ensures r.Some? ==> i <= r.value < |text|
    decreases |text| - i
  {
    if i == |text| then None
    else if text[i] == '\\' && quote != '\'' then SkipFrom(text, AfterEscape(text, i), depth, quote)
    else if quote != '\0' then SkipFrom(text, i + 1, depth, if text[i] == quote then '\0' else quote)
    else if text[i] == '\'' || text[i] == '"' then SkipFrom(text, i + 1, depth, text[i])
    else if text[i] == '[' then SkipFrom(text, i + 1, depth + 1, quote)
    else if text[i] == ']' then if depth <= 1 then Some(i) else SkipFrom(text, i + 1, depth - 1, quote)
    else SkipFrom(text, i + 1, depth, quote)
  }

  /** `skipsubscript`; the terminating NUL is the end of `text`. */
  method SkipSubscript(text: string, start: nat) returns (r: nat)
    requires start <= |text| && '\0' !in text
    ensures r == match SkipFrom(text, start, 0, '\0') { case None => start case Some(c) => c }
  {
    var depth, quote := 0, '\0';
    var index := start;
    while index < |text|
      invariant start <= index <= |text| && 0 <= depth
      invariant SkipFrom(text, index, depth, quote) == SkipFrom(text, start, 0, '\0')
    {
      var byte := text[index];
      if byte == '\\' && quote != '\'' {
        if index + 1 < |text| { index := index + 1; }
      } else if quote != '\0' {
        if byte == quote { quote := '\0'; }
      } else if byte == '\'' || byte == '"' {
        quote := byte;
      } else if byte == '[' {
        depth := depth + 1;
      } else if byte == ']' {
        if depth <= 1 { return index; }
        depth := depth - 1;
      }
      index := index + 1;
    }
    r := start;
  }

  /** No `$(` starts from `i` up to `j`. */
  ghost predicate NoSubstitution(text: string, i: nat, j: nat) {
    forall k :: i <= k < j ==> !SubstitutionAt(text, k)
  }

  /** The bracket the shell's scanners find, or the end of the text when they find none. */
  function CloseOrEnd(text: string, i: nat, depth: nat): (r: nat)
    requires i <= |text| && depth > 0
    ensures i <= r <= |text|
  {
    var c := CloseFrom(text, i, depth);
    if c.Some? then c.value else |text|
  }

  lemma {:induction false} SkipInSingle(text: string, i: nat, depth: nat)
    requires i <= |text|
    ensures var q := QuoteFrom(text, i);
            SkipFrom(text, i, depth, '\'') == if q < |text| then SkipFrom(text, q + 1, depth, '\0') else None
    decreases |text| - i
  {
    if i < |text| && text[i] != '\'' { SkipInSingle(text, i + 1, depth); }
  }

  lemma {:induction false} SkipInDouble(text: string, i: nat, depth: nat)
    requires i <= |text| && NoSubstitution(text, i, DoubleFrom(text, i))
    ensures SkipFrom(text, i, depth, '"') == SkipFrom(text, DoubleFrom(text, i), depth, '\0')
    decreases |text| - i
  {
    if i < |text| {
      assert DoubleFrom(text, i) > i ==> !SubstitutionAt(text, i);
      if text[i] == '\\' { SkipInDouble(text, AfterEscape(text, i), depth); }
      else if text[i] != '"' && !SubstitutionAt(text, i) { SkipInDouble(text, i + 1, depth); }
    }
  }

  lemma {:induction false} SkipIsClose(text: string, i: nat, depth: nat)
    requires i <= |text| && depth > 0 && NoSubstitution(text, i, CloseOrEnd(text, i, depth))
    ensures SkipFrom(text, i, depth, '\0') == CloseFrom(text, i, depth)
    decreases |text| - i
  {
    if i < |text| {
      if text[i] == '\\' { SkipIsClose(text, AfterEscape(text, i), depth); }
      else if text[i] == '\'' {
        SkipInSingle(text, i + 1, depth);
        SkipIsClose(text, AfterSingle(text, i), depth);
      }
      else if text[i] == '"' {
        SkipInDouble(text, i + 1, depth);
        SkipIsClose(text, DoubleFrom(text, i + 1), depth);
      }
      else if text[i] == '[' { SkipIsClose(text, i + 1, depth + 1); }
      else if text[i] == ']' { if depth > 1 { SkipIsClose(text, i + 1, depth - 1); } }
      else {
        assert !SubstitutionAt(text, i);
        SkipIsClose(text, i + 1, depth);
      }
    }
  }

  /**
   From a `[`, the C scanner finds the bracket the shell's scanners find, or none when they find none, if no `$(` stands
   before that bracket, or before the end of the text when there is none.
   */
  lemma ScannersAgree(text: string, start: nat)
    requires start < |text| && text[start] == '[' && NoSubstitution(text, start + 1, CloseOrEnd(text, start + 1, 1))
    ensures SkipFrom(text, start, 0, '\0') == CloseFrom(text, start + 1, 1)
  {
    SkipIsClose(text, start + 1, 1);
  }

  /** Nothing that nests or quotes but brackets. */
  predicate Unquoted(w: string) {
    forall i :: 0 <= i < |w| ==> w[i] != '\'' && w[i] != '"' && w[i] != '\\' && w[i] != '(' && w[i] != ')'
  }

  /** How deep in brackets `w` ends that starts `depth` deep, or none when it closes the outermost. */
  function DepthAfter(w: string, depth: nat): Option<nat> {
    if w == "" then Some(depth)
    else if w[0] == '[' then DepthAfter(w[1..], depth + 1)
    else if w[0] == ']' then if depth <= 1 then None else DepthAfter(w[1..], depth - 1)
    else DepthAfter(w[1..], depth)
  }

  lemma {:induction false} SkipOver(text: string, i: nat, w: string, depth: nat)
    requires i + |w| <= |text| && text[i..i + |w|] == w && Unquoted(w) && depth > 0
    ensures var d, r := DepthAfter(w, depth), SkipFrom(text, i, depth, '\0');
            if d == None then r.Some? && r.value < i + |w|
            else d.value > 0 && r == SkipFrom(text, i + |w|, d.value, '\0')
    decreases |w|
  {
    if w != "" {
      assert text[i] == w[0] && text[i + 1..i + |w|] == w[1..];
      if w[0] == '[' { SkipOver(text, i + 1, w[1..], depth + 1); }
      else if w[0] == ']' { if depth > 1 { SkipOver(text, i + 1, w[1..], depth - 1); } }
      else { SkipOver(text, i + 1, w[1..], depth); }
    }
  }

  lemma {:induction false} BalancedOver(text: string, i: nat, w: string)
    requires i + |w| <= |text| && text[i..i + |w|] == w && Unquoted(w)
    ensures BalancedFrom(text, i, 1) == BalancedFrom(text, i + |w|, 1)
    decreases |w|
  {
    if w != "" {
      assert text[i] == w[0] && text[i + 1..i + |w|] == w[1..];
      BalancedOver(text, i + 1, w[1..]);
    }
  }

  /** A subscript that is one substitution, followed by anything. */
  function Substituted(w: string, rest: string): string { "[$(" + w + ")]" + rest }

  predicate IsSubstituted(text: string, w: string) {
    && |text| >= |w| + 5 && text[0] == '[' && text[1] == '$' && text[2] == '('
    && text[3..3 + |w|] == w && text[3 + |w|] == ')' && text[4 + |w|] == ']'
  }

  lemma SubstitutedAt(w: string, rest: string)
    ensures IsSubstituted(Substituted(w, rest), w)
  {}

  lemma SubstitutedClose(text: string, w: string)
    requires IsSubstituted(text, w) && Unquoted(w)
    ensures CloseFrom(text, 1, 1) == Some(|w| + 4)
  {
    BalancedOver(text, 3, w);
    assert BalancedFrom(text, 3 + |w|, 1) == BalancedFrom(text, 4 + |w|, 0) == 4 + |w|;
  }

  lemma SubstitutedSkip(text: string, w: string)
    requires IsSubstituted(text, w) && Unquoted(w)
    ensures SkipFrom(text, 0, 0, '\0') == Some(|w| + 4) <==> DepthAfter(w, 1) == Some(1)
  {
    var n := |w|;
    assert SkipFrom(text, 0, 0, '\0') == SkipFrom(text, 1, 1, '\0') == SkipFrom(text, 2, 1, '\0');
    assert SkipFrom(text, 2, 1, '\0') == SkipFrom(text, 3, 1, '\0');
    SkipOver(text, 3, w, 1);
    var d := DepthAfter(w, 1);
    if d.Some? { assert SkipFrom(text, 3 + n, d.value, '\0') == SkipFrom(text, 4 + n, d.value, '\0'); }
  }

  /**
   Past a substitution whose text has no quotes, backslashes or parentheses, the two find the same bracket if and only
   if the brackets in it pair up.
   */
  lemma SubstitutionExactly(w: string, rest: string)
    requires Unquoted(w)
    ensures var text := Substituted(w, rest);
            SkipFrom(text, 0, 0, '\0') == CloseFrom(text, 1, 1) <==> DepthAfter(w, 1) == Some(1)
  {
    SubstitutedAt(w, rest);
    SubstitutedClose(Substituted(w, rest), w);
    SubstitutedSkip(Substituted(w, rest), w);
  }

  /** With `$(` they part: in `[$(])]` the C scanner stops inside the substitution. */
  lemma SubstitutionParts()
    ensures var text := "[$(])]";
            SkipFrom(text, 0, 0, '\0') == Some(3) && CloseFrom(text, 1, 1) == Some(5)
  {
    var text := "[$(])]";
    assert SkipFrom(text, 3, 1, '\0') == Some(3);
    assert SkipFrom(text, 2, 1, '\0') == Some(3);
    assert SkipFrom(text, 1, 1, '\0') == Some(3);
    assert BalancedFrom(text, 5, 0) == 5;
    assert BalancedFrom(text, 4, 1) == 5;
    assert BalancedFrom(text, 3, 1) == 5;
    assert CloseFrom(text, 5, 1) == Some(5);
  }

  // ----- references and splits

  predicate IsNameStart(c: char) { IsAlpha(c) || c == '_' }

  predicate IsNameChar(c: char) { IsAlnum(c) || c == '_' }

  predicate IsValidName(s: string) {
    s != "" && IsNameStart(s[0]) && forall i :: 1 <= i < |s| ==> IsNameChar(s[i])
  }

  function FindOpen(s: string, i: nat): (r: nat)
    requires i <= |s|
    ensures i <= r <= |s| && (r < |s| ==> s[r] == '[') && forall k :: i <= k < r ==> s[k] != '['
    decreases |s| - i
  {
    if i == |s| || s[i] == '[' then i else FindOpen(s, i + 1)
  }

  /** `name[subscript]`, taken apart. */
  function ArrayReference(value: string): Option<(string, string)> {
    var open := FindOpen(value, 0);
    if open == |value| then None
    else
      var close := CloseFrom(value, open + 1, 1);
      if close == None || close.value + 1 != |value| || !IsValidName(value[..open]) then None
      else
        var subscript := value[open + 1..close.value];
        if subscript != "" && (subscript[0] == '[' || subscript[0] == ']')
        then None else Some((value[..open], subscript))
  }

  /** An assignment word split at its operator: left side, right side, and whether it appends. */
  function SplitAssignmentOp(value: string): Option<(string, string, bool)> {
    match OperatorFrom(value, 0)
    case None => None
    case Some((pos, append)) => Some((value[..if append then pos - 1 else pos], value[pos + 1..], append))
  }

  /** Splitting loses nothing: the two sides and the operator make up the word again. */
  lemma SplitRejoins(value: string)
    ensures var r := SplitAssignmentOp(value);
            r.Some? ==> value == r.value.0 + (if r.value.2 then "+=" else "=") + r.value.1
  {
    var op := OperatorFrom(value, 0);
    if op.Some? { AppendHasPlus(value, 0); }
  }

  lemma {:induction false} AppendHasPlus(b: string, i: nat)
    requires i <= |b|
    ensures var r := OperatorFrom(b, i); r.Some? && r.value.1 ==> r.value.0 > 0 && b[r.value.0 - 1] == '+'
    decreases |b| - i
  {
    if i < |b| {
      if b[i] == '[' {
        var c := CloseFrom(b, i + 1, 1);
        if c.Some? { AppendHasPlus(b, c.value + 1); }
      }
      else if b[i] == '=' {}
      else if b[i] == '\'' { AppendHasPlus(b, AfterSingle(b, i)); }
      else if b[i] == '"' { AppendHasPlus(b, DoubleFrom(b, i + 1)); }
      else if b[i] == '\\' { AppendHasPlus(b, AfterEscape(b, i)); }
      else { AppendHasPlus(b, i + 1); }
    }
  }
}

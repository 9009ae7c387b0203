/** The symbolic modes of `umask`: clauses such as `u=rw,go-x` applied to the allowed permissions. */
module Umask {
  import opened Option

  /** A mode word, as the set of its bit positions: 8 to 0 are rwx for user, group and other. */
  type Mode = set<nat>

  const ALL: Mode := {0, 1, 2, 3, 4, 5, 6, 7, 8}
  const USER: Mode := {6, 7, 8}
  const GROUP: Mode := {3, 4, 5}
  const OTHER: Mode := {0, 1, 2}
  const READ: Mode := {2, 5, 8}
  const WRITE: Mode := {1, 4, 7}
  const EXEC: Mode := {0, 3, 6}

  /** The three bits of one class, moved down to positions 2 to 0. */
  function ClassOf(m: Mode, shift: nat): Mode {
    set b | b in OTHER && b + shift in m
  }

  function ShiftLeft(m: Mode, n: nat): Mode {
    set b | b in m :: b + n
  }

  datatype SymbolicError = Character(c: char) | Operator(c: char)

  predicate IsOp(c: char) { c == '+' || c == '-' || c == '=' }

  function ClassBits(c: char): Mode {
    match c
    case 'u' => USER
    case 'g' => GROUP
    case 'o' => OTHER
    case 'a' => ALL
    case _ => {}
  }

  function CopyClassBits(bits: Mode, who: Mode): Mode {
    (if who * USER != {} then ShiftLeft(bits, 6) else {})
    + (if who * GROUP != {} then ShiftLeft(bits, 3) else {})
    + (if who * OTHER != {} then bits else {})
  }

  function PermBits(c: char, allowed: Mode, who: Mode): Result<Mode, SymbolicError> {
    match c
    case 'r' => Ok(READ)
    case 'w' => Ok(WRITE)
    case 'x' => Ok(EXEC)
    case 'X' => Ok(if allowed * EXEC != {} then EXEC else {})
    case 'u' => Ok(CopyClassBits(ClassOf(allowed, 6), who))
    case 'g' => Ok(CopyClassBits(ClassOf(allowed, 3), who))
    case 'o' => Ok(CopyClassBits(ClassOf(allowed, 0), who))
    case _ => Err(Character(c))
  }

  function ApplyOp(op: char, allowed: Mode, who: Mode, bits: Mode): Mode {
    if op == '+' then allowed + (bits * who)
    else if op == '-' then allowed - (bits * who)
    else (allowed - who) + (bits * who)
  }

  // ----- what a specification denotes

  /** The length of the class letters a clause starts with. */
  function WhoLength(clause: string): (n: nat)
    ensures n <= |clause|
    ensures n < |clause| ==> ClassBits(clause[n]) == {}
    ensures forall i :: 0 <= i < n ==> ClassBits(clause[i]) != {}
  {
    if clause == "" || ClassBits(clause[0]) == {} then 0 else 1 + WhoLength(clause[1..])
  }

  function WhoBits(letters: string): Mode {
    if letters == "" then {} else WhoBits(letters[..|letters| - 1]) + ClassBits(letters[|letters| - 1])
  }

  /** The classes a clause is about: those it names, or all. */
  function Who(clause: string): Mode {
    var bits := WhoBits(clause[..WhoLength(clause)]);
    if bits == {} then ALL else bits
  }

  /** The permission letters before the next operator, or the first letter that is none. */
  function Perms(s: string, allowed: Mode, who: Mode, acc: Mode): (r: Result<(Mode, string), SymbolicError>)
    ensures r.Ok? ==> |r.value.1| <= |s| && (r.value.1 == "" || IsOp(r.value.1[0]))
  {
    if s == "" || IsOp(s[0]) then Ok((acc, s))
    else
      match PermBits(s[0], allowed, who)
      case Err(e) => Err(e)
      case Ok(bits) => Perms(s[1..], allowed, who, acc + bits)
  }

  /** A run of operators, each with its permission letters. */
  function Operators(s: string, allowed: Mode, who: Mode): Result<Mode, SymbolicError>
    decreases |s|
  {
    if s == "" then Err(Operator('\0'))
    else if !IsOp(s[0]) then Err(Operator(s[0]))
    else
      match Perms(s[1..], allowed, who, {})
      case Err(e) => Err(e)
      case Ok((bits, rest)) =>
        var next := ApplyOp(s[0], allowed, who, bits);
        if rest == "" then Ok(next) else Operators(rest, next, who)
  }

  function Clause(clause: string, allowed: Mode): Result<Mode, SymbolicError> {
    if clause == "" then Err(Character('\0'))
    else Operators(clause[WhoLength(clause)..], allowed, Who(clause))
  }

  function Clauses(clauses: seq<string>, allowed: Mode): Result<Mode, SymbolicError> {
    if clauses == [] then Ok(allowed)
    else
      match Clause(clauses[0], allowed)
      case Err(e) => Err(e)
      case Ok(next) => Clauses(clauses[1..], next)
  }

  function Attach(c: char, pieces: seq<string>): seq<string>
    requires pieces != []
  {
    if c == ',' then [""] + pieces else [[c] + pieces[0]] + pieces[1..]
  }

  /** The pieces between commas; at least one. */
  function Split(spec: string): (r: seq<string>)
    ensures r != []
  {
    if spec == "" then [""] else Attach(spec[0], Split(spec[1..]))
  }

  /** The new mask; a mask holds the permissions that are not allowed. */
  function Applied(spec: string, current: Mode): Result<Mode, SymbolicError> {
    match Clauses(Split(spec), ALL - current)
    case Err(e) => Err(e)
    case Ok(allowed) => Ok(ALL - allowed)
  }

  // ----- the loops

  method ParseWho(clause: string) returns (n: nat, who: Mode)
    ensures n == WhoLength(clause) && who == Who(clause)
  {
    n, who := 0, {};
    while n < |clause| && ClassBits(clause[n]) != {}
      invariant n <= WhoLength(clause) && n + WhoLength(clause[n..]) == WhoLength(clause)
      invariant who == WhoBits(clause[..n])
    {
      who := who + ClassBits(clause[n]);
      assert clause[..n + 1][..n] == clause[..n] && clause[n..][1..] == clause[n + 1..];
      n := n + 1;
    }
    if who == {} { who := ALL; }
  }

  method ParsePerms(s: string, allowed: Mode, who: Mode) returns (r: Result<(Mode, string), SymbolicError>)
    ensures r == Perms(s, allowed, who, {})
  {
    var acc: Mode := {};
    var i := 0;
    while i < |s| && !IsOp(s[i])
      invariant i <= |s|
      invariant Perms(s[i..], allowed, who, acc) == Perms(s, allowed, who, {})
    {
      assert s[i..][1..] == s[i + 1..];
      match PermBits(s[i], allowed, who) {
        case Err(e) => return Err(e);
        case Ok(bits) => acc := acc + bits;
      }
      i := i + 1;
    }
    r := Ok((acc, s[i..]));
  }

  method ApplyClause(clause: string, start: Mode) returns (r: Result<Mode, SymbolicError>)
    ensures r == Clause(clause, start)
  {
    if clause == "" { return Err(Character('\0')); }
    var n, who := ParseWho(clause);
    var rest, allowed := clause[n..], start;
    while true
      invariant Operators(rest, allowed, who) == Clause(clause, start)
      decreases |rest|
    {
      if rest == "" { return Err(Operator('\0')); }
      if !IsOp(rest[0]) { return Err(Operator(rest[0])); }
      var perms := ParsePerms(rest[1..], allowed, who);
      if perms.Err? { return Err(perms.error); }
      allowed := ApplyOp(rest[0], allowed, who, perms.value.0);
      rest := perms.value.1;
      if rest == "" { return Ok(allowed); }
    }
  }

  method ApplySymbolic(spec: string, current: Mode) returns (r: Result<Mode, SymbolicError>)
    ensures r == Applied(spec, current)
  {
    var allowed := ALL - current;
    var clauses := Split(spec);
    for i := 0 to |clauses|
      invariant Clauses(clauses[i..], allowed) == Clauses(clauses, ALL - current)
    {
      assert clauses[i..][1..] == clauses[i + 1..];
      var next := ApplyClause(clauses[i], allowed);
      if next.Err? { return Err(next.error); }
      allowed := next.value;
    }
    r := Ok(ALL - allowed);
  }

  // ----- properties

  lemma AttachConcat(c: char, a: seq<string>, b: seq<string>)
    requires a != []
    ensures Attach(c, a + b) == Attach(c, a) + b
  {
    assert (a + b)[0] == a[0] && (a + b)[1..] == a[1..] + b;
  }

  lemma {:induction false} SplitAtComma(s1: string, s2: string)
    ensures Split(s1 + "," + s2) == Split(s1) + Split(s2)
  {
    var s := s1 + "," + s2;
    if s1 == "" {
      assert s[0] == ',' && s[1..] == s2;
    } else {
      SplitAtComma(s1[1..], s2);
      assert s[1..] == s1[1..] + "," + s2 && s[0] == s1[0];
      AttachConcat(s1[0], Split(s1[1..]), Split(s2));
    }
  }

  lemma {:induction false} ClausesConcat(a: seq<string>, b: seq<string>, allowed: Mode)
    ensures Clauses(a + b, allowed) ==
            match Clauses(a, allowed) { case Err(e) => Err(e) case Ok(next) => Clauses(b, next) }
  {
    if a == [] {
      assert a + b == b;
    } else {
      assert (a + b)[1..] == a[1..] + b;
      match Clause(a[0], allowed)
      case Err(e) =>
      case Ok(next) => ClausesConcat(a[1..], b, next);
    }
  }

  lemma WhoWithinAll(clause: string)
    ensures Who(clause) <= ALL
  {
    WhoBitsWithinAll(clause[..WhoLength(clause)]);
  }

  lemma {:induction false} WhoBitsWithinAll(letters: string)
    ensures WhoBits(letters) <= ALL
  {
    if letters != "" { WhoBitsWithinAll(letters[..|letters| - 1]); }
  }

  lemma {:induction false} OperatorsKeepOutside(s: string, allowed: Mode, who: Mode)
    ensures var r := Operators(s, allowed, who); r.Ok? ==> r.value - who == allowed - who
    decreases |s|
  {
    if s != "" && IsOp(s[0]) {
      var perms := Perms(s[1..], allowed, who, {});
      if perms.Ok? {
        var next := ApplyOp(s[0], allowed, who, perms.value.0);
        assert next - who == allowed - who;
        OperatorsKeepOutside(perms.value.1, next, who);
      }
    }
  }

  /** A clause changes nothing outside the classes it is about. */
  lemma ClauseFrame(clause: string, allowed: Mode)
    ensures var r := Clause(clause, allowed); r.Ok? ==> r.value - Who(clause) == allowed - Who(clause)
  {
    OperatorsKeepOutside(clause[WhoLength(clause)..], allowed, Who(clause));
  }

  lemma {:induction false} ClausesStayWithin(clauses: seq<string>, allowed: Mode)
    requires allowed <= ALL
    ensures var r := Clauses(clauses, allowed); r.Ok? ==> r.value <= ALL
  {
    if clauses != [] {
      var next := Clause(clauses[0], allowed);
      if next.Ok? {
        ClauseFrame(clauses[0], allowed);
        WhoWithinAll(clauses[0]);
        var who := Who(clauses[0]);
        assert next.value <= (next.value - who) + who;
        ClausesStayWithin(clauses[1..], next.value);
      }
    }
  }

  /** A comma is sequencing, for all specifications: `s1,s2` is `s1` then `s2`, and the first error wins. */
  lemma CommaIsSequence(s1: string, s2: string, current: Mode)
    ensures Applied(s1 + "," + s2, current) ==
            match Applied(s1, current) { case Err(e) => Err(e) case Ok(next) => Applied(s2, next) }
  {
    SplitAtComma(s1, s2);
    var allowed := ALL - current;
    ClausesConcat(Split(s1), Split(s2), allowed);
    ClausesStayWithin(Split(s1), allowed);
    var first := Clauses(Split(s1), allowed);
    if first.Ok? { assert ALL - (ALL - first.value) == first.value; }
  }

  // ----- printing

  function Letters(bits: Mode): string {
    (if 2 in bits then "r" else "") + ((if 1 in bits then "w" else "") + (if 0 in bits then "x" else ""))
  }

  /** The allowed permissions, class by class, as `umask -S` prints them. */
  function FormatSymbolic(mask: Mode): string {
    var allowed := ALL - mask;
    "u=" + Letters(ClassOf(allowed, 6)) + "," + ("g=" + Letters(ClassOf(allowed, 3)) + "," +
        ("o=" + Letters(ClassOf(allowed, 0))))
  }

  /** The permissions printed letters stand for, in every class. */
  function LetterBits(bits: Mode): Mode {
    (if 2 in bits then READ else {}) + (if 1 in bits then WRITE else {}) + (if 0 in bits then EXEC else {})
  }

  lemma PrintedLetters(bits: Mode, allowed: Mode, who: Mode)
    ensures Perms(Letters(bits), allowed, who, {}) == Ok((LetterBits(bits), ""))
  {
    var sx := if 0 in bits then "x" else "";
    var sw := (if 1 in bits then "w" else "") + sx;
    var sr := (if 2 in bits then "r" else "") + sw;
    var ar: Mode := if 2 in bits then READ else {};
    var aw: Mode := ar + if 1 in bits then WRITE else {};
    var ax: Mode := aw + if 0 in bits then EXEC else {};
    assert Perms("", allowed, who, ax) == Ok((ax, ""));
    assert Perms(sx, allowed, who, aw) == Ok((ax, "")) by {
      if 0 in bits { assert sx[1..] == ""; } else { assert ax == aw; }
    }
    assert Perms(sw, allowed, who, ar) == Ok((ax, "")) by {
      if 1 in bits { assert sw[1..] == sx; } else { assert sw == sx && aw == ar; }
    }
    assert Perms(sr, allowed, who, {}) == Ok((ax, "")) by {
      if 2 in bits { assert sr[1..] == sw && {} + READ == READ; } else { assert sr == sw; }
    }
  }

  /** `c=` with printed letters gives class `c` exactly those permissions. */
  lemma PrintedClause(c: char, bits: Mode, allowed: Mode)
    requires c == 'u' || c == 'g' || c == 'o'
    ensures Clause([c, '='] + Letters(bits), allowed)
            == Ok((allowed - ClassBits(c)) + (LetterBits(bits) * ClassBits(c)))
  {
    var w := Letters(bits);
    var clause := [c, '='] + w;
    var rest := clause[1..];
    assert rest == ['='] + w && rest[1..] == w;
    assert WhoLength(clause) == 1 by { assert WhoLength(rest) == 0; }
    assert Who(clause) == ClassBits(c) by {
      assert clause[..1] == [c] && [c][..0] == "";
      assert WhoBits([c]) == WhoBits("") + ClassBits(c) == ClassBits(c);
      assert ClassBits(c) != {} by { assert 0 in ClassBits(c) || 3 in ClassBits(c) || 6 in ClassBits(c); }
    }
    PrintedLetters(bits, allowed, ClassBits(c));
  }

  lemma {:induction false} NoComma(s: string)
    requires ',' !in s
    ensures Split(s) == [s]
  {
    if s != "" {
      NoComma(s[1..]);
      assert s == [s[0]] + s[1..];
    }
  }

  lemma UserLetters(goal: Mode)
    ensures LetterBits(ClassOf(goal, 6)) * USER == goal * USER
  {}

  lemma GroupLetters(goal: Mode)
    ensures LetterBits(ClassOf(goal, 3)) * GROUP == goal * GROUP
  {}

  lemma OtherLetters(goal: Mode)
    ensures LetterBits(ClassOf(goal, 0)) * OTHER == goal * OTHER
  {}

  lemma ThreeClasses(start: Mode, goal: Mode)
    requires goal <= ALL && start <= ALL
    ensures var a := (start - USER) + (goal * USER);
            var b := (a - GROUP) + (goal * GROUP);
            (b - OTHER) + (goal * OTHER) == goal
  {
    assert ALL == USER + GROUP + OTHER;
  }

  /** Printing a mask and applying what was printed restores it, whatever the current mask is. */
  lemma PrintedModeRestores(mask: Mode, current: Mode)
    ensures Applied(FormatSymbolic(mask), current) == Ok(mask * ALL)
  {
    var goal, start := ALL - mask, ALL - current;
    var lu, lg, lo := ClassOf(goal, 6), ClassOf(goal, 3), ClassOf(goal, 0);
    var su, sg, so := "u=" + Letters(lu), "g=" + Letters(lg), "o=" + Letters(lo);
    assert Split(FormatSymbolic(mask)) == [su, sg, so] by {
      NoComma(su);
      NoComma(sg);
      NoComma(so);
      SplitAtComma(su, sg + "," + so);
      SplitAtComma(sg, so);
    }
    var a := (start - USER) + (LetterBits(lu) * USER);
    var b := (a - GROUP) + (LetterBits(lg) * GROUP);
    PrintedClause('u', lu, start);
    PrintedClause('g', lg, a);
    PrintedClause('o', lo, b);
    UserLetters(goal);
    GroupLetters(goal);
    OtherLetters(goal);
    ThreeClasses(start, goal);
    ThreeInTurn(su, sg, so, start, a, b, goal);
    assert ALL - goal == mask * ALL;
  }

  lemma ThreeInTurn(x: string, y: string, z: string, start: Mode, a: Mode, b: Mode, goal: Mode)
    requires Clause(x, start) == Ok(a) && Clause(y, a) == Ok(b) && Clause(z, b) == Ok(goal)
    ensures Clauses([x, y, z], start) == Ok(goal)
  {
    assert [x, y, z][1..] == [y, z] && [y, z][1..] == [z] && [z][1..] == [];
    assert Clauses([z], b) == Ok(goal);
    assert Clauses([y, z], a) == Ok(goal);
  }
}

/**
 The spelling test of `cd` under `cdspell`: which one-letter slip turns one name into
 another, found by looking only past the first byte where they differ.

 It is proved against the textbook edit distance and against adjacent transposition.
 */
module Spelling {
  import opened Option

  function FirstMismatch(a: string, b: string): (n: nat)
    ensures n <= |a| && n <= |b| && a[..n] == b[..n]
    ensures n < |a| && n < |b| ==> a[n] != b[n]
  {
    if a == "" || b == "" || a[0] != b[0] then 0 else 1 + FirstMismatch(a[1..], b[1..])
  }

  /** The classification once the common prefix is gone. */
  function TailDistance(left: string, right: string): nat {
    if |left| >= 2 && |right| >= 2 && left[0] == right[1] && left[1] == right[0] && left[2..] == right[2..] then 1
    else if left != "" && right != "" && left[1..] == right[1..] then 2
    else if left != "" && left[1..] == right then 2
    else if right != "" && left == right[1..] then 2
    else 3
  }

  function SpellingDistance(current: string, wanted: string): nat {
    if current == wanted then 0
    else
      var first := FirstMismatch(current, wanted);
      TailDistance(current[first..], wanted[first..])
  }

  // ----- reference definitions

  function Min(a: nat, b: nat): nat { if a <= b then a else b }

  /** The edit distance: insertions, deletions and substitutions, one each. */
  function Levenshtein(a: string, b: string): nat
    decreases |a| + |b|
  {
    if a == "" then |b|
    else if b == "" then |a|
    else Min(Min(Levenshtein(a[1..], b) + 1, Levenshtein(a, b[1..]) + 1),
             Levenshtein(a[1..], b[1..]) + if a[0] == b[0] then 0 else 1)
  }

  /** `b` is `a` with the unequal neighbours at `i` and `i + 1` exchanged. */
  predicate SwappedAt(a: string, b: string, i: nat) {
    i + 1 < |a| && a[i] != a[i + 1] && b == a[i := a[i + 1]][i + 1 := a[i]]
  }

  ghost predicate Transposed(a: string, b: string) {
    exists i: nat :: SwappedAt(a, b, i)
  }

  // ----- facts about the edit distance

  lemma {:induction false} LevenshteinZero(a: string, b: string)
    ensures Levenshtein(a, b) == 0 <==> a == b
    decreases |a| + |b|
  {
    if a != "" && b != "" {
      LevenshteinZero(a[1..], b[1..]);
      assert a == [a[0]] + a[1..] && b == [b[0]] + b[1..];
    }
  }

  lemma {:induction false} LevenshteinSymmetric(a: string, b: string)
    ensures Levenshtein(a, b) == Levenshtein(b, a)
    decreases |a| + |b|
  {
    if a != "" && b != "" {
      LevenshteinSymmetric(a[1..], b);
      LevenshteinSymmetric(a, b[1..]);
      LevenshteinSymmetric(a[1..], b[1..]);
    }
  }

  /** Dropping the first byte of one side changes the distance by at most one. */
  lemma {:induction false} DropOne(a: string, b: string)
    requires a != ""
    ensures Levenshtein(a[1..], b) <= Levenshtein(a, b) + 1
    decreases |a| + |b|
  {
    if b != "" {
      DropOne(a, b[1..]);
      if a[1..] != "" {
        assert Levenshtein(a[1..], b) <= Levenshtein(a[1..], b[1..]) + 1;
      } else {
        LevenshteinLength(a, b[1..]);
        LevenshteinLength(a[1..], b[1..]);
      }
    }
  }

  lemma {:induction false} LevenshteinLength(a: string, b: string)
    ensures Levenshtein(a, b) + |a| >= |b|
    decreases |a| + |b|
  {
    if a != "" && b != "" {
      LevenshteinLength(a[1..], b);
      LevenshteinLength(a, b[1..]);
      LevenshteinLength(a[1..], b[1..]);
    }
  }

  /** A common first byte costs nothing. */
  lemma CommonHead(a: string, b: string)
    requires a != "" && b != "" && a[0] == b[0]
    ensures Levenshtein(a, b) == Levenshtein(a[1..], b[1..])
  {
    LevenshteinSymmetric(a[1..], b);
    LevenshteinSymmetric(a[1..], b[1..]);
    DropOne(a, b[1..]);
    DropOne(b, a[1..]);
  }

  lemma SwapPastHead(a: string, b: string)
    requires a != "" && b != "" && a[0] == b[0]
    ensures Transposed(a, b) <==> Transposed(a[1..], b[1..])
  {
    if i: nat :| SwappedAt(a, b, i) {
      assert i > 0;
      assert SwappedAt(a[1..], b[1..], i - 1);
    }
    if i: nat :| SwappedAt(a[1..], b[1..], i) {
      assert a == [a[0]] + a[1..] && b == [b[0]] + b[1..];
      assert SwappedAt(a, b, i + 1);
    }
  }

  // ----- the classification is exact

  lemma TailSwap(a: string, b: string)
    requires a != b && (a == "" || b == "" || a[0] != b[0])
    ensures TailDistance(a, b) == 1 <==> Transposed(a, b)
  {
    if i: nat :| SwappedAt(a, b, i) {
      assert i == 0;
      assert a[2..] == b[2..];
    }
    if TailDistance(a, b) == 1 {
      assert a == [a[0], a[1]] + a[2..] && b == [b[0], b[1]] + b[2..];
      assert SwappedAt(a, b, 0);
    }
  }

  /** With no common head, one edit must spend itself on the head. */
  lemma HeadEdit(a: string, b: string)
    requires a != b && (a == "" || b == "" || a[0] != b[0])
    ensures Levenshtein(a, b) == 1 <==>
            || (a != "" && b != "" && a[1..] == b[1..]) || (a != "" && a[1..] == b) || (b != "" && a == b[1..])
  {
    if a != "" && b != "" {
      LevenshteinZero(a[1..], b);
      LevenshteinZero(a, b[1..]);
      LevenshteinZero(a[1..], b[1..]);
    }
  }

  lemma TailEdit(a: string, b: string)
    requires a != b && (a == "" || b == "" || a[0] != b[0])
    ensures TailDistance(a, b) == 2 <==> Levenshtein(a, b) == 1
  {
    HeadEdit(a, b);
    if TailDistance(a, b) == 1 {
      assert a[1..][0] == a[1] && b[1..][0] == b[1] && |a| == |b|;
    }
  }

  /** 0 is equality, 1 an adjacent transposition, 2 edit distance one, 3 everything else; for all names. */
  lemma {:induction false} SpellingExact(a: string, b: string)
    ensures SpellingDistance(a, b) == 0 <==> a == b
    ensures SpellingDistance(a, b) == 1 <==> Transposed(a, b)
    ensures SpellingDistance(a, b) == 2 <==> Levenshtein(a, b) == 1
    ensures SpellingDistance(a, b) <= 3
    decreases |a|
  {
    LevenshteinZero(a, b);
    if a == b {
      forall i: nat ensures !SwappedAt(a, b, i) {
        assert i + 1 < |a| ==> a[i := a[i + 1]][i + 1 := a[i]][i] == a[i + 1];
      }
    } else if a == "" || b == "" || a[0] != b[0] {
      TailSwap(a, b);
      TailEdit(a, b);
      assert a[0..] == a && b[0..] == b;
    } else {
      SpellingExact(a[1..], b[1..]);
      CommonHead(a, b);
      SwapPastHead(a, b);
      assert a == [a[0]] + a[1..] && b == [b[0]] + b[1..];
      var n := FirstMismatch(a[1..], b[1..]);
      assert a[1..][n..] == a[n + 1..] && b[1..][n..] == b[n + 1..];
    }
  }

  lemma SpellingSymmetric(a: string, b: string)
    ensures SpellingDistance(a, b) == SpellingDistance(b, a)
  {
    SpellingExact(a, b);
    SpellingExact(b, a);
    LevenshteinSymmetric(a, b);
    TransposedSymmetric(a, b);
    TransposedSymmetric(b, a);
  }

  lemma TransposedSymmetric(a: string, b: string)
    ensures Transposed(a, b) ==> Transposed(b, a)
  {
    if i: nat :| SwappedAt(a, b, i) {
      assert SwappedAt(b, a, i);
    }
  }

  /**
   The entry a directory component is corrected to, under any measure of distance: the last of the
   closest below 3, unless an exact one ends the search.
   */
  method ChooseEntry(names: seq<string>, distance: string -> nat) returns (best: Option<string>)
    ensures best == None <==> forall i :: 0 <= i < |names| ==> distance(names[i]) >= 3
    ensures best.Some? ==> distance(best.value) < 3
    ensures best.Some? ==> forall i :: 0 <= i < |names| ==> distance(best.value) <= distance(names[i])
    ensures best.Some? ==>
              exists k :: 0 <= k < |names| && names[k] == best.value
                && (distance(best.value) > 0 ==>
                      forall i :: k < i < |names| ==> distance(best.value) < distance(names[i]))
  {
    best := None;
    ghost var k := 0;
    for n := 0 to |names|
      invariant best == None <==> forall i :: 0 <= i < n ==> distance(names[i]) >= 3
      invariant best.Some? ==> distance(best.value) < 3 && k < n && names[k] == best.value
      invariant best.Some? ==> forall i :: 0 <= i < n ==> distance(best.value) <= distance(names[i])
      invariant best.Some? ==> forall i :: k < i < n ==> distance(best.value) < distance(names[i])
    {
      if distance(names[n]) >= 3 { continue; }
      if best == None || distance(names[n]) <= distance(best.value) {
        best := Some(names[n]);
        k := n;
      }
      if distance(names[n]) == 0 { return; }
    }
  }

  /** A correction is offered exactly when some entry is one slip away, and then the least slip wins. */
  method Correct(names: seq<string>, wanted: string) returns (best: Option<string>)
    ensures best == None <==>
            forall i :: 0 <= i < |names| ==>
              names[i] != wanted && !Transposed(names[i], wanted) && Levenshtein(names[i], wanted) != 1
    ensures best.Some? ==> best.value in names
    ensures wanted in names ==> best == Some(wanted)
    ensures best.Some? && wanted !in names && (exists i :: 0 <= i < |names| && Transposed(names[i], wanted)) ==>
              Transposed(best.value, wanted)
  {
    var distance := name => SpellingDistance(name, wanted);
    best := ChooseEntry(names, distance);
    forall i | 0 <= i < |names|
      ensures distance(names[i]) == 0 <==> names[i] == wanted
      ensures distance(names[i]) == 1 <==> Transposed(names[i], wanted)
      ensures distance(names[i]) >= 3 <==>
                names[i] != wanted && !Transposed(names[i], wanted) && Levenshtein(names[i], wanted) != 1
    {
      SpellingExact(names[i], wanted);
    }
  }
}

/** Facts about sequences and texts that several modules use. */
module Sequences {
  lemma Regroup<T>(a: seq<T>, b: seq<T>, c: seq<T>)
    ensures (a + b) + c == a + (b + c)
  {}

  /** `s` continues with `t` at `i`. */
  predicate At(s: string, i: nat, t: string) {
    i + |t| <= |s| && s[i..i + |t|] == t
  }

  lemma AtSplit(s: string, i: nat, a: string, b: string)
    ensures At(s, i, a + b) <==> At(s, i, a) && At(s, i + |a|, b)
  {
    if i + |a| + |b| <= |s| {
      var t := s[i..i + |a + b|];
      assert t == s[i..i + |a|] + s[i + |a|..i + |a| + |b|];
      if t == a + b {
        assert s[i..i + |a|] == t[..|a|] == a && s[i + |a|..i + |a| + |b|] == t[|a|..] == b;
      }
    }
  }

  lemma AtHead(s: string, i: nat, c: char, t: string)
    requires At(s, i, [c] + t)
    ensures i < |s| && s[i] == c && At(s, i + 1, t)
  {
    AtSplit(s, i, [c], t);
    assert s[i..i + 1][0] == s[i];
  }
}

/** Text as it crosses to loadable builtins: C strings, which hold no NUL and may be absent. */
module CText {
  import opened Option
  import opened Sequences

  /** Converting to a C string drops the NUL bytes. */
  function StripNul(s: string): (r: string)
    ensures '\0' !in r
    ensures '\0' !in s ==> r == s
  {
    if s == "" then "" else (if s[0] == '\0' then "" else [s[0]]) + StripNul(s[1..])
  }

  lemma StripHead(c: char, t: string)
    ensures StripNul([c] + t) == (if c == '\0' then "" else [c]) + StripNul(t)
  {
    assert ([c] + t)[1..] == t;
  }

  /** Dropping NUL bytes goes part by part, so every other byte is kept, and kept in order. */
  lemma {:induction false} StripJoins(a: string, b: string)
    ensures StripNul(a + b) == StripNul(a) + StripNul(b)
  {
    if a == "" {
      assert a + b == b;
    } else {
      var c, t := a[0], a[1..];
      assert a == [c] + t;
      StripJoins(t, b);
      StripHead(c, t);
      StripHead(c, t + b);
      Regroup([c], t, b);
      Regroup(if c == '\0' then "" else [c], StripNul(t), StripNul(b));
    }
  }

  function StripValues<K>(s: seq<(K, string)>): (r: seq<(K, string)>)
    ensures |r| == |s| && forall i :: 0 <= i < |s| ==> r[i] == (s[i].0, StripNul(s[i].1))
  {
    seq(|s|, i requires 0 <= i < |s| => (s[i].0, StripNul(s[i].1)))
  }

  function StripPairs(s: seq<(string, string)>): (r: seq<(string, string)>)
    ensures |r| == |s| && forall i :: 0 <= i < |s| ==> r[i] == (StripNul(s[i].0), StripNul(s[i].1))
  {
    seq(|s|, i requires 0 <= i < |s| => (StripNul(s[i].0), StripNul(s[i].1)))
  }

  /** A null pointer reads as the empty text. */
  function TextOf(value: Option<string>): string {
    if value.Some? then value.value else ""
  }

  /** What a `char *` can hold. */
  predicate IsCText(value: Option<string>) {
    '\0' !in TextOf(value)
  }
}

/** The string library functions the model uses, for one-character separators. */
module Strings {

  datatype Option<+T> = None | Some(value: T)

  /** strings.Index for one character; -1 when it is absent. */
  function Index(s: string, c: char): (k: int)
    ensures -1 <= k < |s|
    ensures k == -1 <==> c !in s
    ensures k >= 0 ==> s[k] == c && c !in s[..k]
  {
    if s == [] then -1
    else if s[0] == c then 0
    else
      var k := Index(s[1..], c);
      assert s == [s[0]] + s[1..];
      assert k >= 0 ==> s[..k + 1] == [s[0]] + s[1..][..k];
      if k == -1 then -1 else k + 1
  }

  lemma IndexIs(s: string, c: char, k: nat)
    requires k < |s| && s[k] == c && c !in s[..k]
    ensures Index(s, c) == k
  {
    assert Index(s, c) == -1 || s[Index(s, c)] == c;
  }

  /** strings.Split for a one-character separator. */
  function Split(s: string, c: char): seq<string>
    decreases |s|
  {
    var k := Index(s, c);
    if k == -1 then [s] else [s[..k]] + Split(s[k + 1..], c)
  }

  lemma SplitPlain(s: string, c: char)
    requires c !in s
    ensures Split(s, c) == [s]
  {
  }

  /** Text without the separator, the separator, the rest. */
  lemma SplitAt(a: string, c: char, rest: string)
    requires c !in a
    ensures Split(a + ([c] + rest), c) == [a] + Split(rest, c)
  {
    var s, k := a + ([c] + rest), |a|;
    assert s[..k] == a && s[k] == c && s[k + 1..] == rest;
    IndexIs(s, c, k);
  }

  lemma {:induction false} PartsPlain(s: string, c: char)
    ensures forall i :: 0 <= i < |Split(s, c)| ==> c !in Split(s, c)[i]
    ensures |Split(s, c)| == 1 <==> c !in s
    ensures Split(s, c) != []
    decreases |s|
  {
    var k := Index(s, c);
    if k != -1 {
      PartsPlain(s[k + 1..], c);
    }
  }
}

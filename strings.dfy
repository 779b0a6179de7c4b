/** The Python `str` operations the modelled code uses, on `seq<char>`. */
module Strings {

  /** `s.endswith(suffix)`: case-sensitive, and true for the empty suffix. */
  predicate EndsWith(s: string, suffix: string) {
    |suffix| <= |s| && s[|s| - |suffix|..] == suffix
  }

  /** `EndsWith` holds exactly when the suffix fits and matches the last
      characters one by one, and then the text is a prefix followed by the
      suffix. */
  lemma EndsWithMatchesLast(s: string, suffix: string)
    ensures EndsWith(s, suffix) <==>
      |suffix| <= |s| && forall i | 0 <= i < |suffix| :: s[|s| - |suffix| + i] == suffix[i]
    ensures EndsWith(s, suffix) ==> s[..|s| - |suffix|] + suffix == s
  {
  }

  /** `s.removesuffix(suffix)`: drops one copy of `suffix` from the end of `s`
      when `s` ends with it, and otherwise returns `s` as it is. */
  function RemoveSuffix(s: string, suffix: string): (r: string)
    ensures EndsWith(s, suffix) ==> r + suffix == s
    ensures !EndsWith(s, suffix) ==> r == s
  {
    if suffix != "" && EndsWith(s, suffix) then s[..|s| - |suffix|] else s
  }

  /** Removing a suffix undoes appending it, and removes only one copy. */
  lemma RemoveSuffixOfAppended(s: string, suffix: string)
    ensures RemoveSuffix(s + suffix, suffix) == s
  {
  }

  /** `' ' * n`. */
  function Spaces(n: nat): (r: string)
    ensures |r| == n
    ensures forall i | 0 <= i < n :: r[i] == ' '
  {
    seq(n, _ => ' ')
  }

  /** `s.replace(c, rep)` for a one-character pattern: every occurrence of `c`
      becomes `rep`, left to right. */
  function ReplaceChar(s: string, c: char, rep: string): (r: string)
    ensures c !in rep ==> forall i | 0 <= i < |r| :: r[i] != c
    ensures (forall i | 0 <= i < |s| :: s[i] != c) ==> r == s
    ensures rep != [] ==> |s| <= |r|
  {
    if s == [] then []
    else (if s[0] == c then rep else [s[0]]) + ReplaceChar(s[1..], c, rep)
  }

  /** Replacement works piece by piece: replacing in a concatenation is the
      concatenation of the replaced pieces, and a lone `c` becomes `rep`. */
  lemma {:induction false} ReplaceCharAppend(a: string, b: string, c: char, rep: string)
    ensures ReplaceChar(a + b, c, rep) == ReplaceChar(a, c, rep) + ReplaceChar(b, c, rep)
    ensures ReplaceChar([c], c, rep) == rep
    decreases |a|
  {
    assert ReplaceChar([c], c, rep) == rep + ReplaceChar([], c, rep);
    if a != [] {
      assert (a + b)[0] == a[0] && (a + b)[1..] == a[1..] + b;
      ReplaceCharAppend(a[1..], b, c, rep);
    } else {
      assert a + b == b;
    }
  }

  /** The reference inverse of `ReplaceChar` for a replacement that starts with
      `c`: keep every `c` and drop the `k` characters that follow it. */
  function DropAfter(s: string, c: char, k: nat): string
    decreases |s|
  {
    if s == [] then []
    else if s[0] == c && k < |s| then [c] + DropAfter(s[1 + k..], c, k)
    else [s[0]] + DropAfter(s[1..], c, k)
  }

  /** Nothing but the occurrences of `c` changes: dropping what follows each
      `c` in the replaced string gives the original back. */
  lemma {:induction false} DropAfterReplaceChar(s: string, c: char, w: string)
    ensures DropAfter(ReplaceChar(s, c, [c] + w), c, |w|) == s
  {
    if s != [] {
      var rest := ReplaceChar(s[1..], c, [c] + w);
      DropAfterReplaceChar(s[1..], c, w);
      var r := ReplaceChar(s, c, [c] + w);
      if s[0] == c {
        assert r == [c] + w + rest;
        assert r[0] == c && r[1 + |w|..] == rest;
        calc {
          DropAfter(r, c, |w|);
          [c] + DropAfter(rest, c, |w|);
          [c] + s[1..];
        }
      } else {
        assert r == [s[0]] + rest;
        assert r[0] != c && r[1..] == rest;
      }
      assert s == [s[0]] + s[1..];
    }
  }
}

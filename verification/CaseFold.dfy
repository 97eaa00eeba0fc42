/** strings.EqualFold and strings.ToLower on ASCII text. */
module CaseFold {

  function Lower(c: char): char {
    if 'A' <= c <= 'Z' then c + ' ' else c
  }

  function Fold(s: string): (r: string)
    ensures |r| == |s| && forall k :: 0 <= k < |s| ==> r[k] == Lower(s[k])
  {
    seq(|s|, k requires 0 <= k < |s| => Lower(s[k]))
  }

  predicate EqualFold(a: string, b: string) { Fold(a) == Fold(b) }

  /** The same byte, or the same letter in small and in capital. */
  ghost predicate SameLetter(a: char, b: char) {
    || a == b
    || ('A' <= a <= 'Z' && 'a' <= b <= 'z' && b as int - 'a' as int == a as int - 'A' as int)
    || ('a' <= a <= 'z' && 'A' <= b <= 'Z' && a as int - 'a' as int == b as int - 'A' as int)
  }

  /** Two texts are equal ignoring case exactly when they are, letter by letter. */
  lemma EqualFoldIsSameLetters(a: string, b: string)
    ensures EqualFold(a, b) <==> |a| == |b| && forall k :: 0 <= k < |a| ==> SameLetter(a[k], b[k])
  {
    assert forall k :: 0 <= k < |a| && k < |b| ==> (Lower(a[k]) == Lower(b[k]) <==> SameLetter(a[k], b[k]));
    if EqualFold(a, b) {
      assert forall k :: 0 <= k < |a| ==> Fold(a)[k] == Fold(b)[k];
    }
  }
}

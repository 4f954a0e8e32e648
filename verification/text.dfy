/** String operations the backend inherits from JavaScript and from the
    validator library: whitespace trimming, ASCII case folding, substring
    search, prefix tests and first-occurrence replacement. */
module Text {
  import opened Base

  /** JavaScript's WhiteSpace and LineTerminator characters, the set removed
      by String.prototype.trim and by the validator library's trim sanitizer. */
  predicate IsSpace(c: char) {
    || c in {'\t', '\n', '\U{000B}', '\U{000C}', '\r', ' ', '\U{00A0}', '\U{1680}'}
    || ('\U{2000}' <= c <= '\U{200A}')
    || c in {'\U{2028}', '\U{2029}', '\U{202F}', '\U{205F}', '\U{3000}', '\U{FEFF}'}
  }

  /** No whitespace at either end. */
  predicate IsTrimmed(s: string) {
    s == [] || (!IsSpace(s[0]) && !IsSpace(s[|s| - 1]))
  }

  /** Some character of `s` is not whitespace. */
  predicate HasVisible(s: string) {
    exists i :: 0 <= i < |s| && !IsSpace(s[i])
  }

  /** `t` occurs in `s` as a contiguous piece starting at index `j`. */
  predicate OccursAt(s: string, t: string, j: int) {
    0 <= j && j + |t| <= |s| && s[j..j + |t|] == t
  }

  /** `t` occurs somewhere in `s` as a contiguous piece. */
  predicate IsInfix(t: string, s: string) {
    exists j :: 0 <= j <= |s| - |t| && OccursAt(s, t, j)
  }

  predicate StartsWith(s: string, prefix: string) {
    |prefix| <= |s| && s[..|prefix|] == prefix
  }

  /** Removes leading whitespace. */
  function TrimStart(s: string): (r: string)
    ensures |r| <= |s| && r == s[|s| - |r|..]
    ensures forall i :: 0 <= i < |s| - |r| ==> IsSpace(s[i])
    ensures r == [] || !IsSpace(r[0])
    decreases |s|
  {
    if |s| > 0 && IsSpace(s[0]) then TrimStart(s[1..]) else s
  }

  /** Removes trailing whitespace. */
  function TrimEnd(s: string): (r: string)
    ensures |r| <= |s| && r == s[..|r|]
    ensures forall i :: |r| <= i < |s| ==> IsSpace(s[i])
    ensures r == [] || !IsSpace(r[|r| - 1])
    decreases |s|
  {
    if |s| > 0 && IsSpace(s[|s| - 1]) then TrimEnd(s[..|s| - 1]) else s
  }

  /** `r` is `s` with only whitespace removed before index `lo` and after
      the piece `r` that starts there. */
  predicate StripsTo(s: string, r: string, lo: int) {
    && OccursAt(s, r, lo)
    && (forall i :: 0 <= i < lo ==> IsSpace(s[i]))
    && (forall i :: lo + |r| <= i < |s| ==> IsSpace(s[i]))
  }

  /** String.prototype.trim: only leading and trailing whitespace is
      removed, none is left at either end, and a string that is already
      trimmed is returned as it is. */
  function Trim(s: string): (r: string)
    ensures IsTrimmed(r)
    ensures |r| <= |s|
    ensures exists lo :: StripsTo(s, r, lo)
    ensures IsTrimmed(s) ==> r == s
  {
    var front := TrimStart(s);
    StripsBothEnds(s);
    TrimEnd(front)
  }

  /** Trimming the start and then the end strips only whitespace, and the
      kept piece starts where the leading whitespace ends. */
  lemma StripsBothEnds(s: string)
    ensures StripsTo(s, TrimEnd(TrimStart(s)), |s| - |TrimStart(s)|)
  {
    var front := TrimStart(s);
    var r := TrimEnd(front);
    var lo := |s| - |front|;
    PieceOfSuffix(s, lo, |r|);
    assert OccursAt(s, r, lo);
    forall i | lo + |r| <= i < |s|
      ensures IsSpace(s[i])
    {
      assert s[i] == s[lo..][i - lo];
    }
  }

  /** A prefix of a suffix is a contiguous piece. */
  lemma PieceOfSuffix(s: string, lo: nat, n: nat)
    requires lo + n <= |s|
    ensures s[lo..][..n] == s[lo..lo + n]
  {
  }

  /** What Trim keeps is a contiguous piece of its input, and it is empty
      exactly when the input is blank. */
  lemma TrimKeepsContent(s: string)
    ensures IsInfix(Trim(s), s)
    ensures |Trim(s)| > 0 <==> HasVisible(s)
  {
    var r := Trim(s);
    var lo :| StripsTo(s, r, lo);
    if HasVisible(s) {
      var i :| 0 <= i < |s| && !IsSpace(s[i]);
      assert lo <= i < lo + |r|;
    }
    if |r| > 0 {
      assert s[lo] == r[0];
    }
  }

  /** Trimming twice is trimming once. */
  lemma TrimIdempotent(s: string)
    ensures Trim(Trim(s)) == Trim(s)
  {
  }

  /** The variation selectors U+FE0E and U+FE0F, which the validator
      library's isLength does not count as characters. */
  predicate IsVariationSelector(c: char) {
    c == '\U{FE0E}' || c == '\U{FE0F}'
  }

  /** The length isLength measures: the code points of `s` less its
      occurrences of the two variation selectors. */
  function VisibleLength(s: string): (n: nat)
    ensures n == |s| - multiset(s)['\U{FE0E}'] - multiset(s)['\U{FE0F}']
    ensures n <= |s|
    ensures (forall i :: 0 <= i < |s| ==> !IsVariationSelector(s[i])) ==> n == |s|
  {
    if s == [] then 0
    else
      assert s == [s[0]] + s[1..];
      assert multiset(s) == multiset{s[0]} + multiset(s[1..]);
      VisibleLength(s[1..]) + (if IsVariationSelector(s[0]) then 0 else 1)
  }

  /** ASCII lower-casing; other characters are left alone. */
  function LowerChar(c: char): char {
    if 'A' <= c <= 'Z' then (c as int + 32) as char else c
  }

  function Lower(s: string): (r: string)
    ensures |r| == |s|
  {
    seq(|s|, i requires 0 <= i < |s| => LowerChar(s[i]))
  }

  /** Case-insensitive literal substring test. */
  predicate ContainsIgnoringCase(text: string, term: string) {
    IsInfix(Lower(term), Lower(text))
  }

  /** The leftmost occurrence of `pat` in `s` at or after index `k`. */
  function IndexFrom(s: string, pat: string, k: nat): (r: Option<nat>)
    requires k <= |s|
    ensures r.Some? ==> k <= r.value && OccursAt(s, pat, r.value)
    ensures r.Some? ==> forall j :: k <= j < r.value ==> !OccursAt(s, pat, j)
    ensures r.None? ==> forall j :: k <= j ==> !OccursAt(s, pat, j)
    decreases |s| - k
  {
    if k + |pat| > |s| then None
    else if s[k..k + |pat|] == pat then Some(k)
    else IndexFrom(s, pat, k + 1)
  }

  /** String.prototype.replace with a string pattern: only the leftmost
      occurrence is replaced; without an occurrence the string is unchanged. */
  function ReplaceFirst(s: string, pat: string, rep: string): (r: string)
    ensures StartsWith(s, pat) ==> r == rep + s[|pat|..]
    ensures !IsInfix(pat, s) ==> r == s
  {
    match IndexFrom(s, pat, 0)
    case None => s
    case Some(i) => s[..i] + rep + s[i + |pat|..]
  }
}

/**
 * The string operations the gallery and the server rely on: JavaScript's
 * whitespace class (used by `trim` and by the regex `\s`), lower-casing,
 * substring search (`includes`), trimming, and case-insensitive removal of
 * a fixed prefix or suffix (the anchored `/i` regexes of the title cleaner).
 */
module Text {

  /** A character counted as white space by `String.prototype.trim` and `\s`. */
  const WhiteSpace: set<char> := {
    '\t', '\n', '\U{0B}', '\U{0C}', '\r', ' ', '\U{A0}', '\U{1680}',
    '\U{2000}', '\U{2001}', '\U{2002}', '\U{2003}', '\U{2004}', '\U{2005}',
    '\U{2006}', '\U{2007}', '\U{2008}', '\U{2009}', '\U{200A}',
    '\U{2028}', '\U{2029}', '\U{202F}', '\U{205F}', '\U{3000}', '\U{FEFF}'
  }

  predicate IsSpace(c: char) {
    c in WhiteSpace
  }

  predicate NoSpace(s: string) {
    forall i :: 0 <= i < |s| ==> !IsSpace(s[i])
  }

  predicate AllSpace(s: string) {
    forall i :: 0 <= i < |s| ==> IsSpace(s[i])
  }

  /** Neither the first nor the last character is white space. */
  predicate Trimmed(s: string) {
    s == [] || (!IsSpace(s[0]) && !IsSpace(s[|s| - 1]))
  }

  /** Lower-casing of one character (the ASCII letters). */
  function LowerChar(c: char): (r: char)
    ensures !('A' <= r <= 'Z')
    ensures 'a' <= c <= 'z' ==> r == c
  {
    if 'A' <= c <= 'Z' then (c as int + 32) as char else c
  }

  lemma LowerCharSpace(c: char)
    ensures IsSpace(LowerChar(c)) == IsSpace(c)
  {
    if 'A' <= c <= 'Z' {
      assert !IsSpace(c) && !IsSpace(LowerChar(c));
    }
  }

  /** `toLowerCase`, character by character. */
  function Lower(s: string): (r: string)
    ensures |r| == |s|
    ensures forall i :: 0 <= i < |s| ==> r[i] == LowerChar(s[i])
  {
    seq(|s|, i requires 0 <= i < |s| => LowerChar(s[i]))
  }

  lemma {:induction false} LowerIdempotent(s: string)
    ensures Lower(Lower(s)) == Lower(s)
  {
    var once := Lower(s);
    var twice := Lower(once);
    forall i | 0 <= i < |s| ensures twice[i] == once[i] {
      assert once[i] == LowerChar(s[i]);
    }
  }

  predicate IsPrefix<T(==)>(p: seq<T>, s: seq<T>) {
    |p| <= |s| && s[..|p|] == p
  }

  /** `s.includes(sub)`: `sub` occurs in `s` at some position. */
  predicate Contains(s: string, sub: string)
    decreases |s|
  {
    IsPrefix(sub, s) || (s != [] && Contains(s[1..], sub))
  }

  /** `sub` occurs in `s` starting at position `k`. */
  predicate OccursAt(s: string, sub: string, k: int) {
    0 <= k <= |s| - |sub| && s[k..k + |sub|] == sub
  }

  lemma OccursTrans(a: string, b: string, c: string, i: int, j: int)
    requires OccursAt(b, a, i) && OccursAt(c, b, j)
    ensures OccursAt(c, a, i + j)
  {
    forall k | 0 <= k < |a| ensures c[i + j..i + j + |a|][k] == a[k] {
      assert a[k] == b[i + k] == c[j + i + k];
    }
  }

  /** `Contains` with the position written out. */
  lemma {:induction false} ContainsIffOccurs(s: string, sub: string)
    ensures Contains(s, sub) <==> exists k :: OccursAt(s, sub, k)
    decreases |s|
  {
    if IsPrefix(sub, s) {
      assert OccursAt(s, sub, 0);
    } else if s == [] {
    } else {
      ContainsIffOccurs(s[1..], sub);
      if Contains(s[1..], sub) {
        var k :| OccursAt(s[1..], sub, k);
        assert s[k + 1..k + 1 + |sub|] == s[1..][k..k + |sub|];
        assert OccursAt(s, sub, k + 1);
      }
      if k :| OccursAt(s, sub, k) {
        assert k != 0;
        assert s[1..][k - 1..k - 1 + |sub|] == s[k..k + |sub|];
        assert OccursAt(s[1..], sub, k - 1);
      }
    }
  }

  /** Removes the leading white space. */
  function TrimStart(s: string): (r: string)
    ensures |r| <= |s|
    decreases |s|
  {
    if s != [] && IsSpace(s[0]) then TrimStart(s[1..]) else s
  }

  /** `TrimStart` drops a run of white space from the front and stops at a non-space. */
  lemma {:induction false} TrimStartShape(s: string)
    ensures TrimStart(s) == s[|s| - |TrimStart(s)|..]
    ensures AllSpace(s[..|s| - |TrimStart(s)|])
    ensures TrimStart(s) == [] || !IsSpace(TrimStart(s)[0])
    decreases |s|
  {
    if s != [] && IsSpace(s[0]) {
      TrimStartShape(s[1..]);
    }
  }

  /** Removes the trailing white space. */
  function TrimEnd(s: string): (r: string)
    ensures |r| <= |s|
    decreases |s|
  {
    if s != [] && IsSpace(s[|s| - 1]) then TrimEnd(s[..|s| - 1]) else s
  }

  /** `TrimEnd` drops a run of white space from the back and stops at a non-space. */
  lemma {:induction false} TrimEndShape(s: string)
    ensures TrimEnd(s) == s[..|TrimEnd(s)|]
    ensures AllSpace(s[|TrimEnd(s)|..])
    ensures TrimEnd(s) == [] || !IsSpace(TrimEnd(s)[|TrimEnd(s)| - 1])
    decreases |s|
  {
    if s != [] && IsSpace(s[|s| - 1]) {
      TrimEndShape(s[..|s| - 1]);
    }
  }

  /** `trim`. */
  function Trim(s: string): (r: string)
    ensures |r| <= |s|
  {
    TrimEnd(TrimStart(s))
  }

  /**
   * `Trim(s)` sits in `s` at position `k` with only white space around it,
   * and it neither starts nor ends with white space.
   */
  lemma TrimShape(s: string) returns (k: int)
    ensures OccursAt(s, Trim(s), k)
    ensures AllSpace(s[..k]) && AllSpace(s[k + |Trim(s)|..])
    ensures Trimmed(Trim(s))
  {
    var t := TrimStart(s);
    var r := TrimEnd(t);
    TrimStartShape(s);
    TrimEndShape(t);
    k := |s| - |t|;
    assert OccursAt(s, t, k);
    assert OccursAt(t, r, 0);
    OccursTrans(r, t, s, 0, k);
    assert s[k + |r|..] == t[|r|..];
    if r != [] {
      assert r[0] == t[0];
    }
  }

  lemma TrimIsTrimmed(s: string)
    ensures Trimmed(Trim(s))
  {
    var _ := TrimShape(s);
  }

  /** A trimmed string is a fixed point of `Trim`, so `Trim` is idempotent. */
  lemma TrimFixpoint(s: string)
    requires Trimmed(s)
    ensures Trim(s) == s
  {
    assert TrimStart(s) == s;
  }

  lemma TrimIdempotent(s: string)
    ensures Trim(Trim(s)) == Trim(s)
  {
    TrimIsTrimmed(s);
    TrimFixpoint(Trim(s));
  }

  /** The first `|p|` characters of `s` equal `p` ignoring the case of ASCII letters. */
  predicate HasPrefixCI(s: string, p: string) {
    |p| <= |s| && Lower(s[..|p|]) == Lower(p)
  }

  predicate HasSuffixCI(s: string, p: string) {
    |p| <= |s| && Lower(s[|s| - |p|..]) == Lower(p)
  }

  /** `s.replace(/^p/i, "")`: drops `p` from the front when it is there. */
  function StripPrefixCI(s: string, p: string): (r: string)
    ensures HasPrefixCI(s, p) ==> s == s[..|p|] + r
    ensures !HasPrefixCI(s, p) ==> r == s
  {
    if HasPrefixCI(s, p) then s[|p|..] else s
  }

  /** `s.replace(/p$/i, "")`: drops `p` from the end when it is there. */
  function StripSuffixCI(s: string, p: string): (r: string)
    ensures HasSuffixCI(s, p) ==> s == r + s[|s| - |p|..]
    ensures !HasSuffixCI(s, p) ==> r == s
  {
    if HasSuffixCI(s, p) then s[..|s| - |p|] else s
  }

  lemma StripPrefixOccurs(s: string, p: string)
    ensures OccursAt(s, StripPrefixCI(s, p), |s| - |StripPrefixCI(s, p)|)
  {
  }

  lemma StripSuffixOccurs(s: string, p: string)
    ensures OccursAt(s, StripSuffixCI(s, p), 0)
  {
  }
}

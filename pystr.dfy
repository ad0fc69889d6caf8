/**
 * The Python `str` operations the ping interpreter relies on: `lower()`,
 * `in`, `find`, `split(sep)` and `strip()`, each stated by what it means.
 */
module PyStr {
  import opened Wrappers

  /** The characters `str.isspace()` accepts; `strip()` with no argument removes these. */
  predicate IsSpace(c: char)
  {
    || ('\U{9}' <= c <= '\U{D}')
    || ('\U{1C}' <= c <= '\U{20}')
    || c == '\U{85}' || c == '\U{A0}' || c == '\U{1680}'
    || ('\U{2000}' <= c <= '\U{200A}')
    || c == '\U{2028}' || c == '\U{2029}' || c == '\U{202F}' || c == '\U{205F}' || c == '\U{3000}'
  }

  /** `str.lower()` on one character, for the ASCII and Latin-1 capital letters. */
  function LowerChar(c: char): char
  {
    if 'A' <= c <= 'Z' || ('\U{C0}' <= c <= '\U{DE}' && c != '\U{D7}') then
      (c as int + 32) as char
    else
      c
  }

  /** `str.lower()`, character by character. */
  function Lower(s: string): string
  {
    seq(|s|, i requires 0 <= i < |s| => LowerChar(s[i]))
  }

  /** `pat` starts at position `k` of `s`. */
  predicate OccursAt(s: string, pat: string, k: nat)
  {
    k + |pat| <= |s| && s[k..k + |pat|] == pat
  }

  /** The first position at or after `k` where `pat` starts (`str.find(pat, k)`). */
  function IndexFrom(s: string, pat: string, k: nat): (r: Option<nat>)
    requires k <= |s|
    ensures r.Some? ==> k <= r.value && OccursAt(s, pat, r.value)
    ensures r.Some? ==> forall j :: k <= j < r.value ==> !OccursAt(s, pat, j)
    ensures r.None? ==> forall j :: k <= j ==> !OccursAt(s, pat, j)
    decreases |s| - k
  {
    if OccursAt(s, pat, k) then Some(k)
    else if k == |s| then None
    else IndexFrom(s, pat, k + 1)
  }

  /** The first position where `pat` starts in `s`, if any. */
  function IndexOf(s: string, pat: string): Option<nat>
  {
    IndexFrom(s, pat, 0)
  }

  /** Python's `pat in s`. */
  function Contains(s: string, pat: string): (b: bool)
    ensures b <==> exists k: nat :: OccursAt(s, pat, k)
  {
    IndexOf(s, pat).Some?
  }

  /** An occurrence inside a prefix is an occurrence in the whole string. */
  lemma OccursInPrefix(s: string, pat: string, i: nat, k: nat)
    requires i <= |s| && OccursAt(s[..i], pat, k)
    ensures OccursAt(s, pat, k) && k + |pat| <= i
  {
    assert s[k..k + |pat|] == s[..i][k..k + |pat|];
  }

  /** Around its first occurrence `i`, `s` is its prefix, `pat`, and its rest; the prefix holds no `pat`. */
  lemma FirstOccurrence(s: string, pat: string, i: nat)
    requires IndexOf(s, pat) == Some(i)
    ensures s == s[..i] + pat + s[i + |pat|..]
    ensures pat != [] ==> !Contains(s[..i], pat)
  {
    assert s[i..i + |pat|] == pat;
    if pat != [] {
      forall k: nat | OccursAt(s[..i], pat, k) ensures false {
        OccursInPrefix(s, pat, i, k);
      }
    }
  }

  /** `sep.join(parts)`. */
  function Join(parts: seq<string>, sep: string): string
  {
    if |parts| == 0 then ""
    else if |parts| == 1 then parts[0]
    else parts[0] + sep + Join(parts[1..], sep)
  }

  /**
   * `s.split(sep)` for a non-empty separator: the pieces between consecutive
   * occurrences of `sep`, scanning from the left.
   */
  function Split(s: string, sep: string): (parts: seq<string>)
    requires sep != []
    ensures |parts| >= 1
    ensures Join(parts, sep) == s
    ensures forall i :: 0 <= i < |parts| ==> !Contains(parts[i], sep)
    ensures |parts| == 1 <==> !Contains(s, sep)
    ensures |parts| > 1 ==> IndexOf(s, sep) == Some(|parts[0]|)
    decreases |s|
  {
    match IndexOf(s, sep)
    case None => [s]
    case Some(i) =>
      FirstOccurrence(s, sep, i);
      [s[..i]] + Split(s[i + |sep|..], sep)
  }

  /** The text of `s` before the first `pat`, or all of `s` when `pat` is absent. */
  function TakeUntil(s: string, pat: string): (r: string)
    requires pat != []
    ensures |r| <= |s| && r == s[..|r|]
    ensures !Contains(r, pat)
    ensures r == s || OccursAt(s, pat, |r|)
    ensures r == s <==> !Contains(s, pat)
    ensures r != s ==> IndexOf(s, pat) == Some(|r|)
  {
    match IndexOf(s, pat)
    case None => s
    case Some(i) =>
      FirstOccurrence(s, pat, i);
      s[..i]
  }

  /** The first piece of a split is the text before the first separator. */
  lemma SplitFirst(s: string, sep: string)
    requires sep != []
    ensures Split(s, sep)[0] == TakeUntil(s, sep)
  {
  }

  /** The leading whitespace of `s` removed (`str.lstrip()`). */
  function StripLeft(s: string): (r: string)
    ensures |r| <= |s| && r == s[|s| - |r|..]
    ensures forall i :: 0 <= i < |s| - |r| ==> IsSpace(s[i])
    ensures r == [] || !IsSpace(r[0])
    decreases |s|
  {
    if |s| > 0 && IsSpace(s[0]) then StripLeft(s[1..]) else s
  }

  /** The trailing whitespace of `s` removed (`str.rstrip()`). */
  function StripRight(s: string): (r: string)
    ensures |r| <= |s| && r == s[..|r|]
    ensures forall i :: |r| <= i < |s| ==> IsSpace(s[i])
    ensures r == [] || !IsSpace(r[|r| - 1])
    decreases |s|
  {
    if |s| > 0 && IsSpace(s[|s| - 1]) then StripRight(s[..|s| - 1]) else s
  }

  /** All characters of `s` are whitespace. */
  predicate AllSpace(s: string)
  {
    forall i :: 0 <= i < |s| ==> IsSpace(s[i])
  }

  /** `str.strip()`: `s` without its leading and trailing whitespace. */
  function Strip(s: string): (r: string)
    ensures r == [] || (!IsSpace(r[0]) && !IsSpace(r[|r| - 1]))
    ensures exists i: nat, j: nat :: i <= j <= |s| && r == s[i..j] && AllSpace(s[..i]) && AllSpace(s[j..])
  {
    var left := StripLeft(s);
    var r := StripRight(left);
    TrimmedSlice(s, left, r);
    r
  }

  /** Whitespace cut off a suffix's end, after whitespace cut off the front, leaves a slice. */
  lemma TrimmedSlice(s: string, left: string, r: string)
    requires |left| <= |s| && left == s[|s| - |left|..]
    requires forall k :: 0 <= k < |s| - |left| ==> IsSpace(s[k])
    requires left == [] || !IsSpace(left[0])
    requires |r| <= |left| && r == left[..|r|]
    requires forall k :: |r| <= k < |left| ==> IsSpace(left[k])
    requires r == [] || !IsSpace(r[|r| - 1])
    ensures r == [] || (!IsSpace(r[0]) && !IsSpace(r[|r| - 1]))
    ensures exists i: nat, j: nat :: i <= j <= |s| && r == s[i..j] && AllSpace(s[..i]) && AllSpace(s[j..])
  {
    var i := |s| - |left|;
    var j := i + |r|;
    assert r == s[i..j];
    assert AllSpace(s[..i]) by {
      forall k | 0 <= k < i ensures IsSpace(s[..i][k]) {
        assert s[..i][k] == s[k];
      }
    }
    assert AllSpace(s[j..]) by {
      forall k | 0 <= k < |s| - j ensures IsSpace(s[j..][k]) {
        assert s[j..][k] == left[|r| + k];
      }
    }
  }

  /** `lower()` leaves every occurrence of a pattern that is already lower case in place. */
  lemma LowerKeepsOccurrence(s: string, pat: string, k: nat)
    requires forall i :: 0 <= i < |pat| ==> LowerChar(pat[i]) == pat[i]
    requires OccursAt(s, pat, k)
    ensures OccursAt(Lower(s), pat, k)
  {
    var l := Lower(s);
    forall i | 0 <= i < |pat| ensures l[k..k + |pat|][i] == pat[i] {
      assert s[k..k + |pat|][i] == pat[i];
    }
  }
}

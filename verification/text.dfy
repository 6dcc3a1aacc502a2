/** Character classes and string searches used by the layout filters and the
    retriever: Python's whitespace set, `str.strip`, `str.isalnum`, the
    sidebar pattern `^[A-Z\s\d,]+$`, the `in` substring test and the search
    behind `str.rsplit(sep, 1)`. */
module Text {
  import opened Results

  /** Python's whitespace (`str.isspace`, `str.strip()` and `\s` in a str pattern). */
  predicate IsSpace(c: char)
  {
    var n := c as int;
    || 0x09 <= n <= 0x0D || 0x1C <= n <= 0x20 || n == 0x85 || n == 0xA0
    || n == 0x1680 || 0x2000 <= n <= 0x200A || n == 0x2028 || n == 0x2029
    || n == 0x202F || n == 0x205F || n == 0x3000
  }

  predicate IsDigit(c: char)
  {
    '0' <= c <= '9'
  }

  predicate IsUpper(c: char)
  {
    'A' <= c <= 'Z'
  }

  predicate IsAlnumChar(c: char)
  {
    IsDigit(c) || IsUpper(c) || 'a' <= c <= 'z'
  }

  /** `s.isalnum()`: non-empty and made only of letters and digits. */
  predicate IsAlnum(s: string)
  {
    |s| > 0 && forall i :: 0 <= i < |s| ==> IsAlnumChar(s[i])
  }

  /** One character of the class `[A-Z\s\d,]`. */
  predicate IsSidebarChar(c: char)
  {
    IsUpper(c) || IsSpace(c) || IsDigit(c) || c == ','
  }

  /** `re.findall("^[A-Z\s\d,]+$", s)` is non-empty: `s` is a non-empty run of
      the class.  (`$` may also match before a final newline, but a newline is
      itself in the class, so the test reduces to "every character".) */
  predicate IsSidebarText(s: string)
  {
    |s| > 0 && forall i :: 0 <= i < |s| ==> IsSidebarChar(s[i])
  }

  function TrimStart(s: string): (r: string)
    ensures |r| <= |s| && r == s[|s| - |r|..]
    ensures forall i :: 0 <= i < |s| - |r| ==> IsSpace(s[i])
    ensures |r| > 0 ==> !IsSpace(r[0])
  {
    if |s| > 0 && IsSpace(s[0]) then TrimStart(s[1..]) else s
  }

  function TrimEnd(s: string): (r: string)
    ensures |r| <= |s| && r == s[..|r|]
    ensures forall i :: |r| <= i < |s| ==> IsSpace(s[i])
    ensures |r| > 0 ==> !IsSpace(r[|r| - 1])
  {
    if |s| > 0 && IsSpace(s[|s| - 1]) then TrimEnd(s[..|s| - 1]) else s
  }

  /** `r` is `s[i..j]` and only whitespace lies outside it. */
  predicate StrippedAt(s: string, r: string, i: int, j: int)
  {
    && 0 <= i <= j <= |s|
    && r == s[i..j]
    && (forall k :: 0 <= k < i ==> IsSpace(s[k]))
    && (forall k :: j <= k < |s| ==> IsSpace(s[k]))
  }

  /** `s.strip()`: the middle of `s` once the whitespace on both ends is gone. */
  function Strip(s: string): (r: string)
    ensures exists i, j :: StrippedAt(s, r, i, j)
    ensures |r| > 0 ==> !IsSpace(r[0]) && !IsSpace(r[|r| - 1])
  {
    var front := TrimStart(s);
    var r := TrimEnd(front);
    SliceStripped(s, front, r, |s| - |front|);
    r
  }

  /** Whitespace before `i`, then `front`, whose prefix `r` is followed by
      whitespace only: `r` is `s` stripped. */
  lemma SliceStripped(s: string, front: string, r: string, i: nat)
    requires i <= |s| && front == s[i..]
    requires forall k :: 0 <= k < i ==> IsSpace(s[k])
    requires |r| <= |front| && r == front[..|r|]
    requires forall k :: |r| <= k < |front| ==> IsSpace(front[k])
    ensures StrippedAt(s, r, i, i + |r|)
  {
    var j := i + |r|;
    PrefixOfSuffix(s, front, r, i);
    forall k | j <= k < |s|
      ensures IsSpace(s[k])
    {
      assert s[k] == front[k - i];
    }
  }

  lemma PrefixOfSuffix(s: string, front: string, r: string, i: nat)
    requires i <= |s| && front == s[i..]
    requires |r| <= |front| && r == front[..|r|]
    ensures r == s[i..i + |r|]
  {
    forall k | 0 <= k < |r|
      ensures r[k] == s[i + k]
    {
      assert r[k] == front[k];
    }
  }

  predicate IsPrefix(p: string, s: string)
  {
    |p| <= |s| && s[..|p|] == p
  }

  /** `pat` occurs in `s` starting at index `j`. */
  predicate OccursAt(s: string, pat: string, j: int)
  {
    0 <= j && j + |pat| <= |s| && s[j..j + |pat|] == pat
  }

  /** Python's `sub in s`. */
  function Contains(s: string, sub: string): (b: bool)
    ensures b <==> exists j :: OccursAt(s, sub, j)
  {
    if IsPrefix(sub, s) then
      assert OccursAt(s, sub, 0);
      true
    else if |s| == 0 then false
    else
      var b := Contains(s[1..], sub);
      assert forall j :: OccursAt(s[1..], sub, j) <==> OccursAt(s, sub, j + 1);
      assert forall j :: OccursAt(s, sub, j) && j > 0 ==> OccursAt(s[1..], sub, j - 1);
      b
  }

  /** The largest `j <= upto` at which `pat` occurs in `s`, if any. */
  function LastOccurrenceUpTo(s: string, pat: string, upto: int): (r: Option<nat>)
    ensures r.Some? ==> r.value <= upto && OccursAt(s, pat, r.value)
    ensures r.Some? ==> forall j :: r.value < j <= upto ==> !OccursAt(s, pat, j)
    ensures r.None? ==> forall j :: j <= upto ==> !OccursAt(s, pat, j)
    decreases upto + 1
  {
    if upto < 0 then None
    else if OccursAt(s, pat, upto) then Some(upto)
    else LastOccurrenceUpTo(s, pat, upto - 1)
  }

  /** Where `s.rsplit(pat, 1)` cuts: the last occurrence of `pat` in `s`. */
  function LastIndexOf(s: string, pat: string): (r: Option<nat>)
    ensures r.Some? ==> OccursAt(s, pat, r.value)
    ensures r.Some? ==> forall j :: r.value < j ==> !OccursAt(s, pat, j)
    ensures r.None? ==> forall j :: !OccursAt(s, pat, j)
  {
    LastOccurrenceUpTo(s, pat, |s| - |pat|)
  }
}

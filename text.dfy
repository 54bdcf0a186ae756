/**
 * The three string operations the task store relies on: Python's `str.strip()`
 * with no argument, `str.lower()` (restricted to ASCII letters) and the
 * substring test `needle in hay`.
 */
module Text {

  /** The characters Python's `str.strip()` removes: those `str.isspace()` accepts. */
  predicate IsSpace(c: char) {
    var n := c as int;
    || 9 <= n <= 13
    || 28 <= n <= 32
    || n == 0x85 || n == 0xA0 || n == 0x1680
    || 0x2000 <= n <= 0x200A
    || n == 0x2028 || n == 0x2029 || n == 0x202F || n == 0x205F || n == 0x3000
  }

  /** A string that is empty once stripped. Python treats it as false after `.strip()`. */
  predicate Blank(s: string) {
    forall k :: 0 <= k < |s| ==> IsSpace(s[k])
  }

  /** Whitespace in front of a blank string leaves it blank. */
  lemma BlankCons(c: char, s: string)
    requires IsSpace(c) && Blank(s)
    ensures Blank([c] + s)
  {
    var t := [c] + s;
    forall k | 0 <= k < |t|
      ensures IsSpace(t[k])
    {
      if k > 0 {
        assert t[k] == s[k - 1];
      }
    }
  }

  /** Whitespace after a blank string leaves it blank. */
  lemma BlankSnoc(s: string, c: char)
    requires Blank(s) && IsSpace(c)
    ensures Blank(s + [c])
  {
    var t := s + [c];
    forall k | 0 <= k < |t|
      ensures IsSpace(t[k])
    {
      if k < |s| {
        assert t[k] == s[k];
      }
    }
  }

  /** `s` without its leading whitespace. */
  function TrimStart(s: string): (r: string)
    ensures |r| <= |s| && r == s[|s| - |r|..]
    ensures Blank(s[..|s| - |r|])
    ensures r == [] || !IsSpace(r[0])
  {
    if s != [] && IsSpace(s[0]) then
      var rest := s[1..];
      var r := TrimStart(rest);
      assert rest[|rest| - |r|..] == s[|s| - |r|..];
      BlankCons(s[0], rest[..|rest| - |r|]);
      assert s[..|s| - |r|] == [s[0]] + rest[..|rest| - |r|];
      r
    else
      s
  }

  /** `s` without its trailing whitespace. */
  function TrimEnd(s: string): (r: string)
    ensures |r| <= |s| && r == s[..|r|]
    ensures Blank(s[|r|..])
    ensures r == [] || !IsSpace(r[|r| - 1])
  {
    if s != [] && IsSpace(s[|s| - 1]) then
      var init := s[..|s| - 1];
      var r := TrimEnd(init);
      assert init[..|r|] == s[..|r|];
      BlankSnoc(init[|r|..], s[|s| - 1]);
      assert s[|r|..] == init[|r|..] + [s[|s| - 1]];
      r
    else
      s
  }

  /**
   * Python's `s.strip()`: whitespace removed from both ends, so that the
   * result neither starts nor ends with whitespace; empty exactly when `s` is
   * blank. `StripSlice` shows it is the middle slice of `s` that remains.
   */
  function Strip(s: string): (r: string)
    ensures r == [] || (!IsSpace(r[0]) && !IsSpace(r[|r| - 1]))
    ensures r == [] <==> Blank(s)
  {
    var t := TrimStart(s);
    assert Blank(s) ==> t == [];
    assert TrimEnd(t) == [] ==> Blank(s) by {
      if TrimEnd(t) == [] {
        assert s == s[..|s| - |t|] + t;
      }
    }
    TrimEnd(t)
  }

  /** What `Strip` removes is whitespace at the two ends, and it keeps everything between. */
  lemma StripSlice(s: string)
    ensures exists i, j :: 0 <= i <= j <= |s| && Strip(s) == s[i..j] && Blank(s[..i]) && Blank(s[j..])
  {
    var t := TrimStart(s);
    var r := TrimEnd(t);
    var i := |s| - |t|;
    assert r == s[i..i + |r|];
    assert s[i + |r|..] == t[|r|..];
  }

  /** A string whose ends are not whitespace is left alone by `Strip`. */
  lemma StripFixed(s: string)
    requires s == [] || (!IsSpace(s[0]) && !IsSpace(s[|s| - 1]))
    ensures Strip(s) == s
  {
    assert TrimStart(s) == s;
    assert TrimEnd(s) == s;
  }

  /** Stripping twice is stripping once. */
  lemma StripIdempotent(s: string)
    ensures Strip(Strip(s)) == Strip(s)
  {
    StripFixed(Strip(s));
  }

  /** Python's `str.lower()` on one character, for the ASCII letters `A`-`Z`. */
  function LowerChar(c: char): (d: char)
    ensures 'A' <= c <= 'Z' ==> 'a' <= d <= 'z' && d as int == c as int + 32
    ensures !('A' <= c <= 'Z') ==> d == c
  {
    if 'A' <= c <= 'Z' then (c as int + 32) as char else c
  }

  /** Python's `s.lower()`: same length, each ASCII capital replaced by its small letter. */
  function Lower(s: string): (r: string)
    ensures |r| == |s|
    ensures forall k :: 0 <= k < |s| ==> r[k] == LowerChar(s[k])
    ensures forall k :: 0 <= k < |r| ==> !('A' <= r[k] <= 'Z')
  {
    if s == [] then [] else [LowerChar(s[0])] + Lower(s[1..])
  }

  /** Lowering twice is lowering once. */
  lemma LowerIdempotent(s: string)
    ensures Lower(Lower(s)) == Lower(s)
  {
    var a, b := Lower(Lower(s)), Lower(s);
    assert forall k | 0 <= k < |a| :: a[k] == b[k];
  }

  /** `needle` occurs in `hay` starting at position `k`. */
  predicate OccursAt(hay: string, needle: string, k: nat) {
    k + |needle| <= |hay| && hay[k..k + |needle|] == needle
  }

  /** Python's `needle in hay` on strings: some position of `hay` starts a copy of `needle`. */
  function Contains(hay: string, needle: string): (b: bool)
    ensures b <==> exists k: nat :: OccursAt(hay, needle, k)
    decreases |hay|
  {
    if |hay| < |needle| then
      assert forall k: nat :: !OccursAt(hay, needle, k);
      false
    else if hay[..|needle|] == needle then
      assert OccursAt(hay, needle, 0);
      true
    else
      var rest := Contains(hay[1..], needle);
      OccursShift(hay, needle);
      rest
  }

  /** Occurrences after the first position of `hay` are the occurrences in `hay[1..]`. */
  lemma OccursShift(hay: string, needle: string)
    requires hay != [] && !OccursAt(hay, needle, 0)
    ensures (exists k: nat :: OccursAt(hay, needle, k)) <==> (exists k: nat :: OccursAt(hay[1..], needle, k))
  {
    forall k: nat | OccursAt(hay, needle, k)
      ensures OccursAt(hay[1..], needle, k - 1)
    {
      assert k > 0;
      assert hay[1..][k - 1..k - 1 + |needle|] == hay[k..k + |needle|];
    }
    forall k: nat | OccursAt(hay[1..], needle, k)
      ensures OccursAt(hay, needle, k + 1)
    {
      assert hay[1..][k..k + |needle|] == hay[k + 1..k + 1 + |needle|];
    }
  }
}

/**
 * The string operations the client relies on: `str.strip()`, `str.lower()`
 * and the search for the first `=` behind `str.split('=', 1)`.
 * Only ASCII is modelled: whitespace is the set MicroPython's `strip()`
 * removes (space, tab, line feed, vertical tab, form feed, carriage return)
 * and lower-casing maps `A`..`Z` to `a`..`z` and leaves every other
 * character alone.
 */
module Text {
  import opened Wrappers

  predicate IsSpace(c: char) {
    c == ' ' || 9 <= c as int <= 13
  }

  /** `s` with its leading whitespace removed. */
  function TrimStart(s: string): (r: string)
    ensures |r| <= |s| && r == s[|s| - |r|..]
    ensures forall k :: 0 <= k < |s| - |r| ==> IsSpace(s[k])
    ensures r != [] ==> !IsSpace(r[0])
  {
    if s != [] && IsSpace(s[0]) then TrimStart(s[1..]) else s
  }

  /** `s` with its trailing whitespace removed. */
  function TrimEnd(s: string): (r: string)
    ensures |r| <= |s| && r == s[..|r|]
    ensures forall k :: |r| <= k < |s| ==> IsSpace(s[k])
    ensures r != [] ==> !IsSpace(r[|r| - 1])
  {
    if s != [] && IsSpace(s[|s| - 1]) then TrimEnd(s[..|s| - 1]) else s
  }

  /** `r` is the slice of `s` starting at `i` and only whitespace lies around it. */
  ghost predicate SliceBetweenSpaces(s: string, r: string, i: int) {
    && 0 <= i <= i + |r| <= |s|
    && r == s[i..i + |r|]
    && (forall k :: 0 <= k < i ==> IsSpace(s[k]))
    && (forall k :: i + |r| <= k < |s| ==> IsSpace(s[k]))
  }

  /** Python's `s.strip()`: the longest slice of `s` that neither starts nor ends with whitespace. */
  function Strip(s: string): (r: string)
    ensures |r| <= |s|
    ensures r != [] ==> !IsSpace(r[0]) && !IsSpace(r[|r| - 1])
  {
    TrimEnd(TrimStart(s))
  }

  /** What Strip removes is whitespace at either end, and what it keeps is one slice of `s`. */
  lemma StripIsSlice(s: string)
    ensures exists i :: SliceBetweenSpaces(s, Strip(s), i)
  {
    var t := TrimStart(s);
    var r := TrimEnd(t);
    assert Strip(s) == r;
    assert r == s[|s| - |t|..][..|r|];
    assert SliceBetweenSpaces(s, r, |s| - |t|);
  }

  /** The two properties of Strip's contract determine its result. */
  lemma StripUnique(s: string, r: string, i: int)
    requires SliceBetweenSpaces(s, r, i)
    requires r != [] ==> !IsSpace(r[0]) && !IsSpace(r[|r| - 1])
    ensures r == Strip(s)
  {
    var q := Strip(s);
    StripIsSlice(s);
    var j :| SliceBetweenSpaces(s, q, j);
    if r != [] && q != [] {
      assert s[i] == r[0] && s[j] == q[0];
      assert s[i + |r| - 1] == r[|r| - 1] && s[j + |q| - 1] == q[|q| - 1];
      assert i == j && |r| == |q|;
      assert r == s[i..i + |r|] == q;
    } else if r != [] || q != [] {
      assert false;
    }
  }

  /** Leading whitespace already removed does not change what Strip gives. */
  lemma StripTrimStart(s: string)
    ensures Strip(TrimStart(s)) == Strip(s)
  {
    var t := TrimStart(s);
    assert TrimStart(t) == t;
  }

  /** Trailing whitespace removal keeps a first character that is not whitespace. */
  lemma TrimEndKeepsFirst(s: string)
    requires s != [] && !IsSpace(s[0])
    ensures TrimEnd(s) != [] && TrimEnd(s)[0] == s[0]
  {
  }

  /** Whitespace added after a slice between whitespace keeps it one. */
  lemma SliceInExtension(s: string, r: string, i: int, m: int)
    requires 0 <= m <= |s| && SliceBetweenSpaces(s[..m], r, i)
    requires forall k :: m <= k < |s| ==> IsSpace(s[k])
    ensures SliceBetweenSpaces(s, r, i)
  {
    var p := s[..m];
    assert s[i..i + |r|] == p[i..i + |r|];
    forall k | 0 <= k < i ensures IsSpace(s[k]) {
      assert p[k] == s[k];
    }
    forall k | i + |r| <= k < |s| ensures IsSpace(s[k]) {
      if k < m {
        assert p[k] == s[k];
      }
    }
  }

  /** Trailing whitespace already removed does not change what Strip gives. */
  lemma StripTrimEnd(s: string)
    ensures Strip(TrimEnd(s)) == Strip(s)
  {
    var e := TrimEnd(s);
    var q := Strip(e);
    StripIsSlice(e);
    var j :| SliceBetweenSpaces(e, q, j);
    SliceInExtension(s, q, j, |e|);
    StripUnique(s, q, j);
  }

  /** Stripping adds no character: one absent from `s` is absent from `Strip(s)`. */
  lemma StripKeepsAbsent(s: string, c: char)
    requires c !in s
    ensures c !in Strip(s)
  {
    var r := Strip(s);
    StripIsSlice(s);
    var i :| SliceBetweenSpaces(s, r, i);
    forall m | 0 <= m < |r| ensures r[m] != c {
      assert r[m] == s[i + m];
    }
  }

  /** Removing leading whitespace adds no character. */
  lemma TrimStartKeepsAbsent(s: string, c: char)
    requires c !in s
    ensures c !in TrimStart(s)
  {
    var r := TrimStart(s);
    var a := |s| - |r|;
    assert r == s[a..];
    assert forall m :: 0 <= m < |r| ==> r[m] == s[a + m];
  }

  /** A string strips to nothing exactly when it is all whitespace. */
  lemma StripEmptyIff(s: string)
    ensures Strip(s) == [] <==> forall k :: 0 <= k < |s| ==> IsSpace(s[k])
  {
    if forall k :: 0 <= k < |s| ==> IsSpace(s[k]) {
      assert SliceBetweenSpaces(s, [], 0);
      StripUnique(s, [], 0);
    } else {
      var k :| 0 <= k < |s| && !IsSpace(s[k]);
      var r := Strip(s);
      StripIsSlice(s);
      var i :| SliceBetweenSpaces(s, r, i);
    }
  }

  function LowerChar(c: char): (d: char)
    ensures 'A' <= c <= 'Z' ==> d as int == c as int + 32
    ensures !('A' <= c <= 'Z') ==> d == c
  {
    if 'A' <= c <= 'Z' then (c as int + 32) as char else c
  }

  /** Python's `s.lower()` restricted to ASCII letters. */
  function Lower(s: string): (r: string)
    ensures |r| == |s|
    ensures forall i :: 0 <= i < |s| ==> r[i] == LowerChar(s[i])
  {
    if s == [] then [] else [LowerChar(s[0])] + Lower(s[1..])
  }

  /** Where `c` first occurs in `s`, or None when it does not occur. */
  function IndexOf(s: string, c: char): (r: Option<nat>)
    ensures r.None? <==> c !in s
    ensures r.Some? ==> r.value < |s| && s[r.value] == c && c !in s[..r.value]
  {
    if s == [] then None
    else if s[0] == c then Some(0)
    else match IndexOf(s[1..], c)
      case None => None
      case Some(i) => Some(i + 1)
  }
}

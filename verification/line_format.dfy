/**
 * The line rules shared by the settings file and the Wi-Fi file: each line
 * is stripped; blank lines, lines starting with `#` and lines without `=`
 * contribute nothing; any other line splits at its first `=` into a
 * stripped key and a stripped value.
 */
module LineFormat {
  import opened Wrappers
  import opened Text

  /**
   * What reading a file delivered: the open failed, or these lines were read
   * before end of file (`readError` false) or before reading raised.
   */
  datatype FileRead = OpenFailed | Read(lines: seq<string>, readError: bool)

  /** The stripped line is blank, a comment, or has no `=`. */
  predicate Skipped(line: string) {
    var t := Strip(line);
    t == [] || t[0] == '#' || '=' !in t
  }

  /** `t` splits at position `i`, its first `=`, into key `k` and value `v`, both stripped. */
  ghost predicate SplitsAt(t: string, i: int, k: string, v: string) {
    && 0 <= i < |t|
    && t[i] == '='
    && '=' !in t[..i]
    && k == Strip(t[..i])
    && v == Strip(t[i + 1..])
  }

  /** The key and value one line contributes, or None for a skipped line. */
  function ParseLine(line: string): (r: Option<(string, string)>)
    ensures r.None? <==> Skipped(line)
  {
    var t := Strip(line);
    if t == [] || t[0] == '#' then None
    else match IndexOf(t, '=')
      case None => None
      case Some(i) => Some((Strip(t[..i]), Strip(t[i + 1..])))
  }

  /**
   * A kept line splits at its first `=`: the key is the stripped text before
   * it and the value the stripped text after it (which may itself hold `=`).
   */
  lemma ParseLineSplits(line: string)
    ensures ParseLine(line).Some? ==> exists i :: SplitsAt(Strip(line), i, ParseLine(line).value.0, ParseLine(line).value.1)
    ensures forall i, k, v :: !Skipped(line) && SplitsAt(Strip(line), i, k, v) ==> ParseLine(line) == Some((k, v))
  {
    var t := Strip(line);
    if ParseLine(line).Some? {
      var i := IndexOf(t, '=').value;
      assert SplitsAt(t, i, Strip(t[..i]), Strip(t[i + 1..]));
    }
    forall i, k, v | !Skipped(line) && SplitsAt(t, i, k, v) ensures ParseLine(line) == Some((k, v)) {
      assert i == IndexOf(t, '=').value;
    }
  }

  /** A line with no whitespace at its ends splits at its first `=` as it stands. */
  lemma ParseStrippedLine(line: string, i: nat)
    requires line != [] && !IsSpace(line[0]) && !IsSpace(line[|line| - 1]) && line[0] != '#'
    requires i < |line| && line[i] == '=' && '=' !in line[..i]
    ensures ParseLine(line) == Some((Strip(line[..i]), Strip(line[i + 1..])))
  {
    assert SliceBetweenSpaces(line, line, 0);
    StripUnique(line, line, 0);
    var j := IndexOf(line, '=').value;
    assert forall k :: 0 <= k < i ==> line[..i][k] == line[k];
    assert forall k :: 0 <= k < j ==> line[..j][k] == line[k];
    assert j == i;
  }

  /**
   * The split is at the first `=` only: a key without `=` whose stripped text
   * does not start with `#`, followed by `=` and any value, `=` signs and
   * surrounding whitespace included, gives that key and that value, stripped.
   */
  lemma ValueMayHoldEquals(key: string, value: string)
    requires '=' !in key
    requires Strip(key) == [] || Strip(key)[0] != '#'
    ensures ParseLine(key + "=" + value) == Some((Strip(key), Strip(value)))
  {
    var t := TrimStart(key) + "=" + TrimEnd(value);
    StripAroundEquals(key, value);
    assert SliceBetweenSpaces(t, t, 0);
    StripUnique(t, t, 0);
    ParseSameStrip(key + "=" + value, t);
    ParseTrimmedKey(key, value);
  }

  /** The key with its leading whitespace and the value with its trailing whitespace removed split alike. */
  lemma ParseTrimmedKey(key: string, value: string)
    requires '=' !in key
    requires Strip(key) == [] || Strip(key)[0] != '#'
    ensures ParseLine(TrimStart(key) + "=" + TrimEnd(value)) == Some((Strip(key), Strip(value)))
  {
    var kt := TrimStart(key);
    TrimStartKeepsAbsent(key, '=');
    if kt != [] {
      TrimEndKeepsFirst(kt);
    }
    ParseTrimmedEquals(kt, TrimEnd(value));
    StripTrimStart(key);
    StripTrimEnd(value);
  }

  /** What a line contributes depends only on its stripped text. */
  lemma ParseSameStrip(a: string, b: string)
    requires Strip(a) == Strip(b)
    ensures ParseLine(a) == ParseLine(b)
  {
  }

  /** A key and value with no whitespace at the outer ends split as they stand. */
  lemma ParseTrimmedEquals(key: string, value: string)
    requires '=' !in key
    requires key != [] ==> !IsSpace(key[0]) && key[0] != '#'
    requires value != [] ==> !IsSpace(value[|value| - 1])
    ensures ParseLine(key + "=" + value) == Some((Strip(key), Strip(value)))
  {
    JoinAtEquals(key, value);
    ParseStrippedLine(key + "=" + value, |key|);
  }

  /** The ends of `key=value`, and the parts before and after its `=` at `|key|`. */
  lemma JoinAtEquals(key: string, value: string)
    ensures var t := key + "=" + value;
      && t[0] == (if key == [] then '=' else key[0])
      && t[|t| - 1] == (if value == [] then '=' else value[|value| - 1])
      && t[|key|] == '=' && t[..|key|] == key && t[|key| + 1..] == value
  {
  }

  /** Stripping `key=value` strips only the front of the key and the end of the value. */
  lemma StripAroundEquals(key: string, value: string)
    ensures Strip(key + "=" + value) == TrimStart(key) + "=" + TrimEnd(value)
  {
    var kt, ve := TrimStart(key), TrimEnd(value);
    var t := kt + "=" + ve;
    PaddedEquals(key, kt, value, ve);
    assert t[0] == (if kt == [] then '=' else kt[0]);
    assert t[|t| - 1] == (if ve == [] then '=' else ve[|ve| - 1]);
    StripUnique(key + "=" + value, t, |key| - |kt|);
  }

  /** Text with only whitespace before `k` and only whitespace after `v` strips to `k=v`'s slice. */
  lemma PaddedEquals(key: string, k: string, value: string, v: string)
    requires |k| <= |key| && k == key[|key| - |k|..]
    requires forall n :: 0 <= n < |key| - |k| ==> IsSpace(key[n])
    requires |v| <= |value| && v == value[..|v|]
    requires forall n :: |v| <= n < |value| ==> IsSpace(value[n])
    ensures SliceBetweenSpaces(key + "=" + value, k + "=" + v, |key| - |k|)
  {
    var line, t, a := key + "=" + value, k + "=" + v, |key| - |k|;
    forall n | 0 <= n < |t| ensures line[a + n] == t[n] {
      if n < |k| {
        assert line[a + n] == key[a + n] == k[n];
      } else if n > |k| {
        assert line[a + n] == value[n - |k| - 1] == v[n - |k| - 1];
      }
    }
    assert line[a..a + |t|] == t;
    forall n | 0 <= n < a ensures IsSpace(line[n]) {
      assert line[n] == key[n];
    }
    forall n | a + |t| <= n < |line| ensures IsSpace(line[n]) {
      assert line[n] == value[n - |key| - 1];
    }
  }

  /** A line whose stripped text starts with `=`, such as `=x`, gives the empty key. */
  lemma EmptyKey(line: string)
    requires Strip(line) != [] && Strip(line)[0] == '='
    ensures ParseLine(line) == Some(("", Strip(Strip(line)[1..])))
  {
    var t := Strip(line);
    assert IndexOf(t, '=') == Some(0);
    assert t[..0] == [];
  }

  /** No key ever contains `=`, since the split is at the first one. */
  lemma KeyHasNoEquals(line: string)
    ensures ParseLine(line).Some? ==> '=' !in ParseLine(line).value.0
  {
    var t := Strip(line);
    if ParseLine(line).Some? {
      var i := IndexOf(t, '=').value;
      StripKeepsAbsent(t[..i], '=');
    }
  }

  /** What each line of a file contributes, in file order. */
  function Entries(lines: seq<string>): (es: seq<Option<(string, string)>>)
    ensures |es| == |lines|
    ensures forall n {:trigger es[n]} {:trigger ParseLine(lines[n])} :: 0 <= n < |lines| ==> es[n] == ParseLine(lines[n])
  {
    seq(|lines|, n requires 0 <= n < |lines| => ParseLine(lines[n]))
  }

  /** The entries of two files laid end to end are the entries of each, in order. */
  lemma EntriesConcat(a: seq<string>, b: seq<string>)
    ensures Entries(a + b) == Entries(a) + Entries(b)
  {
    var whole, parts := Entries(a + b), Entries(a) + Entries(b);
    forall n | 0 <= n < |whole| ensures whole[n] == parts[n] {
      if n < |a| {
        assert (a + b)[n] == a[n];
        assert Entries(a)[n] == ParseLine(a[n]);
      } else {
        assert (a + b)[n] == b[n - |a|];
        assert Entries(b)[n - |a|] == ParseLine(b[n - |a|]);
      }
    }
  }

  lemma EntriesOne(line: string)
    ensures Entries([line]) == [ParseLine(line)]
  {
    assert Entries([line])[0] == ParseLine([line][0]);
  }
}

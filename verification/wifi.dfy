/**
 * `read_wifi_config`: the Wi-Fi file read into an (ssid, password) pair.
 * The line rules are those of the settings file, except that keys are
 * lower-cased, only `ssid` and `password` matter, and unless both were found
 * (and the file was read without error) the result is (None, None).
 */
module Wifi {
  import opened Wrappers
  import opened Text
  import opened LineFormat

  /** The entry is present and its lower-cased key is `name`. */
  predicate Names(e: Option<(string, string)>, name: string) {
    e.Some? && Lower(e.value.0) == name
  }

  /** The value of the last entry whose lower-cased key is `name`, looking from the end. */
  function LastValue(entries: seq<Option<(string, string)>>, name: string): (r: Option<string>)
    ensures r.None? <==> forall n :: 0 <= n < |entries| ==> !Names(entries[n], name)
    decreases |entries|
  {
    if entries == [] then None
    else if Names(entries[|entries| - 1], name) then Some(entries[|entries| - 1].value.1)
    else LastValue(entries[..|entries| - 1], name)
  }

  /** The value the lines of a fully read file give to `name`. */
  function Credential(lines: seq<string>, name: string): (r: Option<string>)
    ensures r.None? <==> forall n :: 0 <= n < |lines| ==> !Names(ParseLine(lines[n]), name)
  {
    LastValue(Entries(lines), name)
  }

  /** The pair `read_wifi_config` returns for what reading the file delivered. */
  function WifiConfig(file: FileRead): (r: (Option<string>, Option<string>))
    ensures r.0.Some? <==> r.1.Some?
    ensures file.OpenFailed? || file.readError ==> r == (None, None)
  {
    if file.OpenFailed? || file.readError then (None, None)
    else
      var ssid, password := Credential(file.lines, "ssid"), Credential(file.lines, "password");
      if ssid.None? || password.None? then (None, None) else (ssid, password)
  }

  /**
   * A fully read file gives a pair exactly when both names were set, each to
   * its last value; an empty value such as `ssid=` counts as set.
   */
  lemma WifiConfigFound(lines: seq<string>, ssid: string, password: string)
    ensures WifiConfig(Read(lines, false)) == (Some(ssid), Some(password)) <==>
      Credential(lines, "ssid") == Some(ssid) && Credential(lines, "password") == Some(password)
  {
  }

  /** One more line changes a credential only when its lower-cased key names it. */
  lemma CredentialSnoc(lines: seq<string>, line: string, name: string)
    ensures Credential(lines + [line], name)
         == if Names(ParseLine(line), name) then Some(ParseLine(line).value.1) else Credential(lines, name)
  {
    EntriesConcat(lines, [line]);
    EntriesOne(line);
    var es := Entries(lines) + [ParseLine(line)];
    assert es[..|es| - 1] == Entries(lines);
  }

  lemma CredentialPrefix(lines: seq<string>, n: nat, name: string)
    requires n < |lines|
    ensures Credential(lines[..n + 1], name)
         == if Names(ParseLine(lines[n]), name) then Some(ParseLine(lines[n]).value.1) else Credential(lines[..n], name)
  {
    assert lines[..n + 1] == lines[..n] + [lines[n]];
    CredentialSnoc(lines[..n], lines[n], name);
  }

  /**
   * The loop of `read_wifi_config`: each kept line whose lower-cased key is
   * `ssid` or `password` reassigns that variable; afterwards a missing one, or
   * any failure to open or read the file, gives (None, None).
   */
  method ReadWifiConfig(file: FileRead) returns (ssid: Option<string>, password: Option<string>)
    ensures (ssid, password) == WifiConfig(file)
  {
    ssid, password := None, None;
    if file.OpenFailed? {
      return None, None;
    }
    var lines := file.lines;
    for n := 0 to |lines|
      invariant ssid == Credential(lines[..n], "ssid")
      invariant password == Credential(lines[..n], "password")
    {
      CredentialPrefix(lines, n, "ssid");
      CredentialPrefix(lines, n, "password");
      var line := Strip(lines[n]);
      if line == [] || line[0] == '#' {
        assert ParseLine(lines[n]) == None;
        continue;
      }
      var eq := IndexOf(line, '=');
      if eq.None? {
        assert ParseLine(lines[n]) == None;
        continue;
      }
      var key := Lower(Strip(line[..eq.value]));
      var value := Strip(line[eq.value + 1..]);
      assert ParseLine(lines[n]).value == (Strip(line[..eq.value]), value);
      if key == "ssid" {
        ssid := Some(value);
      } else if key == "password" {
        password := Some(value);
      }
    }
    assert lines[..|lines|] == lines;
    if file.readError {
      return None, None;
    }
    if ssid.None? || password.None? {
      return None, None;
    }
  }

  /**
   * LastValue agrees with the direct reading of "last one wins": it is
   * `Some(v)` exactly when some entry names `name` with value `v` and no later
   * entry names `name`.
   */
  lemma {:induction false} LastValueIsLast(entries: seq<Option<(string, string)>>, name: string, v: string)
    ensures LastValue(entries, name) == Some(v) <==>
      exists n :: 0 <= n < |entries| && Names(entries[n], name) && entries[n].value.1 == v &&
        forall m :: n < m < |entries| ==> !Names(entries[m], name)
    decreases |entries|
  {
    if entries != [] {
      var init, last := entries[..|entries| - 1], entries[|entries| - 1];
      LastValueIsLast(init, name, v);
      if Names(last, name) {
        if last.value.1 == v {
          assert Names(entries[|entries| - 1], name);
        } else {
          forall n | 0 <= n < |entries| && Names(entries[n], name) && entries[n].value.1 == v
            ensures exists m :: n < m < |entries| && Names(entries[m], name)
          {
            assert n != |entries| - 1;
            assert Names(entries[|entries| - 1], name);
          }
        }
      } else {
        if LastValue(init, name) == Some(v) {
          var n :| 0 <= n < |init| && Names(init[n], name) && init[n].value.1 == v &&
            forall m :: n < m < |init| ==> !Names(init[m], name);
          assert entries[n] == init[n];
          forall m | n < m < |entries| ensures !Names(entries[m], name) {
            if m < |init| { assert entries[m] == init[m]; }
          }
        }
        if exists n :: 0 <= n < |entries| && Names(entries[n], name) && entries[n].value.1 == v &&
            forall m :: n < m < |entries| ==> !Names(entries[m], name) {
          var n :| 0 <= n < |entries| && Names(entries[n], name) && entries[n].value.1 == v &&
            forall m :: n < m < |entries| ==> !Names(entries[m], name);
          assert n < |init|;
          assert init[n] == entries[n];
          forall m | n < m < |init| ensures !Names(init[m], name) {
            assert init[m] == entries[m];
          }
        }
      }
    }
  }

  /** An entry that does not name `name`, wherever it stands, does not affect it. */
  lemma {:induction false} LastValueIgnoresOthers(front: seq<Option<(string, string)>>, e: Option<(string, string)>,
                                                  back: seq<Option<(string, string)>>, name: string)
    requires !Names(e, name)
    ensures LastValue(front + [e] + back, name) == LastValue(front + back, name)
    decreases |back|
  {
    if back == [] {
      assert front + [e] + back == front + [e];
      assert (front + [e])[..|front|] == front;
      assert front + back == front;
    } else {
      var init, last := back[..|back| - 1], back[|back| - 1];
      LastValueIgnoresOthers(front, e, init, name);
      var with, without := front + [e] + back, front + back;
      assert with[..|with| - 1] == front + [e] + init && with[|with| - 1] == last;
      assert without[..|without| - 1] == front + init && without[|without| - 1] == last;
    }
  }

  /**
   * At the level of lines: a credential is `Some(v)` exactly when some kept
   * line whose lower-cased key is `name` has value `v` and no later kept line
   * has that key.
   */
  lemma CredentialIsLast(lines: seq<string>, name: string, v: string)
    ensures Credential(lines, name) == Some(v) <==>
      exists n :: 0 <= n < |lines| && Names(ParseLine(lines[n]), name) && ParseLine(lines[n]).value.1 == v &&
        forall m :: n < m < |lines| ==> !Names(ParseLine(lines[m]), name)
  {
    var es := Entries(lines);
    LastValueIsLast(es, name, v);
    if Credential(lines, name) == Some(v) {
      var n :| 0 <= n < |es| && Names(es[n], name) && es[n].value.1 == v &&
        forall m :: n < m < |es| ==> !Names(es[m], name);
      assert es[n] == ParseLine(lines[n]);
      forall m | n < m < |lines| ensures !Names(ParseLine(lines[m]), name) {
        assert es[m] == ParseLine(lines[m]);
      }
    }
    if exists n :: 0 <= n < |lines| && Names(ParseLine(lines[n]), name) && ParseLine(lines[n]).value.1 == v &&
        forall m :: n < m < |lines| ==> !Names(ParseLine(lines[m]), name) {
      var n :| 0 <= n < |lines| && Names(ParseLine(lines[n]), name) && ParseLine(lines[n]).value.1 == v &&
        forall m :: n < m < |lines| ==> !Names(ParseLine(lines[m]), name);
      assert es[n] == ParseLine(lines[n]);
      forall m | n < m < |es| ensures !Names(es[m], name) {
        assert es[m] == ParseLine(lines[m]);
      }
    }
  }

  /** A line that sets neither `ssid` nor `password`, wherever it stands, does not change the result. */
  lemma WifiIgnoresOtherLines(front: seq<string>, line: string, back: seq<string>, readError: bool)
    requires !Names(ParseLine(line), "ssid") && !Names(ParseLine(line), "password")
    ensures WifiConfig(Read(front + [line] + back, readError)) == WifiConfig(Read(front + back, readError))
  {
    EntriesConcat(front + [line], back);
    EntriesConcat(front, [line]);
    EntriesConcat(front, back);
    EntriesOne(line);
    LastValueIgnoresOthers(Entries(front), ParseLine(line), Entries(back), "ssid");
    LastValueIgnoresOthers(Entries(front), ParseLine(line), Entries(back), "password");
  }
}

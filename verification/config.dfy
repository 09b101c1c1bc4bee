/**
 * `read_config_settings`: the settings file read into a key to value map.
 * Keys are kept as written (stripped, not lower-cased) and a later line for
 * the same key overrides an earlier one.
 */
module Config {
  import opened Wrappers
  import opened Text
  import opened LineFormat

  /** The map built from the lines' entries in order, each present entry setting its key. */
  function Collect(entries: seq<Option<(string, string)>>): (m: map<string, string>)
    ensures forall k :: k in m ==> Some((k, m[k])) in entries
    decreases |entries|
  {
    if entries == [] then map[]
    else
      var before := Collect(entries[..|entries| - 1]);
      match entries[|entries| - 1]
      case None => before
      case Some(kv) => before[kv.0 := kv.1]
  }

  /** The settings a fully read file yields. */
  function Settings(lines: seq<string>): (m: map<string, string>)
    ensures forall k :: k in m ==> exists n :: 0 <= n < |lines| && ParseLine(lines[n]) == Some((k, m[k]))
  {
    Collect(Entries(lines))
  }

  /**
   * The loop of `read_config_settings`. A file that cannot be opened gives the
   * empty map; a read error gives the entries gathered from the lines before
   * it, and nothing is raised.
   */
  method ReadConfigSettings(file: FileRead) returns (settings: map<string, string>)
    ensures file.OpenFailed? ==> settings == map[]
    ensures file.Read? ==> settings == Settings(file.lines)
  {
    settings := map[];
    if file.OpenFailed? {
      return;
    }
    var lines := file.lines;
    for n := 0 to |lines|
      invariant settings == Settings(lines[..n])
    {
      SettingsPrefix(lines, n);
      var line := Strip(lines[n]);
      if line == [] || line[0] == '#' {
        assert ParseLine(lines[n]) == None;
        continue;
      }
      var eq := IndexOf(line, '=');
      if eq.None? {
        assert ParseLine(lines[n]) == None;
        continue;
      }
      var key := Strip(line[..eq.value]);
      var value := Strip(line[eq.value + 1..]);
      assert ParseLine(lines[n]) == Some((key, value));
      settings := settings[key := value];
    }
    assert lines[..|lines|] == lines;
  }

  lemma SettingsPrefix(lines: seq<string>, n: nat)
    requires n < |lines|
    ensures Settings(lines[..n + 1]) == if ParseLine(lines[n]).None? then Settings(lines[..n])
      else Settings(lines[..n])[ParseLine(lines[n]).value.0 := ParseLine(lines[n]).value.1]
  {
    assert lines[..n + 1] == lines[..n] + [lines[n]];
    SettingsSnoc(lines[..n], lines[n]);
  }

  lemma CollectSnoc(entries: seq<Option<(string, string)>>, e: Option<(string, string)>)
    ensures Collect(entries + [e]) == if e.None? then Collect(entries) else Collect(entries)[e.value.0 := e.value.1]
  {
    assert (entries + [e])[..|entries|] == entries;
  }

  /** The keys of the result are exactly the keys of the present entries. */
  lemma {:induction false} CollectKeys(entries: seq<Option<(string, string)>>, k: string)
    ensures k in Collect(entries) <==> exists n :: 0 <= n < |entries| && entries[n] != None && entries[n].value.0 == k
    decreases |entries|
  {
    if entries != [] {
      var init, last := entries[..|entries| - 1], entries[|entries| - 1];
      assert entries == init + [last];
      CollectSnoc(init, last);
      CollectKeys(init, k);
      if exists n :: 0 <= n < |init| && init[n] != None && init[n].value.0 == k {
        var n :| 0 <= n < |init| && init[n] != None && init[n].value.0 == k;
        assert entries[n] == init[n];
      }
      if exists n :: 0 <= n < |entries| && entries[n] != None && entries[n].value.0 == k {
        var n :| 0 <= n < |entries| && entries[n] != None && entries[n].value.0 == k;
        if n < |init| {
          assert init[n] == entries[n];
        }
      }
    }
  }

  /** A key's value is the one from the last present entry with that key. */
  lemma {:induction false} CollectLastWins(entries: seq<Option<(string, string)>>, n: nat, k: string, v: string)
    requires n < |entries| && entries[n] == Some((k, v))
    requires forall m :: n < m < |entries| && entries[m] != None ==> entries[m].value.0 != k
    ensures k in Collect(entries) && Collect(entries)[k] == v
    decreases |entries|
  {
    var init, last := entries[..|entries| - 1], entries[|entries| - 1];
    assert entries == init + [last];
    CollectSnoc(init, last);
    if n < |init| {
      forall m | n < m < |init| && init[m] != None ensures init[m].value.0 != k {
        assert init[m] == entries[m];
      }
      CollectLastWins(init, n, k, v);
    }
  }

  /** An absent entry anywhere has no effect on the result. */
  lemma {:induction false} CollectIgnoresNone(front: seq<Option<(string, string)>>, back: seq<Option<(string, string)>>)
    ensures Collect(front + [None] + back) == Collect(front + back)
    decreases |back|
  {
    if back == [] {
      assert front + [None] + back == front + [None];
      assert front + back == front;
      CollectSnoc(front, None);
    } else {
      var init, last := back[..|back| - 1], back[|back| - 1];
      CollectIgnoresNone(front, init);
      assert front + [None] + back == (front + [None] + init) + [last];
      assert front + back == (front + init) + [last];
      CollectSnoc(front + [None] + init, last);
      CollectSnoc(front + init, last);
    }
  }

  /** One more line changes the settings exactly as that line's entry says. */
  lemma SettingsSnoc(lines: seq<string>, line: string)
    ensures Settings(lines + [line]) == if ParseLine(line).None? then Settings(lines)
      else Settings(lines)[ParseLine(line).value.0 := ParseLine(line).value.1]
  {
    EntriesConcat(lines, [line]);
    EntriesOne(line);
    CollectSnoc(Entries(lines), ParseLine(line));
  }

  /** Every key of the result comes from a kept line, and every kept line's key is in the result. */
  lemma SettingsKeys(lines: seq<string>, k: string)
    ensures k in Settings(lines) <==> exists n :: 0 <= n < |lines| && ParseLine(lines[n]) != None && ParseLine(lines[n]).value.0 == k
  {
    var es := Entries(lines);
    CollectKeys(es, k);
    if k in Settings(lines) {
      var n :| 0 <= n < |es| && es[n] != None && es[n].value.0 == k;
      assert es[n] == ParseLine(lines[n]);
    }
    if exists n :: 0 <= n < |lines| && ParseLine(lines[n]) != None && ParseLine(lines[n]).value.0 == k {
      var n :| 0 <= n < |lines| && ParseLine(lines[n]) != None && ParseLine(lines[n]).value.0 == k;
      assert es[n] == ParseLine(lines[n]);
    }
  }

  /** When several kept lines share a key, the value from the last of them wins. */
  lemma SettingsLastWins(lines: seq<string>, n: nat, k: string, v: string)
    requires n < |lines| && ParseLine(lines[n]) == Some((k, v))
    requires forall m :: n < m < |lines| && ParseLine(lines[m]) != None ==> ParseLine(lines[m]).value.0 != k
    ensures k in Settings(lines) && Settings(lines)[k] == v
  {
    var es := Entries(lines);
    forall m | n < m < |es| && es[m] != None ensures es[m].value.0 != k {
      assert es[m] == ParseLine(lines[m]);
    }
    assert es[n] == ParseLine(lines[n]);
    CollectLastWins(es, n, k, v);
  }

  /** A blank, comment or `=`-less line anywhere in the file has no effect. */
  lemma SettingsIgnoreSkipped(front: seq<string>, line: string, back: seq<string>)
    requires Skipped(line)
    ensures Settings(front + [line] + back) == Settings(front + back)
  {
    var f, b := Entries(front), Entries(back);
    EntriesConcat(front + [line], back);
    EntriesConcat(front, [line]);
    EntriesConcat(front, back);
    EntriesOne(line);
    assert ParseLine(line) == None;
    CollectIgnoresNone(f, b);
  }
}

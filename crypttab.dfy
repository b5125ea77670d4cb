/** The /etc/crypttab text handling of system/luks.py: reading the entries
    (lines 167-203) and the line-by-line rewrite that adds, replaces or
    removes the entry of one LUKS container (lines 206-307). The file is read
    with `readlines`, so it is a sequence of lines, each ending in a newline
    except perhaps the last. */
module Crypttab {
  import opened Wrappers
  import opened Text
  import opened LuksStatus

  const CrypttabFile: string := "/etc/crypttab"

  /** The uuid of a `UUID=<uuid>` source column: the column starts with
      "UUID=" and splits on '=' into exactly two parts. */
  function UuidValue(field: string): (r: Option<string>)
    ensures r.Some? <==> StartsWith(field, "UUID=") && '=' !in field[5..]
    ensures r.Some? ==> field == "UUID=" + r.value
  {
    if StartsWith(field, "UUID=") then
      assert field == "UUID=" + field[5..];
      UuidColumnSplit(field[5..]);
      if |Split(field, '=')| == 2 then Some(Split(field, '=')[1]) else None
    else None
  }

  /** "UUID=" followed by `rest` splits on '=' into two parts exactly when
      `rest` has no '=', the second part then being `rest`. */
  lemma UuidColumnSplit(rest: string)
    ensures |Split("UUID=" + rest, '=')| == 2 <==> '=' !in rest
    ensures '=' !in rest ==> Split("UUID=" + rest, '=') == ["UUID", rest]
  {
    assert "UUID=" + rest == "UUID" + ['='] + rest;
    SplitAround("UUID", '=', rest);
    SplitWithoutSeparator("UUID", '=');
    SplitSingle(rest, '=');
    if '=' !in rest { SplitWithoutSeparator(rest, '='); }
  }

  // ---------------------------------------------------------------------
  // get_crypttab_entries
  // ---------------------------------------------------------------------

  /** What one line contributes to get_crypttab_entries: its source uuid and
      its third column, for a line of at least three fields whose source is
      `UUID=` and 36 characters. */
  function LineEntry(line: string): Option<(string, string)> {
    if line == "\n" then None
    else
      var f := Fields(line);
      if |f| < 3 then None
      else
        match UuidValue(f[1])
        case None => None
        case Some(v) => if |v| == 36 then Some((v, f[2])) else None
  }

  /** get_crypttab_entries on the file's lines: a later line overwrites an
      earlier one with the same uuid. */
  function Entries(lines: seq<string>): map<string, string>
    decreases |lines|
  {
    if lines == [] then map[]
    else
      var m := Entries(lines[..|lines| - 1]);
      match LineEntry(Last(lines))
      case None => m
      case Some((u, k)) => m[u := k]
  }

  /** A uuid has an entry exactly when some line gives it one, and its value
      comes from the last such line. */
  lemma {:induction false} EntriesLastLineWins(lines: seq<string>, u: string)
    ensures u in Entries(lines) <==>
      exists i :: 0 <= i < |lines| && LineEntry(lines[i]).Some? && LineEntry(lines[i]).value.0 == u
    ensures u in Entries(lines) ==>
      exists i :: 0 <= i < |lines| && LineEntry(lines[i]) == Some((u, Entries(lines)[u])) &&
        forall j :: i < j < |lines| ==> LineEntry(lines[j]).None? || LineEntry(lines[j]).value.0 != u
    decreases |lines|
  {
    if lines != [] {
      var n := |lines| - 1;
      var front := lines[..n];
      EntriesLastLineWins(front, u);
      assert forall i :: 0 <= i < n ==> lines[i] == front[i];
      var e := LineEntry(lines[n]);
      if !(e.Some? && e.value.0 == u) && u in Entries(lines) {
        var i :| 0 <= i < |front| && LineEntry(front[i]) == Some((u, Entries(front)[u])) &&
          forall j :: i < j < |front| ==> LineEntry(front[j]).None? || LineEntry(front[j]).value.0 != u;
        assert LineEntry(lines[i]) == Some((u, Entries(lines)[u]));
      }
    }
  }

  // ---------------------------------------------------------------------
  // update_crypttab's treatment of one line
  // ---------------------------------------------------------------------

  /** How the rewrite treats a line for container `u`. */
  datatype LineAction =
    | Drop                       // blank, under three fields, or a malformed UUID= column
    | Copy                       // any other line: written as it is
    | Match                      // the line of container u
    | CheckDevice(dev: string)   // UUID=/dev/...: compared through the device-name map

  /** The checks of the loop body before any device lookup. Only a `UUID=`
      column can lead to the `/dev` comparison, so a bare device path in the
      source column is copied as it is. */
  function Classify(line: string, u: string): (r: LineAction)
    ensures !r.Drop? ==> |Fields(line)| >= 3
    ensures r.Drop? ==> LineEntry(line).None?
    ensures (r.Copy? || r.CheckDevice?) && LineEntry(line).Some? ==>
      LineEntry(line).value.0 != u && (r.CheckDevice? ==> StartsWith(LineEntry(line).value.0, "/dev"))
    ensures r.Match? && |u| == 36 ==> LineEntry(line).Some? && LineEntry(line).value.0 == u
  {
    if line == "\n" then Drop
    else
      var f := Fields(line);
      if |f| < 3 then Drop
      else if !StartsWith(f[1], "UUID=") then Copy
      else
        var parts := Split(f[1], '=');
        if |parts| != 2 then Drop
        else if parts[1] == u then Match
        else if StartsWith(parts[1], "/dev") then CheckDevice(Last(Split(parts[1], '/')))
        else Copy
  }

  /** The line's action once a device reference is looked up: a device the
      map lacks raises KeyError, reported as Err with the device name. */
  function Resolve(line: string, u: string, m: UuidNameMap): (r: Result<LineAction, string>)
    ensures r.Ok? ==> !r.value.CheckDevice?
    ensures r.Ok? && !r.value.Drop? ==> |Fields(line)| >= 3
    ensures r.Err? <==> Classify(line, u).CheckDevice? && Classify(line, u).dev !in m
  {
    match Classify(line, u)
    case CheckDevice(dev) =>
      if dev !in m then Err(dev)
      else if m[dev] == Some(u) then Ok(Match)
      else Ok(Copy)
    case a => Ok(a)
  }

  /** Three whitespace-free columns, each followed by a space, then `tail`. */
  function ColumnsLine(c1: string, c2: string, c3: string, tail: string): string {
    c1 + [' '] + (c2 + [' '] + (c3 + [' '] + tail))
  }

  /** The options column of a native line: the original options (fields four
      onward) or "luks" when there are none. */
  function OptionsColumn(options: seq<string>): string {
    if options == [] then "luks" else Join(options, ' ')
  }

  /** The native line the rewrite writes for container `u`: mapper name
      luks-<u>, source UUID=<u>, the keyfile column `k` and the options. */
  function EntryLine(u: string, k: string, options: seq<string>): string {
    ColumnsLine("luks-" + u, "UUID=" + u, k, OptionsColumn(options) + "\n")
  }

  /** A line with its newline restored when it lacks one. */
  function Terminated(line: string): (r: string)
    ensures IsLine(line) ==> IsTerminatedLine(r)
  {
    if line != [] && line[|line| - 1] == '\n' then line else line + "\n"
  }

  // ---------------------------------------------------------------------
  // The rewrite
  // ---------------------------------------------------------------------

  /** The loop over the lines: the lines written to the temp file and whether
      an entry for `u` was written. A copied line keeps its text, with its
      newline restored when `terminate` holds. */
  function RewriteLoop(lines: seq<string>, u: string, k: string, m: UuidNameMap, terminate: bool)
    : Result<(seq<string>, bool), string>
    decreases |lines|
  {
    if lines == [] then Ok(([], false))
    else
      var line := lines[|lines| - 1];
      match RewriteLoop(lines[..|lines| - 1], u, k, m, terminate)
      case Err(dev) => Err(dev)
      case Ok((out, written)) =>
        match Resolve(line, u, m)
        case Err(dev) => Err(dev)
        case Ok(action) =>
          if action.Match? then
            if k == "false" then Ok((out, written))
            else Ok((out + [EntryLine(u, k, Fields(line)[3..])], true))
          else if action.Copy? then
            Ok((out + [if terminate then Terminated(line) else line], written))
          else
            Ok((out, written))
  }

  /** The loop followed by the appended entry when none was written and the
      keyfile column is not "false". */
  function Rewrite(lines: seq<string>, u: string, k: string, m: UuidNameMap, terminate: bool)
    : Result<seq<string>, string>
  {
    match RewriteLoop(lines, u, k, m, terminate)
    case Err(dev) => Err(dev)
    case Ok((out, written)) =>
      Ok(if k != "false" && !written then out + [EntryLine(u, k, [])] else out)
  }

  /** update_crypttab's rewrite as written: other lines are copied exactly,
      so a last line without a newline runs into an appended entry. */
  function RewriteLinesAsWritten(lines: seq<string>, u: string, k: string, m: UuidNameMap)
    : Result<seq<string>, string>
  {
    Rewrite(lines, u, k, m, false)
  }

  /** update_crypttab's rewrite as intended: every line written ends with a
      newline. */
  function RewriteLines(lines: seq<string>, u: string, k: string, m: UuidNameMap)
    : Result<seq<string>, string>
  {
    Rewrite(lines, u, k, m, true)
  }

  /** One more line through the loop: a matching line adds the native
      entry (unless the keyfile is "false"), a copied line adds itself and
      any other line adds nothing. */
  lemma RewriteLoopNext(lines: seq<string>, i: nat, u: string, k: string, m: UuidNameMap, terminate: bool)
    requires i < |lines|
    requires RewriteLoop(lines[..i], u, k, m, terminate).Ok? && Resolve(lines[i], u, m).Ok?
    ensures var (out, written) := RewriteLoop(lines[..i], u, k, m, terminate).value;
      var action := Resolve(lines[i], u, m).value;
      RewriteLoop(lines[..i + 1], u, k, m, terminate) ==
        if action.Match? && k != "false" then Ok((out + [EntryLine(u, k, Fields(lines[i])[3..])], true))
        else if action.Copy? then Ok((out + [if terminate then Terminated(lines[i]) else lines[i]], written))
        else Ok((out, written))
  {
    assert lines[..i + 1][..i] == lines[..i];
  }

  /** Over newline-terminated lines the rewrite as written and the intended
      one write the same lines: restoring a newline changes nothing there. */
  lemma {:induction false} RewriteLoopTerminatedLines(lines: seq<string>, u: string, k: string, m: UuidNameMap)
    requires forall l <- lines :: IsTerminatedLine(l)
    ensures RewriteLoop(lines, u, k, m, false) == RewriteLoop(lines, u, k, m, true)
    decreases |lines|
  {
    if lines != [] {
      var n := |lines| - 1;
      assert forall l <- lines[..n] :: l in lines;
      RewriteLoopTerminatedLines(lines[..n], u, k, m);
      assert lines[n] in lines;
      assert Terminated(lines[n]) == lines[n];
    }
  }

  /** A failed rewrite loop stays failed whatever lines follow. */
  lemma {:induction false} RewriteLoopErrSticks(lines: seq<string>, n: nat, u: string, k: string, m: UuidNameMap, terminate: bool)
    requires n <= |lines|
    requires RewriteLoop(lines[..n], u, k, m, terminate).Err?
    ensures RewriteLoop(lines, u, k, m, terminate) == RewriteLoop(lines[..n], u, k, m, terminate)
    decreases |lines| - n
  {
    if n < |lines| {
      var m1 := |lines| - 1;
      if n < m1 {
        assert lines[..m1][..n] == lines[..n];
        RewriteLoopErrSticks(lines[..m1], n, u, k, m, terminate);
      } else {
        assert lines[..m1] == lines[..n];
      }
    } else {
      assert lines[..n] == lines;
    }
  }

  /** Some line is `UUID=/dev/<dev>` for another container with `dev`
      missing from the device-name map. */
  predicate NamesUnknownDevice(lines: seq<string>, u: string, m: UuidNameMap) {
    exists i :: 0 <= i < |lines| && Resolve(lines[i], u, m).Err?
  }

  /** The rewrite fails exactly when a `UUID=/dev/...` line names a device
      the map lacks. */
  lemma {:induction false} RewriteFails(lines: seq<string>, u: string, k: string, m: UuidNameMap, terminate: bool)
    ensures Rewrite(lines, u, k, m, terminate).Err? <==> NamesUnknownDevice(lines, u, m)
    decreases |lines|
  {
    if lines != [] {
      var n := |lines| - 1;
      RewriteFails(lines[..n], u, k, m, terminate);
      assert forall i :: 0 <= i < n ==> lines[i] == lines[..n][i];
    }
  }

  // ---------------------------------------------------------------------
  // The rewrite read back
  // ---------------------------------------------------------------------

  lemma JoinWithoutNewline(parts: seq<string>, sep: char)
    requires sep != '\n'
    requires forall p <- parts :: '\n' !in p
    ensures '\n' !in Join(parts, sep)
    decreases |parts|
  {
    if |parts| > 1 {
      JoinWithoutNewline(parts[1..], sep);
    }
  }

  /** The first three fields of a columns line are its three columns. */
  lemma ColumnsFields(c1: string, c2: string, c3: string, tail: string)
    requires IsWord(c1) && IsWord(c2) && IsWord(c3)
    ensures Fields(ColumnsLine(c1, c2, c3, tail)) == [c1, c2, c3] + Fields(tail)
    ensures ColumnsLine(c1, c2, c3, tail) != "\n"
  {
    FieldsWordThenSpace(c1, ' ', c2 + [' '] + (c3 + [' '] + tail));
    FieldsWordThenSpace(c2, ' ', c3 + [' '] + tail);
    FieldsWordThenSpace(c3, ' ', tail);
  }

  /** Text written after a columns line continues its tail. */
  lemma ColumnsLineAppend(c1: string, c2: string, c3: string, tail: string, more: string)
    ensures ColumnsLine(c1, c2, c3, tail) + more == ColumnsLine(c1, c2, c3, tail + more)
  {
    var t3 := c3 + [' '] + tail;
    assert t3 + more == c3 + [' '] + (tail + more);
    var t2 := c2 + [' '] + t3;
    assert t2 + more == c2 + [' '] + (t3 + more);
    assert c1 + [' '] + t2 + more == c1 + [' '] + (t2 + more);
  }

  /** A columns line is a line when its tail is one. */
  lemma ColumnsLineIsLine(c1: string, c2: string, c3: string, tail: string)
    requires IsWord(c1) && IsWord(c2) && IsWord(c3) && IsLine(tail)
    ensures IsLine(ColumnsLine(c1, c2, c3, tail))
    ensures IsTerminatedLine(tail) ==> IsTerminatedLine(ColumnsLine(c1, c2, c3, tail))
  {
    assert NoSpace(c1) && NoSpace(c2) && NoSpace(c3);
    PrefixLine(c3 + [' '], tail);
    PrefixLine(c2 + [' '], c3 + [' '] + tail);
    PrefixLine(c1 + [' '], c2 + [' '] + (c3 + [' '] + tail));
  }

  /** The native line is one line, and reads back as the entry u -> k. */
  lemma EntryLineReadsBack(u: string, k: string, options: seq<string>)
    requires IsWord(u) && |u| == 36 && '=' !in u
    requires IsWord(k)
    requires forall o <- options :: IsWord(o)
    ensures IsTerminatedLine(EntryLine(u, k, options))
    ensures LineEntry(EntryLine(u, k, options)) == Some((u, k))
  {
    var c1 := "luks-" + u;
    var c2 := "UUID=" + u;
    assert NoSpace(u);
    assert IsWord(c1) && IsWord(c2);
    var tail := OptionsColumn(options) + "\n";
    ColumnsFields(c1, c2, k, tail);
    assert c2[5..] == u;
    if options != [] {
      forall o <- options ensures '\n' !in o {
        assert NoSpace(o);
      }
      JoinWithoutNewline(options, ' ');
    }
    PrefixLine(OptionsColumn(options), "\n");
    ColumnsLineIsLine(c1, c2, k, tail);
  }

  /** A copied line reads back as the same entry, newline restored or not. */
  lemma TerminatedSameEntry(line: string)
    requires IsLine(line)
    ensures LineEntry(Terminated(line)) == LineEntry(line)
  {
    if Terminated(line) != line {
      FieldsAppendSpace(line, '\n');
    }
  }

  /** What the loop has established over a prefix of the lines. */
  ghost predicate LoopInv(lines: seq<string>, out: seq<string>, written: bool, u: string, k: string) {
    && (forall l <- out :: IsTerminatedLine(l))
    && (written ==> k != "false")
    && (u in Entries(out) <==> written)
    && (written ==> Entries(out)[u] == k)
    && (forall x :: x != u && !StartsWith(x, "/dev") ==>
          (x in Entries(out) <==> x in Entries(lines)) &&
          (x in Entries(out) ==> Entries(out)[x] == Entries(lines)[x]))
  }

  lemma EntriesSnoc(ls: seq<string>, l: string)
    ensures Entries(ls + [l]) == match LineEntry(l) case None => Entries(ls) case Some((a, b)) => Entries(ls)[a := b]
  {
    assert (ls + [l])[..|ls|] == ls;
  }

  /** A line naming `u` (or a `/dev` path) replaced by the native entry. */
  lemma LoopInvAfterEntry(front: seq<string>, line: string, out: seq<string>, written: bool,
                          u: string, k: string, e: string)
    requires LoopInv(front, out, written, u, k)
    requires k != "false" && IsTerminatedLine(e) && LineEntry(e) == Some((u, k))
    requires LineEntry(line).None? || LineEntry(line).value.0 == u || StartsWith(LineEntry(line).value.0, "/dev")
    ensures LoopInv(front + [line], out + [e], true, u, k)
  {
    EntriesSnoc(front, line);
    EntriesSnoc(out, e);
  }

  /** A line of another container copied with its newline restored. */
  lemma LoopInvAfterCopy(front: seq<string>, line: string, out: seq<string>, written: bool,
                         u: string, k: string, copied: string)
    requires LoopInv(front, out, written, u, k)
    requires IsTerminatedLine(copied) && LineEntry(copied) == LineEntry(line)
    requires LineEntry(line).Some? ==> LineEntry(line).value.0 != u
    ensures LoopInv(front + [line], out + [copied], written, u, k)
  {
    EntriesSnoc(front, line);
    EntriesSnoc(out, copied);
  }

  /** A line left out of the temp file. */
  lemma LoopInvAfterSkip(front: seq<string>, line: string, out: seq<string>, written: bool, u: string, k: string)
    requires LoopInv(front, out, written, u, k)
    requires LineEntry(line).None? || LineEntry(line).value.0 == u || StartsWith(LineEntry(line).value.0, "/dev")
    ensures LoopInv(front + [line], out, written, u, k)
  {
    EntriesSnoc(front, line);
  }

  lemma {:induction false} RewriteLoopInv(lines: seq<string>, u: string, k: string, m: UuidNameMap)
    requires forall l <- lines :: IsLine(l)
    requires IsWord(u) && |u| == 36 && '=' !in u
    requires IsWord(k)
    requires RewriteLoop(lines, u, k, m, true).Ok?
    ensures LoopInv(lines, RewriteLoop(lines, u, k, m, true).value.0, RewriteLoop(lines, u, k, m, true).value.1, u, k)
    decreases |lines|
  {
    if lines != [] {
      var n := |lines| - 1;
      var front := lines[..n];
      var line := lines[n];
      assert lines == front + [line];
      RewriteLoopInv(front, u, k, m);
      var (out, written) := RewriteLoop(front, u, k, m, true).value;
      var action := Resolve(line, u, m).value;
      if action.Match? && k != "false" {
        EntryLineReadsBack(u, k, Fields(line)[3..]);
        LoopInvAfterEntry(front, line, out, written, u, k, EntryLine(u, k, Fields(line)[3..]));
      } else if action.Copy? {
        TerminatedSameEntry(line);
        LoopInvAfterCopy(front, line, out, written, u, k, Terminated(line));
      } else {
        LoopInvAfterSkip(front, line, out, written, u, k);
      }
    }
  }

  /** update_crypttab followed by get_crypttab_entries: with keyfile column
      "false" the container has no entry any more, otherwise its entry is
      `k`; the entry of every other container is as before. (Entries whose
      uuid column is itself a `/dev` path are outside this statement.) */
  lemma RewriteSetsEntry(lines: seq<string>, u: string, k: string, m: UuidNameMap)
    requires forall l <- lines :: IsLine(l)
    requires IsWord(u) && |u| == 36 && '=' !in u
    requires IsWord(k)
    requires RewriteLines(lines, u, k, m).Ok?
    ensures var after := Entries(ReadLines(Concat(RewriteLines(lines, u, k, m).value)));
      && (k == "false" ==> u !in after)
      && (k != "false" ==> u in after && after[u] == k)
      && (forall x :: x != u && !StartsWith(x, "/dev") ==>
            (x in after <==> x in Entries(lines)) && (x in after ==> after[x] == Entries(lines)[x]))
  {
    RewriteLoopInv(lines, u, k, m);
    var (out, written) := RewriteLoop(lines, u, k, m, true).value;
    var result := RewriteLines(lines, u, k, m).value;
    if k != "false" && !written {
      EntryLineReadsBack(u, k, []);
      EntriesSnoc(out, EntryLine(u, k, []));
    }
    ReadLinesConcat(result);
  }

  /** A file holding only the native line reads back as that one entry. */
  lemma SingleEntryReadsBack(u: string, k: string)
    requires IsWord(u) && |u| == 36 && '=' !in u
    requires IsWord(k)
    ensures Entries(ReadLines(EntryLine(u, k, []))) == map[u := k]
  {
    EntryLineReadsBack(u, k, []);
    ReadLinesOfLine(EntryLine(u, k, []));
    EntriesSnoc([], EntryLine(u, k, []));
    assert [] + [EntryLine(u, k, [])] == [EntryLine(u, k, [])];
  }

  /** The one-line file of the example below: another container's entry
      whose last column is not followed by a newline. */
  function ForeignLine(a: string): string {
    ColumnsLine("luks-" + a, "UUID=" + a, "none", "luks")
  }

  /** The foreign line, followed by any line, reads as a's entry. */
  lemma ForeignColumnsEntry(a: string, tail: string)
    requires IsWord(a) && |a| == 36 && '=' !in a && IsLine(tail)
    ensures IsLine(ColumnsLine("luks-" + a, "UUID=" + a, "none", tail))
    ensures |Fields(ColumnsLine("luks-" + a, "UUID=" + a, "none", tail))| >= 3
    ensures Fields(ColumnsLine("luks-" + a, "UUID=" + a, "none", tail))[1] == "UUID=" + a
    ensures LineEntry(ColumnsLine("luks-" + a, "UUID=" + a, "none", tail)) == Some((a, "none"))
  {
    var c1 := "luks-" + a;
    var c2 := "UUID=" + a;
    assert NoSpace(a);
    assert IsWord(c1) && IsWord(c2) && IsWord("none");
    assert c2[5..] == a;
    ColumnsFields(c1, c2, "none", tail);
    ColumnsLineIsLine(c1, c2, "none", tail);
  }

  /** For another container b, the foreign line is copied. */
  lemma ForeignLineCopied(a: string, b: string, m: UuidNameMap)
    requires IsWord(a) && |a| == 36 && '=' !in a && !StartsWith(a, "/dev")
    requires a != b
    ensures Resolve(ForeignLine(a), b, m) == Ok(Copy)
  {
    assert IsLine("luks");
    ForeignColumnsEntry(a, "luks");
    UuidColumnSplit(a);
    assert ("UUID=" + a)[5..] == a;
    assert Classify(ForeignLine(a), b) == Copy;
  }

  /** The rewrite for container b copies the foreign line, then appends b's
      entry. */
  lemma ForeignLineRewrites(a: string, b: string, k: string, m: UuidNameMap)
    requires IsWord(a) && |a| == 36 && '=' !in a && !StartsWith(a, "/dev")
    requires IsWord(b) && |b| == 36 && '=' !in b && a != b
    requires k != "false"
    ensures RewriteLinesAsWritten([ForeignLine(a)], b, k, m) == Ok([ForeignLine(a), EntryLine(b, k, [])])
    ensures RewriteLines([ForeignLine(a)], b, k, m) == Ok([ForeignLine(a) + "\n", EntryLine(b, k, [])])
  {
    var original := ForeignLine(a);
    var lines := [original];
    ForeignLineCopied(a, b, m);
    assert lines[..0] == [];
    assert RewriteLoop(lines[..0], b, k, m, false) == Ok(([], false));
    assert RewriteLoop(lines[..0], b, k, m, true) == Ok(([], false));
    assert [] + [original] == [original];
    assert RewriteLoop(lines, b, k, m, false) == Ok(([original], false));
    assert Terminated(original) == original + "\n";
    assert [] + [original + "\n"] == [original + "\n"];
    assert RewriteLoop(lines, b, k, m, true) == Ok(([original + "\n"], false));
    assert [original] + [EntryLine(b, k, [])] == [original, EntryLine(b, k, [])];
    assert [original + "\n"] + [EntryLine(b, k, [])] == [original + "\n", EntryLine(b, k, [])];
  }

  /** The foreign line written without its newline, then b's entry: one
      line, read as a's entry only. */
  lemma JoinedReadsBack(a: string, b: string, k: string)
    requires IsWord(a) && |a| == 36 && '=' !in a
    requires IsWord(b) && |b| == 36 && '=' !in b
    requires IsWord(k)
    ensures Entries(ReadLines(Concat([ForeignLine(a), EntryLine(b, k, [])]))) == map[a := "none"]
  {
    var original := ForeignLine(a);
    var entry := EntryLine(b, k, []);
    EntryLineReadsBack(b, k, []);
    assert [original, entry][..1] == [original];
    assert [original][..0] == [];
    assert Concat([original]) == original;
    assert Concat([original, entry]) == original + entry;
    var joined := ColumnsLine("luks-" + a, "UUID=" + a, "none", "luks" + entry);
    ColumnsLineAppend("luks-" + a, "UUID=" + a, "none", "luks", entry);
    PrefixLine("luks", entry);
    ForeignColumnsEntry(a, "luks" + entry);
    ReadLinesOfLine(joined);
    EntriesSnoc([], joined);
    assert [] + [joined] == [joined];
  }

  /** The foreign line with its newline, then b's entry: both entries. */
  lemma SeparateReadsBack(a: string, b: string, k: string)
    requires IsWord(a) && |a| == 36 && '=' !in a
    requires IsWord(b) && |b| == 36 && '=' !in b
    requires IsWord(k)
    ensures Entries(ReadLines(Concat([ForeignLine(a) + "\n", EntryLine(b, k, [])]))) == map[a := "none", b := k]
  {
    var original := ForeignLine(a);
    var entry := EntryLine(b, k, []);
    EntryLineReadsBack(b, k, []);
    assert IsLine("luks");
    ForeignColumnsEntry(a, "luks");
    var first := original + "\n";
    TerminatedSameEntry(original);
    assert Terminated(original) == first;
    ReadLinesConcat([first, entry]);
    EntriesSnoc([], first);
    assert [] + [first] == [first];
    assert [first, entry][..1] == [first];
    EntriesSnoc([first], entry);
  }

  /** As written, an entry appended after a last line that lacks its newline
      joins that line: the file "luks-<a> UUID=<a> none luks" updated for
      container b reads back with no entry for b; the intended rewrite gives
      both entries. */
  lemma UnterminatedLastLineSwallowsEntry(a: string, b: string, k: string, m: UuidNameMap)
    requires IsWord(a) && |a| == 36 && '=' !in a && !StartsWith(a, "/dev")
    requires IsWord(b) && |b| == 36 && '=' !in b && a != b
    requires IsWord(k) && k != "false"
    ensures var lines := ReadLines(ForeignLine(a));
      && RewriteLinesAsWritten(lines, b, k, m).Ok?
      && RewriteLines(lines, b, k, m).Ok?
      && Entries(ReadLines(Concat(RewriteLinesAsWritten(lines, b, k, m).value))) == map[a := "none"]
      && Entries(ReadLines(Concat(RewriteLines(lines, b, k, m).value))) == map[a := "none", b := k]
  {
    assert IsLine("luks");
    ForeignColumnsEntry(a, "luks");
    ReadLinesOfLine(ForeignLine(a));
    ForeignLineRewrites(a, b, k, m);
    JoinedReadsBack(a, b, k);
    SeparateReadsBack(a, b, k);
  }

  lemma DeviceName(dev: string)
    requires '/' !in dev
    ensures Last(Split("/dev/" + dev, '/')) == dev
  {
    assert "/dev/" + dev == "/dev" + ['/'] + dev;
    SplitAround("/dev", '/', dev);
    SplitWithoutSeparator(dev, '/');
  }

  /** A line whose source is `UUID=/dev/<dev>`, with `dev` missing from the
      device-name map, makes the rewrite fail with that device. */
  lemma UnknownDeviceLineFails(u: string, k: string, dev: string, m: UuidNameMap)
    requires IsWord(dev) && '/' !in dev && '=' !in dev && dev !in m
    requires u != "/dev/" + dev
    ensures var line := ColumnsLine("luks-x", "UUID=" + ("/dev/" + dev), "none", "luks\n");
      && RewriteLines([line], u, k, m) == Err(dev)
      && RewriteLinesAsWritten([line], u, k, m) == Err(dev)
  {
    var source := "/dev/" + dev;
    var c2 := "UUID=" + source;
    var line := ColumnsLine("luks-x", c2, "none", "luks\n");
    assert NoSpace(dev);
    assert IsWord("luks-x") && IsWord(c2) && IsWord("none");
    ColumnsFields("luks-x", c2, "none", "luks\n");
    assert c2[5..] == source;
    assert '=' !in source;
    UuidColumnSplit(source);
    DeviceName(dev);
    assert source[..4] == "/dev";
    assert Classify(line, u) == CheckDevice(dev);
    assert Resolve(line, u, m) == Err(dev);
    assert [line][..0] == [];
    assert RewriteLoop([line][..0], u, k, m, true) == Ok(([], false));
    assert RewriteLoop([line][..0], u, k, m, false) == Ok(([], false));
    assert RewriteLoop([line], u, k, m, true) == Err(dev);
    assert RewriteLoop([line], u, k, m, false) == Err(dev);
  }

}

/**
 * The build log: a text file of a few lines, the last of which records the
 * date and page count of the latest index build. The file is modelled as its
 * text, or `None` when it does not exist. Opening it in text mode turns every
 * "\r\n" and lone "\r" into "\n"; `readlines()` then cuts the text after
 * each "\n", and `writelines` writes the lines back one after another.
 */
module FileProcessor {
  import opened Common
  import opened Strings

  /** Lines kept before the new entry is appended: the oldest is dropped only when there are more than 10. */
  const MaxKept := 10

  /** The lines `update_log` writes back: drop the oldest of more than 10, then append the entry. */
  function Rotate(lines: seq<string>, newLog: string): (r: seq<string>)
    ensures |r| == if |lines| > MaxKept then |lines| else |lines| + 1
    ensures r[|r| - 1] == newLog + "\n"
    ensures r[..|r| - 1] == if |lines| > MaxKept then lines[1..] else lines
  {
    (if |lines| > MaxKept then lines[1..] else lines) + [newLog + "\n"]
  }

  /** The lines after one `update_log` per entry, in order. */
  function RotateAll(lines: seq<string>, entries: seq<string>): seq<string>
  {
    if entries == [] then lines
    else Rotate(RotateAll(lines, entries[..|entries| - 1]), entries[|entries| - 1])
  }

  /**
   * The log grows by one line per build until it holds 11 lines and then
   * stays at 11 (not 10); a file that already had more than 11 lines never
   * shrinks.
   */
  lemma {:induction false} RotateAllLength(lines: seq<string>, entries: seq<string>)
    ensures |RotateAll(lines, entries)| == if |lines| > MaxKept then |lines| else Min(|lines| + |entries|, MaxKept + 1)
    decreases |entries|
  {
    if entries != [] {
      RotateAllLength(lines, entries[..|entries| - 1]);
    }
  }

  /** The entry of the latest build is the last line written. */
  lemma RotateAllLast(lines: seq<string>, entries: seq<string>)
    requires entries != []
    ensures var r := RotateAll(lines, entries); r[|r| - 1] == entries[|entries| - 1] + "\n"
  {
  }

  /** `line.strip()` of every line read. */
  function StrippedLines(lines: seq<string>): (r: seq<string>)
    ensures |r| == |lines|
  {
    seq(|lines|, i requires 0 <= i < |lines| => Strip(lines[i]))
  }

  /** The last non-empty element, or "" when there is none. */
  function LastNonEmpty(xs: seq<string>): string
  {
    if xs == [] then []
    else if xs[|xs| - 1] != [] then xs[|xs| - 1]
    else LastNonEmpty(xs[..|xs| - 1])
  }

  /** `get_latest_log` on the lines read: the last of the stripped lines that are not blank. */
  function LatestLog(lines: seq<string>): string
  {
    LastNonEmpty(StrippedLines(lines))
  }

  /** The result is "" exactly when every element is "". */
  lemma {:induction false} LastNonEmptyNone(xs: seq<string>)
    ensures LastNonEmpty(xs) == [] <==> forall i :: 0 <= i < |xs| ==> xs[i] == []
    decreases |xs|
  {
    if xs != [] && xs[|xs| - 1] == [] {
      var init := xs[..|xs| - 1];
      LastNonEmptyNone(init);
      assert forall i :: 0 <= i < |init| ==> init[i] == xs[i];
    }
  }

  /** Otherwise it is an element after which every element is "". */
  lemma {:induction false} LastNonEmptyIsLast(xs: seq<string>)
    requires LastNonEmpty(xs) != []
    ensures exists i :: 0 <= i < |xs| && LastNonEmpty(xs) == xs[i] && forall j :: i < j < |xs| ==> xs[j] == []
    decreases |xs|
  {
    var n := |xs| - 1;
    if xs[n] == [] {
      var init := xs[..n];
      LastNonEmptyIsLast(init);
      var i :| 0 <= i < n && LastNonEmpty(init) == init[i] && forall j :: i < j < n ==> init[j] == [];
      assert init[i] == xs[i];
      assert forall j :: i < j < |xs| ==> xs[j] == [];
    } else {
      assert LastNonEmpty(xs) == xs[n];
    }
  }

  /** `get_latest_log` gives "" exactly when every line is blank, and otherwise the stripped last non-blank line. */
  lemma LatestLogIsLastNonBlank(lines: seq<string>)
    ensures var xs := StrippedLines(lines);
      && (LatestLog(lines) == [] <==> forall i :: 0 <= i < |lines| ==> xs[i] == [])
      && (LatestLog(lines) != [] ==>
            exists i :: 0 <= i < |lines| && LatestLog(lines) == xs[i] && forall j :: i < j < |lines| ==> xs[j] == [])
  {
    var xs := StrippedLines(lines);
    LastNonEmptyNone(xs);
    if LastNonEmpty(xs) != [] {
      LastNonEmptyIsLast(xs);
    }
  }

  /** A text with a visible character keeps one after more text is appended. */
  lemma StripKeepsContent(s: string, t: string)
    requires Strip(s) != []
    ensures Strip(s + t) != []
  {
    var k :| 0 <= k < |s| && !IsSpace(s[k]);
    assert (s + t)[k] == s[k];
  }

  /** A trailing line break does not change what is stripped. */
  lemma StripLineBreak(s: string)
    ensures Strip(s + "\n") == Strip(s)
  {
    TrimSpaceAfter(s, '\n', IsSpace);
    assert s + "\n" == s + ['\n'];
  }

  /** Right after the entry is appended to the lines, the latest log is the stripped entry, unless it is blank. */
  lemma LatestOfRotated(lines: seq<string>, newLog: string)
    requires Strip(newLog) != []
    ensures LatestLog(Rotate(lines, newLog)) == Strip(newLog)
  {
    var r := Rotate(lines, newLog);
    StripKeepsContent(newLog, "\n");
    StripLineBreak(newLog);
    assert StrippedLines(r)[|r| - 1] == Strip(newLog);
  }

  // ---------------------------------------------------------------------------
  // The file's text
  // ---------------------------------------------------------------------------

  /** Text-mode reading: "\r\n" and a lone "\r" both become "\n". */
  function Universal(t: string): (r: string)
    ensures '\r' !in r
  {
    if t == [] then []
    else if t[0] == '\r' then "\n" + Universal(if |t| > 1 && t[1] == '\n' then t[2..] else t[1..])
    else [t[0]] + Universal(t[1..])
  }

  /** Text without a carriage return reads as it is. */
  lemma {:induction false} UniversalKeeps(t: string)
    requires '\r' !in t
    ensures Universal(t) == t
  {
    if t != [] {
      assert t[0] != '\r' && '\r' !in t[1..];
      UniversalKeeps(t[1..]);
      assert [t[0]] + t[1..] == t;
    }
  }

  /** A text that ends with a line break still does once read. */
  lemma {:induction false} UniversalEnds(t: string)
    requires t != [] && t[|t| - 1] == '\n'
    ensures Universal(t) != [] && Universal(t)[|Universal(t)| - 1] == '\n'
  {
    if t[0] == '\r' {
      var rest := if |t| > 1 && t[1] == '\n' then t[2..] else t[1..];
      if rest != [] {
        assert rest[|rest| - 1] == '\n';
        UniversalEnds(rest);
      }
    } else if |t| > 1 {
      assert t[1..][|t| - 2] == '\n';
      UniversalEnds(t[1..]);
    }
  }

  /** The length of the first line: up to and including the first "\n", or the whole text. */
  function LineLength(t: string): (n: nat)
    requires t != []
    ensures 0 < n <= |t|
    ensures forall k :: 0 <= k < n - 1 ==> t[k] != '\n'
    ensures n < |t| ==> t[n - 1] == '\n'
  {
    if t[0] == '\n' || |t| == 1 then 1
    else
      var m := LineLength(t[1..]);
      assert forall k :: 1 <= k < m ==> t[k] == t[1..][k - 1];
      1 + m
  }

  /** `readlines()` on text whose line breaks are "\n": every line keeps its "\n", the last may have none. */
  function Lines(t: string): (r: seq<string>)
    ensures forall i :: 0 <= i < |r| ==> r[i] != []
    decreases |t|
  {
    if t == [] then [] else var n := LineLength(t); [t[..n]] + Lines(t[n..])
  }

  /** The lines `readlines()` returns for the file's text. */
  function ReadLines(content: string): seq<string>
  {
    Lines(Universal(content))
  }

  /** A complete line: one "\n", at its end. */
  predicate IsLine(l: string)
  {
    l != [] && l[|l| - 1] == '\n' && forall k :: 0 <= k < |l| - 1 ==> l[k] != '\n'
  }

  /** The lines put back together give the text: `readlines()` loses nothing. */
  lemma {:induction false} LinesFlatten(t: string)
    ensures Flatten(Lines(t)) == t
    decreases |t|
  {
    if t != [] {
      var n := LineLength(t);
      var rest := t[n..];
      assert Lines(t) == [t[..n]] + Lines(rest);
      LinesFlatten(rest);
      FlattenCons(t[..n], Lines(rest));
      assert t[..n] + rest == t;
    }
  }

  /** A complete line at the front is read as the first line. */
  lemma LinesCons(l: string, u: string)
    requires IsLine(l)
    ensures Lines(l + u) == [l] + Lines(u)
  {
    var t := l + u;
    var n := LineLength(t);
    assert forall k :: 0 <= k < |l| ==> t[k] == l[k];
    assert t[|l| - 1] == '\n';
    assert n == |l|;
    assert t[..n] == l && t[n..] == u;
  }

  /** Complete lines written one after another are read back as they were. */
  lemma {:induction false} LinesOfFlatten(ls: seq<string>)
    requires forall i :: 0 <= i < |ls| ==> IsLine(ls[i])
    ensures Lines(Flatten(ls)) == ls
    decreases |ls|
  {
    if ls != [] {
      var rest := ls[1..];
      assert forall i :: 0 <= i < |rest| ==> rest[i] == ls[i + 1];
      LinesOfFlatten(rest);
      FlattenCons(ls[0], rest);
      assert ls == [ls[0]] + rest;
      LinesCons(ls[0], Flatten(rest));
    }
  }

  /** A text that is empty or ends with a line break reads as complete lines only. */
  lemma {:induction false} LinesComplete(t: string)
    requires t == [] || t[|t| - 1] == '\n'
    ensures forall i :: 0 <= i < |Lines(t)| ==> IsLine(Lines(t)[i])
    decreases |t|
  {
    if t != [] {
      var n := LineLength(t);
      var rest := t[n..];
      assert rest == [] || rest[|rest| - 1] == '\n';
      LinesComplete(rest);
      assert IsLine(t[..n]);
      assert Lines(t) == [t[..n]] + Lines(rest);
    }
  }

  /** The text `update_log` writes: the lines read, rotated, written back to back. */
  function Updated(content: string, newLog: string): (r: string)
    ensures r != [] && r[|r| - 1] == '\n'
  {
    var written := Rotate(ReadLines(content), newLog);
    assert written == written[..|written| - 1] + [newLog + "\n"];
    FlattenAppend(written[..|written| - 1], [newLog + "\n"]);
    assert Flatten([newLog + "\n"]) == newLog + "\n" by {
      FlattenCons(newLog + "\n", []);
    }
    Flatten(written)
  }

  /** A file that is empty or ends with a line break: every line `readlines()` sees is complete. */
  predicate WellFormed(content: string)
  {
    content == [] || content[|content| - 1] == '\n'
  }

  /** An entry without line breaks, as `update_log` is given. */
  predicate SingleLine(newLog: string)
  {
    '\n' !in newLog && '\r' !in newLog
  }

  /** A well-formed file reads as complete lines without carriage returns. */
  lemma ReadComplete(content: string)
    requires WellFormed(content)
    ensures forall i :: 0 <= i < |ReadLines(content)| ==> IsLine(ReadLines(content)[i])
    ensures '\r' !in Flatten(ReadLines(content))
  {
    var u := Universal(content);
    if content != [] {
      UniversalEnds(content);
    }
    LinesComplete(u);
    LinesFlatten(u);
  }

  /** The lines kept by a rotation have no carriage return when the lines read had none. */
  lemma KeptNoReturn(lines: seq<string>)
    requires '\r' !in Flatten(lines)
    ensures '\r' !in Flatten(if |lines| > MaxKept then lines[1..] else lines)
  {
    if |lines| > MaxKept {
      assert lines == [lines[0]] + lines[1..];
      FlattenCons(lines[0], lines[1..]);
    }
  }

  /** An entry without line breaks, with its "\n", is a complete line. */
  lemma EntryIsLine(newLog: string)
    requires SingleLine(newLog)
    ensures IsLine(newLog + "\n") && '\r' !in newLog + "\n"
  {
    var entry := newLog + "\n";
    assert forall k :: 0 <= k < |newLog| ==> entry[k] == newLog[k];
  }

  /** Rotating complete lines without carriage returns, with an entry without line breaks, keeps them so. */
  lemma RotateComplete(lines: seq<string>, newLog: string)
    requires forall i :: 0 <= i < |lines| ==> IsLine(lines[i])
    requires '\r' !in Flatten(lines) && SingleLine(newLog)
    ensures forall i :: 0 <= i < |Rotate(lines, newLog)| ==> IsLine(Rotate(lines, newLog)[i])
    ensures '\r' !in Flatten(Rotate(lines, newLog))
  {
    var kept := if |lines| > MaxKept then lines[1..] else lines;
    var entry := newLog + "\n";
    KeptNoReturn(lines);
    EntryIsLine(newLog);
    assert Rotate(lines, newLog) == kept + [entry];
    FlattenAppend(kept, [entry]);
    FlattenCons(entry, []);
    assert entry + [] == entry;
  }

  /**
   * On a well-formed file, reading after an update gives exactly the rotated
   * lines: the lines read before, the oldest dropped past 10, and the entry.
   */
  lemma RereadAfterUpdate(content: string, newLog: string)
    requires WellFormed(content) && SingleLine(newLog)
    ensures ReadLines(Updated(content, newLog)) == Rotate(ReadLines(content), newLog)
  {
    var written := Rotate(ReadLines(content), newLog);
    ReadComplete(content);
    RotateComplete(ReadLines(content), newLog);
    UniversalKeeps(Flatten(written));
    LinesOfFlatten(written);
  }

  /** Reading the log right after an update gives back the stripped entry, unless it is blank. */
  lemma LatestAfterUpdate(content: string, newLog: string)
    requires WellFormed(content) && SingleLine(newLog) && Strip(newLog) != []
    ensures LatestLog(ReadLines(Updated(content, newLog))) == Strip(newLog)
  {
    RereadAfterUpdate(content, newLog);
    LatestOfRotated(ReadLines(content), newLog);
  }

  /** The text after one `update_log` per entry, in order. */
  function UpdatedAll(content: string, entries: seq<string>): string
  {
    if entries == [] then content
    else Updated(UpdatedAll(content, entries[..|entries| - 1]), entries[|entries| - 1])
  }

  /** Repeated updates of a well-formed file read back as the lines rotated once per entry. */
  lemma {:induction false} RereadAfterUpdates(content: string, entries: seq<string>)
    requires WellFormed(content)
    requires forall i :: 0 <= i < |entries| ==> SingleLine(entries[i])
    ensures WellFormed(UpdatedAll(content, entries))
    ensures ReadLines(UpdatedAll(content, entries)) == RotateAll(ReadLines(content), entries)
    decreases |entries|
  {
    if entries != [] {
      var init := entries[..|entries| - 1];
      assert forall i :: 0 <= i < |init| ==> init[i] == entries[i];
      RereadAfterUpdates(content, init);
      RereadAfterUpdate(UpdatedAll(content, init), entries[|entries| - 1]);
    }
  }

  /** A text without a line break is read as one line. */
  lemma OneLine(l: string)
    requires l != [] && '\n' !in l
    ensures Lines(l) == [l]
  {
    assert LineLength(l) == |l|;
    assert l[..|l|] == l && l[|l|..] == [];
  }

  /** A complete line without a carriage return is read as that one line. */
  lemma ReadOneLine(l: string)
    requires IsLine(l) && '\r' !in l
    ensures ReadLines(l) == [l]
  {
    UniversalKeeps(l);
    LinesCons(l, []);
    assert l + [] == l && [l] + [] == [l];
  }

  /** Two lines written one after the other. */
  lemma FlattenPair(a: string, b: string)
    ensures Flatten([a, b]) == a + b
  {
    assert [a, b][..1] == [a] && [a][..0] == [];
    assert Flatten([a]) == a by {
      assert Flatten([a]) == Flatten([]) + a;
      assert [] + a == a;
    }
  }

  /** An update of a one-line file without a line break writes the entry right after that line. */
  lemma UpdatedOneLine(content: string, newLog: string)
    requires content != [] && SingleLine(content)
    ensures Updated(content, newLog) == content + newLog + "\n"
  {
    assert ReadLines(content) == [content] by {
      UniversalKeeps(content);
      OneLine(content);
    }
    assert Rotate([content], newLog) == [content, newLog + "\n"];
    FlattenPair(content, newLog + "\n");
    assert content + (newLog + "\n") == content + newLog + "\n";
  }

  /** A line and an entry without line breaks, then "\n", make one complete line. */
  lemma EntryAfterLine(line: string, newLog: string)
    requires SingleLine(line) && SingleLine(newLog)
    ensures IsLine(line + newLog + "\n") && '\r' !in line + newLog + "\n"
  {
    var merged := line + newLog + "\n";
    assert forall k :: 0 <= k < |line| ==> merged[k] == line[k];
    assert forall k :: |line| <= k < |merged| - 1 ==> merged[k] == newLog[k - |line|];
  }

  /** The latest log of a single non-blank line and its "\n" is the stripped line. */
  lemma LatestOfOneLine(s: string)
    requires Strip(s) != []
    ensures LatestLog([s + "\n"]) == Strip(s)
  {
    var xs := StrippedLines([s + "\n"]);
    assert xs == [Strip(s)] by {
      StripLineBreak(s);
    }
    assert LastNonEmpty(xs) == xs[0];
  }

  /**
   * A file whose last line has no line break is not well-formed: `writelines`
   * puts the entry straight after that line, so the next read sees one merged
   * line and the latest log is the old line and the entry run together.
   */
  lemma UnterminatedLineMerges(content: string, newLog: string)
    requires content != [] && SingleLine(content) && SingleLine(newLog) && Strip(content) != []
    ensures ReadLines(Updated(content, newLog)) == [content + newLog + "\n"]
    ensures LatestLog(ReadLines(Updated(content, newLog))) == Strip(content + newLog)
  {
    StripKeepsContent(content, newLog);
    var merged := content + newLog + "\n";
    EntryAfterLine(content, newLog);
    UpdatedOneLine(content, newLog);
    ReadOneLine(merged);
    LatestOfOneLine(content + newLog);
  }

  class Log {
    /** The text of the log file, or None when the file does not exist. */
    var content: Option<string>

    constructor (content: Option<string>)
      ensures this.content == content
    {
      this.content := content;
    }

    /** `update_log`: a missing file makes the first `open` raise; otherwise the file is rewritten rotated. */
    method UpdateLog(newLog: string) returns (r: Result<()>)
      modifies this
      ensures old(content).None? ==> r == Err(FileNotFoundError) && content == old(content)
      ensures old(content).Some? ==> r == Ok(()) && content == Some(Updated(old(content).value, newLog))
      ensures old(content).Some? ==> WellFormed(content.value)
    {
      if content.None? {
        return Err(FileNotFoundError);
      }
      var lines := ReadLines(content.value);
      if |lines| > MaxKept {
        lines := lines[1..];
      }
      lines := lines + [newLog + "\n"];
      content := Some(Flatten(lines));
      r := Ok(());
    }

    /** `get_latest_log`: a missing file is created empty and yields "". */
    method GetLatestLog() returns (latest: string)
      modifies this
      ensures old(content).None? ==> latest == "" && content == Some("")
      ensures old(content).Some? ==> latest == LatestLog(ReadLines(old(content).value)) && content == old(content)
    {
      if content.None? {
        content := Some("");
        return "";
      }
      latest := LatestLog(ReadLines(content.value));
    }
  }
}

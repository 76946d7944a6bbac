/**
 Label-file generation (`create_lab_file`): the first line of a text file is
 normalised, and every character becomes one tab-separated row
 `symbol<TAB>speaker-tag<TAB>casing-tag`, between a `START` row and a `STOP`
 row. The speaker tag comes from an explicit name or, failing that, from the
 file's path.
 */
module LabFile {
  import opened Wrappers
  import opened Text
  import opened Normalize
  import opened Phones

  /** The path with Windows separators turned into `/`. */
  function Slashed(path: string): (r: string)
    ensures '\\' !in r
  {
    ReplaceChar(path, '\\', '/')
  }

  lemma SlashedUnchanged(path: string)
    requires '\\' !in path
    ensures Slashed(path) == path
  {
  }

  /** `s.split(sep)[-1]`: the text after the last separator. */
  function LastPiece(s: string, sep: char): (r: string)
    ensures r == AfterLast(s, sep)
  {
    SplitLast(s, sep);
    var pieces := Split(s, sep);
    pieces[|pieces| - 1]
  }

  /** `s.split(sep)[0]`: the text before the first separator. */
  function FirstPiece(s: string, sep: char): (r: string)
    ensures r == BeforeFirst(s, sep)
  {
    SplitFirst(s, sep);
    Split(s, sep)[0]
  }

  /** `len(s.split(sep)) != 1`: the separator occurs in `s`. */
  predicate SplitsApart(s: string, sep: char)
    ensures SplitsApart(s, sep) <==> sep in s
  {
    SplitSingle(s, sep);
    |Split(s, sep)| != 1
  }

  /** The speaker identity written after `SPEAKER:`. A given name wins;
      otherwise, when the last path component has an underscore, the
      identity is the last `/`-component of everything before the FIRST
      underscore of the whole path; otherwise it is `none`. */
  function SpeakerIdentity(txtPath: string, speakerName: Option<string>): (id: string)
    ensures speakerName.Some? ==> id == speakerName.value
    ensures speakerName.None? && '_' !in AfterLast(Slashed(txtPath), '/') ==> id == "none"
    ensures speakerName.None? && '_' in AfterLast(Slashed(txtPath), '/') ==>
      id == AfterLast(BeforeFirst(Slashed(txtPath), '_'), '/')
  {
    if speakerName.Some? then speakerName.value
    else if SplitsApart(LastPiece(Slashed(txtPath), '/'), '_') then
      LastPiece(FirstPiece(Slashed(txtPath), '_'), '/')
    else
      "none"
  }

  /** When no directory name holds an underscore, the identity is the part
      of the file name before its first underscore. */
  lemma SpeakerFromFileName(dir: string, name: string)
    requires '/' !in name && '_' in name && '_' !in dir
    requires '\\' !in dir && '\\' !in name
    ensures SpeakerIdentity(dir + "/" + name, None) == BeforeFirst(name, '_')
  {
    SlashedUnchanged(dir + "/" + name);
    LastComponent(dir, name);
    FileNameHead(dir, name);
  }

  /** Cutting the path at the file name's first underscore leaves that part
      of the file name as the last component. */
  lemma FileNameHead(dir: string, name: string)
    requires '/' !in name && '_' !in dir
    ensures AfterLast(BeforeFirst(dir + "/" + name, '_'), '/') == BeforeFirst(name, '_')
  {
    assert dir + "/" + name == (dir + "/") + name;
    BeforeFirstAppend(dir + "/", name, '_');
    var before := BeforeFirst(name, '_');
    assert '/' !in before by {
      assert before <= name;
    }
    LastComponent(dir, before);
  }

  /** A directory name with an underscore takes over when the file name
      also has an underscore: the identity is the part of the path before
      the directory's underscore, so `a_b/c_d.txt` is read as speaker `a`,
      not `c`. (Only the file name is tested for an underscore, so
      `a_b/c.txt` gives `none`.) */
  lemma SpeakerFromDirectory(top: string, rest: string, name: string)
    requires '_' !in top && '/' !in top
    requires '/' !in name && '_' in name
    requires '\\' !in top && '\\' !in rest && '\\' !in name
    ensures SpeakerIdentity(top + "_" + rest + "/" + name, None) == top
  {
    var path := top + "_" + rest + "/" + name;
    NestedPathUnchanged(top, rest, name);
    LastComponent(top + "_" + rest, name);
    FirstUnderscoreInPath(top, rest, name);
    AfterLastWhole(top, '/');
  }

  lemma NestedPathUnchanged(top: string, rest: string, name: string)
    requires '\\' !in top && '\\' !in rest && '\\' !in name
    ensures Slashed(top + "_" + rest + "/" + name) == top + "_" + rest + "/" + name
  {
    SlashedUnchanged(top + "_" + rest + "/" + name);
  }

  lemma FirstUnderscoreInPath(top: string, rest: string, name: string)
    requires '_' !in top
    ensures BeforeFirst(top + "_" + rest + "/" + name, '_') == top
  {
    assert top + "_" + rest + "/" + name == top + "_" + (rest + "/" + name);
    BeforeUnderscore(top, rest + "/" + name);
  }

  lemma LastComponent(dir: string, name: string)
    requires '/' !in name
    ensures AfterLast(dir + "/" + name, '/') == name
  {
    var path := dir + "/" + name;
    SeparatedSuffixUnique(path, name, AfterLast(path, '/'), '/');
  }

  lemma BeforeUnderscore(top: string, rest: string)
    requires '_' !in top
    ensures BeforeFirst(top + "_" + rest, '_') == top
  {
    var tail := "_" + rest;
    assert top + "_" + rest == top + tail;
    BeforeFirstAppend(top, tail, '_');
    assert top + "" == top;
  }

  lemma {:induction false} BeforeFirstAppend(a: string, b: string, sep: char)
    requires sep !in a
    ensures BeforeFirst(a + b, sep) == a + BeforeFirst(b, sep)
    decreases |a|
  {
    var ab := a + b;
    if |a| > 0 {
      assert ab[0] == a[0] && a[0] != sep;
      assert ab[1..] == a[1..] + b;
      BeforeFirstAppend(a[1..], b, sep);
      assert BeforeFirst(ab, sep) == [a[0]] + BeforeFirst(ab[1..], sep);
      assert [a[0]] + (a[1..] + BeforeFirst(b, sep)) == a + BeforeFirst(b, sep);
    } else {
      assert ab == b;
    }
  }

  /** One row of the label file for character `c`. */
  function LabRow(c: char, speakerTag: string): string {
    Lower([c]) + "\t" + speakerTag + "\t" + CaseStyle(c)
  }

  /** The rows `create_lab_file` writes, without their line terminators:
      `START`, one row per character of the normalised first line, `STOP`.
      Every row carries the same speaker tag. */
  function LabLines(txtPath: string, content: string, speakerName: Option<string>): (lines: seq<string>)
    ensures var line := FileInputOld(content);
      && |lines| == |line| + 2
      && lines[0] == "START" && lines[|lines| - 1] == "STOP"
      && forall i :: 0 <= i < |line| ==>
           lines[i + 1] == LabRow(line[i], SpeakerTag(SpeakerIdentity(txtPath, speakerName)))
  {
    Bracketed(LabRows(FileInputOld(content), SpeakerTag(SpeakerIdentity(txtPath, speakerName))))
  }

  /** The rows between a `START` and a `STOP` line. */
  function Bracketed(rows: seq<string>): (lines: seq<string>)
    ensures |lines| == |rows| + 2
    ensures lines[0] == "START" && lines[|lines| - 1] == "STOP"
    ensures forall i :: 0 <= i < |rows| ==> lines[i + 1] == rows[i]
  {
    ["START"] + rows + ["STOP"]
  }

  /** The rows of the `for char in line` loop. */
  function LabRows(line: string, speakerTag: string): (rows: seq<string>)
    ensures |rows| == |line|
    ensures forall i :: 0 <= i < |line| ==> rows[i] == LabRow(line[i], speakerTag)
    decreases |line|
  {
    if |line| == 0 then []
    else LabRows(line[..|line| - 1], speakerTag) + [LabRow(line[|line| - 1], speakerTag)]
  }

  /** A token written as a row: its symbol and tags joined by tabs. */
  function TokenRow(t: PhoneInfo): string {
    Join([t.symbol] + t.context, "\t")
  }

  lemma CharTokenRow(c: char, identity: string)
    ensures TokenRow(CharToken(c, identity)) == LabRow(c, SpeakerTag(identity))
  {
    var t := CharToken(c, identity);
    var parts := [t.symbol] + t.context;
    assert parts == [Lower([c]), SpeakerTag(identity), CaseStyle(c)];
    assert parts[1..] == [SpeakerTag(identity), CaseStyle(c)];
    assert parts[1..][1..] == [CaseStyle(c)];
    assert Join(parts[1..][1..], "\t") == CaseStyle(c);
    assert Join(parts[1..], "\t") == SpeakerTag(identity) + "\t" + CaseStyle(c);
    assert Join(parts, "\t") == Lower([c]) + "\t" + (SpeakerTag(identity) + "\t" + CaseStyle(c));
  }

  /** The label file is the token encoding of the same text and speaker,
      one token per row. */
  lemma LabLinesAreTokenRows(txtPath: string, content: string, speakerName: Option<string>)
    ensures var tokens := PhoneInput(FileInputOld(content), SpeakerIdentity(txtPath, speakerName));
      var lines := LabLines(txtPath, content, speakerName);
      |lines| == |tokens| && forall i :: 0 <= i < |lines| ==> lines[i] == TokenRow(tokens[i])
  {
    RowsAreTokenRows(FileInputOld(content), SpeakerIdentity(txtPath, speakerName));
  }

  lemma RowsAreTokenRows(line: string, identity: string)
    ensures var tokens := PhoneInput(line, identity);
      var lines := Bracketed(LabRows(line, SpeakerTag(identity)));
      |lines| == |tokens| && forall i :: 0 <= i < |lines| ==> lines[i] == TokenRow(tokens[i])
  {
    var tokens := PhoneInput(line, identity);
    var lines := Bracketed(LabRows(line, SpeakerTag(identity)));
    forall i | 0 <= i < |lines| ensures lines[i] == TokenRow(tokens[i]) {
      RowIsTokenRow(line, identity, i);
    }
  }

  lemma RowIsTokenRow(line: string, identity: string, i: nat)
    requires i < |line| + 2
    ensures Bracketed(LabRows(line, SpeakerTag(identity)))[i] == TokenRow(PhoneInput(line, identity)[i])
  {
    if i == 0 || i == |line| + 1 {
      SentinelRows();
    } else {
      CharTokenRow(line[i - 1], identity);
    }
  }

  /** The sentinels are written as their bare symbols. */
  lemma SentinelRows()
    ensures TokenRow(StartToken) == "START" && TokenRow(StopToken) == "STOP"
  {
    assert [StartToken.symbol] + StartToken.context == ["START"];
    assert [StopToken.symbol] + StopToken.context == ["STOP"];
  }

  /** The text of the label file: every row followed by a newline. */
  function LabText(lines: seq<string>): (text: string)
  {
    if |lines| == 0 then "" else lines[0] + "\n" + LabText(lines[1..])
  }

  lemma SplitAfterPiece(piece: string, rest: string, sep: char)
    requires sep !in piece
    ensures Split(piece + [sep] + rest, sep) == [piece] + Split(rest, sep)
    decreases |piece|
  {
    if |piece| == 0 {
      assert piece + [sep] + rest == [sep] + rest;
      assert ([sep] + rest)[1..] == rest;
    } else {
      var s := piece + [sep] + rest;
      assert s[1..] == piece[1..] + [sep] + rest;
      SplitAfterPiece(piece[1..], rest, sep);
      assert [piece[0]] + piece[1..] == piece;
    }
  }

  /** Reading the label file back line by line gives its rows, followed by
      the empty text after the final newline. */
  lemma {:induction false} LabTextLines(lines: seq<string>)
    requires forall i :: 0 <= i < |lines| ==> '\n' !in lines[i]
    ensures Split(LabText(lines), '\n') == lines + [""]
    decreases |lines|
  {
    if |lines| > 0 {
      LabTextLines(lines[1..]);
      SplitAfterPiece(lines[0], LabText(lines[1..]), '\n');
      assert lines[0] + "\n" + LabText(lines[1..]) == lines[0] + ['\n'] + LabText(lines[1..]);
      assert [lines[0]] + (lines[1..] + [""]) == lines + [""];
    }
  }
}

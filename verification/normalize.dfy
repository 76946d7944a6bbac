/**
 The two whitespace normalisations applied to an input text before it is
 turned into tokens:
 - the older one reads the first line, strips it, turns tabs into spaces and
   then keeps replacing double spaces by single ones until nothing changes
   (`get_file_input_old`, and the head of `create_lab_file`);
 - the newer one joins all lines, splits on whitespace and joins the words
   with single spaces (`get_file_input`).
 File contents are modelled as the decoded text of the file.
 */
module Normalize {
  import opened Text

  // ---------------------------------------------------------------------
  // Reading lines

  /** `f.readline()`: the text up to and including the first newline, or
      everything when there is none. */
  function ReadLine(content: string): (r: string)
    ensures r <= content
    ensures |content| > 0 ==> |r| > 0
    ensures forall i :: 0 <= i < |r| - 1 ==> r[i] != '\n'
    ensures r == content || r[|r| - 1] == '\n'
  {
    if |content| == 0 then ""
    else if content[0] == '\n' then "\n"
    else [content[0]] + ReadLine(content[1..])
  }

  /** `f.readlines()`: consecutive non-empty lines, every one but the last
      ending in a newline. */
  function ReadLines(content: string): (r: seq<string>)
    ensures forall i :: 0 <= i < |r| ==> |r[i]| > 0
    ensures forall i :: 0 <= i < |r| - 1 ==> r[i][|r[i]| - 1] == '\n'
    decreases |content|
  {
    if |content| == 0 then []
    else
      var line := ReadLine(content);
      [line] + ReadLines(content[|line|..])
  }

  // ---------------------------------------------------------------------
  // The older normalisation: a fixpoint of `replace('  ', ' ')`

  predicate NoDoubleSpace(s: string) {
    forall i :: 0 <= i < |s| - 1 ==> !(s[i] == ' ' && s[i + 1] == ' ')
  }

  /** `s.replace('  ', ' ')`: one left-to-right pass that replaces each
      non-overlapping pair of spaces by one space. A pass that changes
      anything makes the string strictly shorter. */
  function ReplaceDoubleSpaces(s: string): (r: string)
    ensures |r| <= |s|
    ensures NoDoubleSpace(s) <==> r == s
    ensures !NoDoubleSpace(s) ==> |r| < |s|
  {
    if |s| < 2 then s
    else if s[0] == ' ' && s[1] == ' ' then " " + ReplaceDoubleSpaces(s[2..])
    else
      var rest := ReplaceDoubleSpaces(s[1..]);
      assert NoDoubleSpace(s) <==> NoDoubleSpace(s[1..]) by {
        assert forall i :: 1 <= i < |s| - 1 ==> s[i] == s[1..][i - 1];
      }
      [s[0]] + rest
  }

  /** Reference definition: every run of spaces squeezed to one space. It
      keeps the first and last characters and adds no new ones. */
  function SqueezeSpaces(s: string): (r: string)
    ensures |r| <= |s| && (|r| == 0 <==> |s| == 0)
    ensures |s| > 0 ==> r[0] == s[0] && r[|r| - 1] == s[|s| - 1]
    ensures forall c :: c in r ==> c in s
  {
    if |s| < 2 then s
    else if s[0] == ' ' && s[1] == ' ' then SqueezeSpaces(s[1..])
    else [s[0]] + SqueezeSpaces(s[1..])
  }

  lemma {:induction false} SqueezeNoDouble(s: string)
    ensures NoDoubleSpace(SqueezeSpaces(s))
    decreases |s|
  {
    if |s| >= 2 {
      SqueezeNoDouble(s[1..]);
      if !(s[0] == ' ' && s[1] == ' ') {
        var t := SqueezeSpaces(s[1..]);
        assert t[0] == s[1];
        assert forall i :: 1 <= i < |t| + 1 ==> ([s[0]] + t)[i] == t[i - 1];
      }
    }
  }

  lemma {:induction false} SqueezeIdle(s: string)
    requires NoDoubleSpace(s)
    ensures SqueezeSpaces(s) == s
    decreases |s|
  {
    if |s| >= 2 {
      assert NoDoubleSpace(s[1..]) by {
        assert forall i :: 0 <= i < |s| - 2 ==> s[1..][i] == s[i + 1];
      }
      SqueezeIdle(s[1..]);
      assert s == [s[0]] + s[1..];
    }
  }

  /** One `replace` pass does not change what squeezing gives: the pass and
      the squeeze both only drop spaces that follow a space. The second
      lemma is the same fact behind a leading space. */
  lemma {:induction false} SqueezeAfterReplace(s: string)
    ensures SqueezeSpaces(ReplaceDoubleSpaces(s)) == SqueezeSpaces(s)
    decreases |s|, 0
  {
    if |s| >= 2 {
      if s[0] == ' ' && s[1] == ' ' {
        SqueezeBehindSpace(s[2..]);
        assert s[1..] == " " + s[2..];
        SqueezeBehindSpace(s[1..]);
        assert " " + s[1..] == s;
        assert SqueezeSpaces(" " + s[2..]) == SqueezeSpaces(" " + s[1..]) by {
          assert (" " + s[1..])[1..] == s[1..];
        }
      } else {
        SqueezeAfterReplace(s[1..]);
        var rest := ReplaceDoubleSpaces(s[1..]);
        assert ReplaceDoubleSpaces(s) == [s[0]] + rest;
        if s[0] == ' ' {
          SqueezeBehindSpace(s[1..]);
          assert [s[0]] + s[1..] == s;
        } else {
          if |rest| >= 1 {
            assert ([s[0]] + rest)[1..] == rest;
          }
        }
      }
    }
  }

  lemma {:induction false} SqueezeBehindSpace(t: string)
    ensures SqueezeSpaces(" " + ReplaceDoubleSpaces(t)) == SqueezeSpaces(" " + t)
    decreases |t|, 1
  {
    if |t| == 0 {
    } else if |t| == 1 {
    } else if t[0] == ' ' && t[1] == ' ' {
      var u := t[2..];
      SqueezeBehindSpace(u);
      assert ReplaceDoubleSpaces(t) == " " + ReplaceDoubleSpaces(u);
      assert (" " + (" " + ReplaceDoubleSpaces(u)))[1..] == " " + ReplaceDoubleSpaces(u);
      assert (" " + t)[1..] == t;
      assert t[1..] == " " + u;
      assert t == " " + t[1..];
    } else {
      var t' := t[1..];
      var rest := ReplaceDoubleSpaces(t');
      assert ReplaceDoubleSpaces(t) == [t[0]] + rest;
      if t[0] == ' ' {
        SqueezeBehindSpace(t');
        assert (" " + ([t[0]] + rest))[1..] == " " + rest;
        assert (" " + t)[1..] == t;
        assert t == " " + t';
      } else {
        SqueezeAfterReplace(t);
        assert (" " + ([t[0]] + rest))[1..] == [t[0]] + rest;
        assert (" " + t)[1..] == t;
      }
    }
  }

  /** The `while True` loop of the older normalisation: repeat the
      double-space replacement until it changes nothing. It terminates
      because every changing pass shortens the string, and its result is
      the input with every run of spaces squeezed to one space. */
  function CollapseSpaces(line: string): (r: string)
    ensures NoDoubleSpace(r)
    ensures r == SqueezeSpaces(line)
    decreases |line|
  {
    var nl := ReplaceDoubleSpaces(line);
    if nl == line then
      SqueezeIdle(line);
      line
    else
      SqueezeAfterReplace(line);
      CollapseSpaces(nl)
  }

  /** No newline except possibly as the last character. */
  predicate NewlineOnlyLast(s: string) {
    forall i :: 0 <= i < |s| - 1 ==> s[i] != '\n'
  }

  lemma TrimStartKeepsNewlineOnlyLast(s: string)
    requires NewlineOnlyLast(s)
    ensures NewlineOnlyLast(TrimStart(s))
  {
    var t := TrimStart(s);
    var k := |s| - |t|;
    assert forall i :: 0 <= i < |t| ==> t[i] == s[k + i];
  }

  lemma TrimEndDropsNewline(t: string)
    requires NewlineOnlyLast(t)
    ensures '\n' !in TrimEnd(t)
  {
    var r := TrimEnd(t);
    if |r| > 0 {
      assert !IsSpace(r[|r| - 1]);
      assert forall i :: 0 <= i < |r| ==> r[i] == t[i];
    }
  }

  /** The stripped first line holds no newline: the only newline of the
      first line is its last character, and stripping removes it. */
  lemma StrippedLineHasNoNewline(content: string)
    ensures '\n' !in Strip(ReadLine(content))
  {
    var first := ReadLine(content);
    assert NewlineOnlyLast(first);
    TrimStartKeepsNewlineOnlyLast(first);
    TrimEndDropsNewline(TrimStart(first));
  }

  lemma CollapseKeepsAbsent(line: string, c: char)
    requires c !in line
    ensures c !in CollapseSpaces(line)
  {
  }

  lemma CollapseKeepsEnds(line: string)
    requires |line| > 0 ==> !IsSpace(line[0]) && !IsSpace(line[|line| - 1])
    ensures var r := CollapseSpaces(line);
      |r| > 0 ==> !IsSpace(r[0]) && !IsSpace(r[|r| - 1])
  {
  }

  /** The stripped first line with its tabs turned into spaces. */
  function TabsAsSpaces(content: string): (line: string)
    ensures '\t' !in line && '\n' !in line
    ensures |line| > 0 ==> !IsSpace(line[0]) && !IsSpace(line[|line| - 1])
    ensures Words(line) == Words(ReadLine(content))
  {
    var stripped := Strip(ReadLine(content));
    StrippedLineHasNoNewline(content);
    TabReplaceKeeps(stripped);
    WordsOfStrip(ReadLine(content));
    TabsKeepWords(stripped);
    ReplaceChar(stripped, '\t', ' ')
  }

  lemma TabReplaceKeeps(stripped: string)
    requires '\n' !in stripped
    requires |stripped| > 0 ==> !IsSpace(stripped[0]) && !IsSpace(stripped[|stripped| - 1])
    ensures var line := ReplaceChar(stripped, '\t', ' ');
      && '\t' !in line && '\n' !in line
      && (|line| > 0 ==> !IsSpace(line[0]) && !IsSpace(line[|line| - 1]))
  {
  }

  /** `get_file_input_old`: the first line, stripped, tabs turned into
      spaces, double spaces collapsed. The first line keeps its words; only
      the whitespace between them changes. */
  function FileInputOld(content: string): (r: string)
    ensures Words(r) == Words(ReadLine(content))
    ensures NoDoubleSpace(r)
    ensures '\t' !in r && '\n' !in r
    ensures |r| > 0 ==> !IsSpace(r[0]) && !IsSpace(r[|r| - 1])
  {
    var line := TabsAsSpaces(content);
    CollapseKeepsAbsent(line, '\t');
    CollapseKeepsAbsent(line, '\n');
    CollapseKeepsEnds(line);
    WordsOfSqueeze(line);
    CollapseSpaces(line)
  }

  // ---------------------------------------------------------------------
  // The newer normalisation: split on whitespace, join with single spaces

  /** A word of `str.split()`: a non-empty run of non-whitespace. */
  predicate IsWord(w: string) {
    |w| > 0 && forall i :: 0 <= i < |w| ==> !IsSpace(w[i])
  }

  /** The longest prefix of `s` without whitespace. */
  function WordPrefix(s: string): (r: string)
    ensures r <= s
    ensures forall i :: 0 <= i < |r| ==> !IsSpace(r[i])
    ensures r == s || IsSpace(s[|r|])
    ensures |s| > 0 && !IsSpace(s[0]) ==> |r| > 0
  {
    if |s| == 0 || IsSpace(s[0]) then "" else [s[0]] + WordPrefix(s[1..])
  }

  /** `s.split()` with no argument: the maximal runs of non-whitespace. */
  function Words(s: string): (r: seq<string>)
    ensures forall i :: 0 <= i < |r| ==> IsWord(r[i])
    decreases |s|
  {
    if |s| == 0 then []
    else if IsSpace(s[0]) then Words(s[1..])
    else
      var w := WordPrefix(s);
      var rest := Words(s[|w|..]);
      assert IsWord(w);
      assert forall i :: 1 <= i < |rest| + 1 ==> ([w] + rest)[i] == rest[i - 1];
      [w] + rest
  }

  /** The shape of a normalised text: the only whitespace is the single
      space, never at either end and never followed by more whitespace. */
  predicate Normalised(s: string) {
    forall i :: 0 <= i < |s| && IsSpace(s[i]) ==> s[i] == ' ' && 0 < i < |s| - 1 && !IsSpace(s[i + 1])
  }

  /** `get_file_input`: `' '.join(' '.join(f.readlines()).split())`. The
      result is the words of the whole file joined by single spaces. */
  function FileInput(content: string): (r: string)
    ensures Normalised(r)
    ensures r == Join(Words(content), " ")
  {
    var joined := Join(ReadLines(content), " ");
    WordsOfJoinedLines(content);
    JoinedWordsNormalised(Words(content));
    Join(Words(joined), " ")
  }

  lemma {:induction false} JoinedWordsNormalised(ws: seq<string>)
    requires forall i :: 0 <= i < |ws| ==> IsWord(ws[i])
    ensures Normalised(Join(ws, " "))
    ensures |ws| > 0 ==> |ws[0]| > 0 && |Join(ws, " ")| > 0 && Join(ws, " ")[0] == ws[0][0]
    decreases |ws|
  {
    if |ws| > 1 {
      var rest := Join(ws[1..], " ");
      JoinedWordsNormalised(ws[1..]);
      var w := ws[0];
      var s := w + " " + rest;
      assert Join(ws, " ") == s;
      assert forall i :: 0 <= i < |w| ==> s[i] == w[i];
      assert s[|w|] == ' ';
      assert forall i :: |w| < i < |s| ==> s[i] == rest[i - |w| - 1];
    }
  }

  lemma {:induction false} WordPrefixAppend(t: string, b: string)
    requires |t| > 0 && IsSpace(t[|t| - 1])
    ensures WordPrefix(t + b) == WordPrefix(t)
    decreases |t|
  {
    if !IsSpace(t[0]) {
      assert (t + b)[1..] == t[1..] + b;
      WordPrefixAppend(t[1..], b);
    }
  }

  /** Splitting a concatenation whose left part ends in whitespace splits
      the two parts independently. */
  lemma {:induction false} WordsAppend(a: string, b: string)
    requires |a| == 0 || IsSpace(a[|a| - 1])
    ensures Words(a + b) == Words(a) + Words(b)
    decreases |a|, 1
  {
    if |a| == 0 {
      calc {
        Words(a + b);
        { assert a + b == b; }
        Words(b);
        { assert Words(a) == []; }
        Words(a) + Words(b);
      }
    } else if IsSpace(a[0]) {
      WordsAppendAfterSpace(a, b);
    } else {
      WordsAppendAfterWord(a, b);
    }
  }

  lemma {:induction false} WordsAppendAfterSpace(a: string, b: string)
    requires |a| > 0 && IsSpace(a[0]) && IsSpace(a[|a| - 1])
    ensures Words(a + b) == Words(a) + Words(b)
    decreases |a|, 0
  {
    calc {
      Words(a + b);
      { WordsDropSpace(a + b); }
      Words((a + b)[1..]);
      { assert (a + b)[1..] == a[1..] + b; }
      Words(a[1..] + b);
      { WordsAppend(a[1..], b); }
      Words(a[1..]) + Words(b);
      { WordsDropSpace(a); }
      Words(a) + Words(b);
    }
  }

  lemma {:induction false} WordsAppendAfterWord(a: string, b: string)
    requires |a| > 0 && !IsSpace(a[0]) && IsSpace(a[|a| - 1])
    ensures Words(a + b) == Words(a) + Words(b)
    decreases |a|, 0
  {
    var w := WordPrefix(a);
    calc {
      Words(a + b);
      { WordsDropWord(a + b); WordPrefixAppend(a, b); }
      [w] + Words((a + b)[|w|..]);
      { assert (a + b)[|w|..] == a[|w|..] + b; }
      [w] + Words(a[|w|..] + b);
      { WordsAppend(a[|w|..], b); }
      [w] + (Words(a[|w|..]) + Words(b));
      { WordsDropWord(a); }
      Words(a) + Words(b);
    }
  }

  lemma WordsDropSpace(s: string)
    requires |s| > 0 && IsSpace(s[0])
    ensures Words(s) == Words(s[1..])
  {
  }

  lemma WordsDropWord(s: string)
    requires |s| > 0 && !IsSpace(s[0])
    ensures Words(s) == [WordPrefix(s)] + Words(s[|WordPrefix(s)|..])
  {
  }

  /** Joining the lines with extra spaces, as `' '.join(f.readlines())`
      does, does not change the words of the file. */
  lemma {:induction false} WordsOfJoinedLines(content: string)
    ensures Words(Join(ReadLines(content), " ")) == Words(content)
    decreases |content|
  {
    if |content| > 0 {
      var line := ReadLine(content);
      var tail := content[|line|..];
      var lines := ReadLines(content);
      assert content == line + tail;
      assert lines == [line] + ReadLines(tail);
      WordsOfJoinedLines(tail);
      if |tail| == 0 {
        assert lines == [line];
      } else {
        LinesJoinStep(content);
      }
    }
  }

  lemma WordsAcrossSpace(line: string, j: string)
    requires |line| > 0 && IsSpace(line[|line| - 1])
    ensures Words(line + " " + j) == Words(line) + Words(j)
  {
    assert line + " " + j == line + (" " + j);
    WordsAppend(line, " " + j);
    WordsAppend(" ", j);
    assert Words(" ") == [];
  }

  lemma LinesJoinStep(content: string)
    requires |content| > 0
    requires var line := ReadLine(content);
      |line| < |content| &&
      Words(Join(ReadLines(content[|line|..]), " ")) == Words(content[|line|..])
    ensures Words(Join(ReadLines(content), " ")) == Words(content)
  {
    var line := ReadLine(content);
    var tail := content[|line|..];
    var j := Join(ReadLines(tail), " ");
    calc {
      Words(Join(ReadLines(content), " "));
      { JoinedLinesHead(content); }
      Words(line + " " + j);
      { WordsAcrossSpace(line, j); }
      Words(line) + Words(j);
      Words(line) + Words(tail);
      { WordsAppend(line, tail); }
      Words(line + tail);
      { assert line + tail == content; }
      Words(content);
    }
  }

  /** The first line, which ends in a newline when more follows, and then
      the other lines joined by spaces. */
  lemma JoinedLinesHead(content: string)
    requires |content| > 0 && |ReadLine(content)| < |content|
    ensures var line := ReadLine(content);
      && |line| > 0 && line[|line| - 1] == '\n'
      && Join(ReadLines(content), " ") == line + " " + Join(ReadLines(content[|line|..]), " ")
  {
    var line := ReadLine(content);
    var rest := ReadLines(content[|line|..]);
    assert ReadLines(content) == [line] + rest;
    assert |rest| > 0;
  }

  lemma {:induction false} WordPrefixOfWord(w: string, b: string)
    requires IsWord(w)
    requires |b| == 0 || IsSpace(b[0])
    ensures WordPrefix(w + b) == w
    decreases |w|
  {
    assert (w + b)[0] == w[0];
    if |w| > 1 {
      assert (w + b)[1..] == w[1..] + b;
      WordPrefixOfWord(w[1..], b);
    } else {
      assert (w + b)[1..] == b;
    }
  }

  /** Splitting words joined by single spaces gives the words back. */
  lemma {:induction false} WordsOfJoin(ws: seq<string>)
    requires forall i :: 0 <= i < |ws| ==> IsWord(ws[i])
    ensures Words(Join(ws, " ")) == ws
    decreases |ws|
  {
    if |ws| == 1 {
      var w := ws[0];
      WordPrefixOfWord(w, "");
      assert w + "" == w;
      assert w[|w|..] == "";
    } else if |ws| > 1 {
      var w := ws[0];
      var rest := Join(ws[1..], " ");
      WordsOfJoin(ws[1..]);
      var s := w + (" " + rest);
      assert Join(ws, " ") == s;
      WordPrefixOfWord(w, " " + rest);
      assert s[|w|..] == " " + rest;
      WordsAppend(" ", rest);
      assert Words(" ") == [];
    }
  }

  // ---------------------------------------------------------------------
  // The older normalisation keeps the words

  predicate AllSpace(s: string) {
    forall i :: 0 <= i < |s| ==> IsSpace(s[i])
  }

  lemma {:induction false} WordsOfSpaces(s: string)
    requires AllSpace(s)
    ensures Words(s) == []
    decreases |s|
  {
    if |s| > 0 {
      assert forall i :: 0 <= i < |s| - 1 ==> s[1..][i] == s[i + 1];
      WordsOfSpaces(s[1..]);
    }
  }

  /** A word that stops before the end of `t` is not extended by more text. */
  lemma {:induction false} WordPrefixExtend(t: string, b: string)
    requires WordPrefix(t) != t
    ensures WordPrefix(t + b) == WordPrefix(t)
    decreases |t|
  {
    if !IsSpace(t[0]) {
      assert (t + b)[1..] == t[1..] + b;
      assert t == [t[0]] + t[1..];
      WordPrefixExtend(t[1..], b);
    }
  }

  /** Trailing whitespace adds no word. */
  lemma {:induction false} WordsAppendSpaces(a: string, b: string)
    requires AllSpace(b)
    ensures Words(a + b) == Words(a)
    decreases |a|
  {
    if |a| == 0 {
      assert a + b == b;
      WordsOfSpaces(b);
    } else if IsSpace(a[0]) {
      assert (a + b)[1..] == a[1..] + b;
      WordsAppendSpaces(a[1..], b);
    } else {
      var w := WordPrefix(a);
      if w == a {
        WordPrefixOfWord(a, b);
        assert (a + b)[|a|..] == b;
        WordsOfSpaces(b);
        assert a[|a|..] == "";
      } else {
        WordPrefixExtend(a, b);
        assert (a + b)[|w|..] == a[|w|..] + b;
        WordsAppendSpaces(a[|w|..], b);
      }
    }
  }

  /** `strip()` drops no word. */
  lemma WordsOfStrip(s: string)
    ensures Words(Strip(s)) == Words(s)
  {
    var head, tail := StripCuts(s);
    WordsAroundSpaces(head, Strip(s), tail);
  }

  /** `strip()` cuts whitespace off both ends. */
  lemma StripCuts(s: string) returns (head: string, tail: string)
    ensures AllSpace(head) && AllSpace(tail)
    ensures s == head + (Strip(s) + tail)
  {
    head := TrimStartCut(s);
    tail := TrimEndCut(TrimStart(s));
  }

  lemma TrimStartCut(s: string) returns (head: string)
    ensures AllSpace(head) && s == head + TrimStart(s)
  {
    var k := |s| - |TrimStart(s)|;
    head := s[..k];
    assert s == s[..k] + s[k..];
    forall i | 0 <= i < |head| ensures IsSpace(head[i]) {
      assert head[i] == s[i];
    }
  }

  lemma TrimEndCut(t: string) returns (tail: string)
    ensures AllSpace(tail) && t == TrimEnd(t) + tail
  {
    var k := |TrimEnd(t)|;
    tail := t[k..];
    assert t == t[..k] + t[k..];
    forall i | 0 <= i < |tail| ensures IsSpace(tail[i]) {
      assert tail[i] == t[k + i];
    }
  }

  lemma WordsAroundSpaces(head: string, mid: string, tail: string)
    requires AllSpace(head) && AllSpace(tail)
    ensures Words(head + (mid + tail)) == Words(mid)
  {
    WordsAppend(head, mid + tail);
    WordsOfSpaces(head);
    WordsAppendSpaces(mid, tail);
  }

  /** Two strings of the same length with whitespace at the same positions
      and the same characters everywhere else. */
  predicate SameWordsAt(s: string, t: string) {
    && |s| == |t|
    && forall i :: 0 <= i < |s| ==> (IsSpace(s[i]) <==> IsSpace(t[i])) && (!IsSpace(s[i]) ==> s[i] == t[i])
  }

  lemma SameWordsAtTail(s: string, t: string, k: nat)
    requires SameWordsAt(s, t) && k <= |s|
    ensures SameWordsAt(s[k..], t[k..])
  {
    assert forall i :: 0 <= i < |s| - k ==> s[k..][i] == s[k + i] && t[k..][i] == t[k + i];
  }

  lemma {:induction false} WordPrefixSameWordsAt(s: string, t: string)
    requires SameWordsAt(s, t)
    ensures WordPrefix(s) == WordPrefix(t)
    decreases |s|
  {
    if |s| > 0 && !IsSpace(s[0]) {
      SameWordsAtTail(s, t, 1);
      WordPrefixSameWordsAt(s[1..], t[1..]);
    }
  }

  /** Which whitespace character separates the words does not matter. */
  lemma {:induction false} WordsSameWordsAt(s: string, t: string)
    requires SameWordsAt(s, t)
    ensures Words(s) == Words(t)
    decreases |s|
  {
    if |s| > 0 {
      if IsSpace(s[0]) {
        SameWordsAtTail(s, t, 1);
        WordsSameWordsAt(s[1..], t[1..]);
      } else {
        WordPrefixSameWordsAt(s, t);
        var w := WordPrefix(s);
        SameWordsAtTail(s, t, |w|);
        WordsSameWordsAt(s[|w|..], t[|w|..]);
      }
    }
  }

  /** Turning tabs into spaces keeps the words. */
  lemma TabsKeepWords(s: string)
    ensures Words(ReplaceChar(s, '\t', ' ')) == Words(s)
  {
    WordsSameWordsAt(ReplaceChar(s, '\t', ' '), s);
  }

  /** Squeezing distributes over a cut after a character other than a
      space. */
  lemma {:induction false} SqueezeAppend(x: string, y: string)
    requires |x| > 0 && x[|x| - 1] != ' '
    ensures SqueezeSpaces(x + y) == SqueezeSpaces(x) + SqueezeSpaces(y)
    decreases |x|
  {
    if |y| == 0 {
      assert x + y == x;
    } else if |x| == 1 {
      assert (x + y)[1..] == y;
    } else {
      assert (x + y)[1..] == x[1..] + y;
      SqueezeAppend(x[1..], y);
    }
  }

  /** Squeezing runs of spaces keeps the words. */
  lemma {:induction false} WordsOfSqueeze(s: string)
    ensures Words(SqueezeSpaces(s)) == Words(s)
    decreases |s|
  {
    if |s| >= 2 {
      if s[0] == ' ' && s[1] == ' ' {
        WordsOfSqueeze(s[1..]);
      } else if IsSpace(s[0]) {
        var y := SqueezeSpaces(s[1..]);
        WordsOfSqueeze(s[1..]);
        assert ([s[0]] + y)[1..] == y;
      } else {
        var w := WordPrefix(s);
        var rest := s[|w|..];
        assert NoDoubleSpace(w);
        SqueezeIdle(w);
        if w == s {
          assert w == s;
        } else {
          assert s == w + rest;
          SqueezeAppend(w, rest);
          var z := SqueezeSpaces(rest);
          WordPrefixOfWord(w, z);
          assert (w + z)[|w|..] == z;
          WordsOfSqueeze(rest);
        }
      }
    }
  }

  /** Normalising a normalised text changes nothing. */
  lemma FileInputIdempotent(content: string)
    ensures FileInput(FileInput(content)) == FileInput(content)
  {
    WordsOfJoin(Words(content));
  }
}

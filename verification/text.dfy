/**
 String primitives used by the text front end: the whitespace class of
 Python's `str.isspace`, ASCII case mapping, `strip`, `str.replace` of one
 character, and `str.split(sep)` / `sep.join(parts)` for a one-character
 separator.
 */
module Text {

  /** Python's `str.isspace`: the ASCII controls \t..\r and \x1c..\x1f, the
      space, and the Unicode separators Python also treats as whitespace. */
  predicate IsSpace(c: char) {
    || c == ' '
    || ('\t' <= c <= '\r')
    || ('\U{1c}' <= c <= '\U{1f}')
    || c == '\U{85}' || c == '\U{a0}' || c == '\U{1680}'
    || ('\U{2000}' <= c <= '\U{200a}')
    || c == '\U{2028}' || c == '\U{2029}' || c == '\U{202f}'
    || c == '\U{205f}' || c == '\U{3000}'
  }

  predicate IsAsciiUpper(c: char) { 'A' <= c <= 'Z' }
  predicate IsAsciiLower(c: char) { 'a' <= c <= 'z' }

  function LowerChar(c: char): (r: char)
    ensures IsAsciiUpper(c) ==> IsAsciiLower(r) && r as int == c as int + 32
    ensures !IsAsciiUpper(c) ==> r == c
  {
    if IsAsciiUpper(c) then (c as int + 32) as char else c
  }

  function UpperChar(c: char): (r: char)
    ensures IsAsciiLower(c) ==> IsAsciiUpper(r) && r as int == c as int - 32
    ensures !IsAsciiLower(c) ==> r == c
  {
    if IsAsciiLower(c) then (c as int - 32) as char else c
  }

  /** `str.lower()`, restricted to the ASCII letters. */
  function Lower(s: string): (r: string)
    ensures |r| == |s|
    ensures forall i :: 0 <= i < |s| ==> r[i] == LowerChar(s[i])
  {
    seq(|s|, i requires 0 <= i < |s| => LowerChar(s[i]))
  }

  /** `str.upper()`, restricted to the ASCII letters. */
  function Upper(s: string): (r: string)
    ensures |r| == |s|
    ensures forall i :: 0 <= i < |s| ==> r[i] == UpperChar(s[i])
  {
    seq(|s|, i requires 0 <= i < |s| => UpperChar(s[i]))
  }

  /** `s.replace(from, to)` for one-character `from` and `to`. */
  function ReplaceChar(s: string, from: char, to: char): (r: string)
    ensures |r| == |s|
    ensures forall i :: 0 <= i < |s| ==> r[i] == (if s[i] == from then to else s[i])
    ensures from != to ==> from !in r
  {
    seq(|s|, i requires 0 <= i < |s| => if s[i] == from then to else s[i])
  }

  /** Drops the leading whitespace of `s`. */
  function TrimStart(s: string): (r: string)
    ensures |r| <= |s| && r == s[|s| - |r|..]
    ensures forall i :: 0 <= i < |s| - |r| ==> IsSpace(s[i])
    ensures |r| > 0 ==> !IsSpace(r[0])
  {
    if |s| > 0 && IsSpace(s[0]) then TrimStart(s[1..]) else s
  }

  /** Drops the trailing whitespace of `s`. */
  function TrimEnd(s: string): (r: string)
    ensures |r| <= |s| && r == s[..|r|]
    ensures forall i :: |r| <= i < |s| ==> IsSpace(s[i])
    ensures |r| > 0 ==> !IsSpace(r[|r| - 1])
  {
    if |s| > 0 && IsSpace(s[|s| - 1]) then TrimEnd(s[..|s| - 1]) else s
  }

  /** `str.strip()` with no argument: the infix of `s` left after removing
      the whitespace at both ends. */
  function Strip(s: string): (r: string)
    ensures |r| > 0 ==> !IsSpace(r[0]) && !IsSpace(r[|r| - 1])
    ensures var k := |s| - |TrimStart(s)|;
      && k + |r| <= |s| && r == s[k..k + |r|]
      && (forall i :: 0 <= i < k ==> IsSpace(s[i]))
      && (forall i :: k + |r| <= i < |s| ==> IsSpace(s[i]))
  {
    TrimEnd(TrimStart(s))
  }

  /** `sep.join(parts)`. */
  function Join(parts: seq<string>, sep: string): (r: string)
  {
    if |parts| == 0 then ""
    else if |parts| == 1 then parts[0]
    else parts[0] + sep + Join(parts[1..], sep)
  }

  /** `s.split(sep)` for a one-character separator: the pieces between
      separators, at least one, none containing the separator. */
  function Split(s: string, sep: char): (r: seq<string>)
    ensures |r| >= 1
    ensures forall i :: 0 <= i < |r| ==> sep !in r[i]
  {
    if |s| == 0 then [""]
    else
      var rest := Split(s[1..], sep);
      if s[0] == sep then [""] + rest
      else [[s[0]] + rest[0]] + rest[1..]
  }

  /** The part of `s` before the first `sep`, or all of `s` if there is none. */
  function BeforeFirst(s: string, sep: char): (r: string)
    ensures sep !in r
    ensures r <= s && (r == s || s[|r|] == sep)
  {
    if |s| == 0 || s[0] == sep then "" else [s[0]] + BeforeFirst(s[1..], sep)
  }

  /** The part of `s` after the last `sep`, or all of `s` if there is none. */
  function AfterLast(s: string, sep: char): (r: string)
    ensures sep !in r
    ensures |r| <= |s| && r == s[|s| - |r|..]
    ensures r == s || s[|s| - |r| - 1] == sep
  {
    if |s| == 0 || s[|s| - 1] == sep then "" else AfterLast(s[..|s| - 1], sep) + [s[|s| - 1]]
  }

  /** `s.split(sep)[0]` is the text before the first separator. */
  lemma {:induction false} SplitFirst(s: string, sep: char)
    ensures Split(s, sep)[0] == BeforeFirst(s, sep)
    decreases |s|
  {
    if |s| > 0 && s[0] != sep {
      SplitFirst(s[1..], sep);
    }
  }

  /** At most one suffix of `s` is free of `sep` and either all of `s` or
      preceded by `sep`. */
  lemma SeparatedSuffixUnique(s: string, a: string, b: string, sep: char)
    requires |a| <= |s| && a == s[|s| - |a|..] && sep !in a && (a == s || s[|s| - |a| - 1] == sep)
    requires |b| <= |s| && b == s[|s| - |b|..] && sep !in b && (b == s || s[|s| - |b| - 1] == sep)
    ensures a == b
  {
  }

  lemma AfterLastWhole(s: string, sep: char)
    requires sep !in s
    ensures AfterLast(s, sep) == s
  {
  }

  lemma AfterLastDropFirst(s: string, sep: char)
    requires |s| > 0 && (s[0] == sep || sep in s[1..])
    ensures AfterLast(s, sep) == AfterLast(s[1..], sep)
  {
    var t := AfterLast(s[1..], sep);
    assert t == s[|s| - |t|..];
    if t == s[1..] {
      assert sep !in s[1..];
    } else {
      assert s[1..][|s| - 1 - |t| - 1] == sep;
    }
    SeparatedSuffixUnique(s, t, AfterLast(s, sep), sep);
  }

  /** `s.split(sep)[-1]` is the text after the last separator. */
  lemma {:induction false} SplitLast(s: string, sep: char)
    ensures Split(s, sep)[|Split(s, sep)| - 1] == AfterLast(s, sep)
    decreases |s|
  {
    if |s| > 0 {
      SplitLast(s[1..], sep);
      SplitSingle(s[1..], sep);
      if s[0] == sep || sep in s[1..] {
        SplitLastStep(s, sep);
      } else {
        SplitLastWhole(s, sep);
      }
    }
  }

  /** Without a separator, the last piece is the whole string. */
  lemma SplitLastWhole(s: string, sep: char)
    requires sep !in s
    ensures Split(s, sep)[|Split(s, sep)| - 1] == AfterLast(s, sep)
  {
    SplitWhole(s, sep);
    AfterLastWhole(s, sep);
  }

  /** After a separator, the last piece is the last piece of the rest. */
  lemma SplitLastStep(s: string, sep: char)
    requires |s| > 0 && (s[0] == sep || sep in s[1..])
    requires |Split(s[1..], sep)| == 1 <==> sep !in s[1..]
    requires Split(s[1..], sep)[|Split(s[1..], sep)| - 1] == AfterLast(s[1..], sep)
    ensures Split(s, sep)[|Split(s, sep)| - 1] == AfterLast(s, sep)
  {
    SplitKeepsLastPiece(s, sep);
    AfterLastDropFirst(s, sep);
  }

  lemma SplitKeepsLastPiece(s: string, sep: char)
    requires |s| > 0 && (s[0] == sep || |Split(s[1..], sep)| > 1)
    ensures Split(s, sep)[|Split(s, sep)| - 1] == Split(s[1..], sep)[|Split(s[1..], sep)| - 1]
  {
    var rest := Split(s[1..], sep);
    if s[0] == sep {
      assert Split(s, sep) == [""] + rest;
    } else {
      assert Split(s, sep) == [[s[0]] + rest[0]] + rest[1..];
    }
  }

  /** Without a separator, the one piece is the whole string. */
  lemma {:induction false} SplitWhole(s: string, sep: char)
    requires sep !in s
    ensures Split(s, sep) == [s]
    decreases |s|
  {
    if |s| > 0 {
      SplitWhole(s[1..], sep);
      assert [s[0]] + s[1..] == s;
    }
  }

  /** Splitting and joining on the same separator gives back the string. */
  lemma {:induction false} JoinSplit(s: string, sep: char)
    ensures Join(Split(s, sep), [sep]) == s
    decreases |s|
  {
    if |s| > 0 {
      var rest := Split(s[1..], sep);
      JoinSplit(s[1..], sep);
      if s[0] == sep {
        assert Split(s, sep) == [""] + rest;
        assert Join([""] + rest, [sep]) == "" + [sep] + Join(rest, [sep]);
        assert s == [s[0]] + s[1..];
      } else {
        var r := Split(s, sep);
        assert r == [[s[0]] + rest[0]] + rest[1..];
        if |rest| == 1 {
          assert r == [[s[0]] + rest[0]];
          assert s == [s[0]] + s[1..];
        } else {
          assert r[1..] == rest[1..];
          assert Join(r, [sep]) == [s[0]] + rest[0] + [sep] + Join(rest[1..], [sep]);
          assert Join(rest, [sep]) == rest[0] + [sep] + Join(rest[1..], [sep]);
          assert s == [s[0]] + s[1..];
        }
      }
    }
  }

  /** The separator splits the string into more than one piece exactly
      when it occurs in it. */
  lemma {:induction false} SplitSingle(s: string, sep: char)
    ensures |Split(s, sep)| == 1 <==> sep !in s
    decreases |s|
  {
    if |s| > 0 {
      SplitSingle(s[1..], sep);
      assert sep in s <==> s[0] == sep || sep in s[1..];
    }
  }
}

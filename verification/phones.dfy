/**
 Context encoding of a text (`get_phone_input_from_text` and
 `create_lab_input`): the text becomes a `START` token, one token per
 character carrying the lower-cased symbol, a speaker tag and a casing tag,
 and a `STOP` token.
 */
module Phones {
  import opened Text
  import opened Normalize

  /** `PhoneInfo(symbol, context, start, stop)`: the two offsets are always
      0 where tokens are built from text. */
  datatype PhoneInfo = PhoneInfo(symbol: string, context: seq<string>, start: int, stop: int)

  const StartToken := PhoneInfo("START", [], 0, 0)
  const StopToken := PhoneInfo("STOP", [], 0, 0)

  const CaseSymb := "CASE:symb"
  const CaseUpper := "CASE:upper"
  const CaseLower := "CASE:lower"

  function SpeakerTag(identity: string): string {
    "SPEAKER:" + identity
  }

  /** The casing tag of a character: `CASE:symb` when its lower-cased form
      is unchanged by upper-casing, otherwise `CASE:upper` when lower-casing
      changed it, otherwise `CASE:lower`. With ASCII case mapping this sorts
      characters into upper-case letters, lower-case letters and the rest. */
  function CaseStyle(c: char): (style: string)
    ensures style in {CaseSymb, CaseUpper, CaseLower}
    ensures style == CaseUpper <==> IsAsciiUpper(c)
    ensures style == CaseLower <==> IsAsciiLower(c)
    ensures style == CaseSymb <==> !IsAsciiUpper(c) && !IsAsciiLower(c)
  {
    var l := Lower([c]);
    assert l == [LowerChar(c)];
    assert Upper(l) == [UpperChar(LowerChar(c))];
    assert IsAsciiUpper(c) ==> LowerChar(c) != c && UpperChar(LowerChar(c)) != LowerChar(c);
    assert IsAsciiLower(c) ==> UpperChar(LowerChar(c)) != LowerChar(c);
    assert CaseSymb[5] != CaseUpper[5] && CaseSymb[5] != CaseLower[5] && CaseUpper[5] != CaseLower[5];
    if l == Upper(l) then CaseSymb
    else if l != [c] then CaseUpper
    else CaseLower
  }

  /** The token of one character: a one-character symbol that is never an
      upper-case letter, and exactly two tags. The speaker identity can be
      read back from the first tag, and the character itself from the
      symbol and the casing tag. */
  function CharToken(c: char, identity: string): (t: PhoneInfo)
    ensures |t.symbol| == 1 && |t.context| == 2
    ensures !IsAsciiUpper(t.symbol[0])
    ensures |t.context[0]| >= 8 && t.context[0][8..] == identity
    ensures TokenChar(t) == c
  {
    var t := PhoneInfo(Lower([c]), [SpeakerTag(identity), CaseStyle(c)], 0, 0);
    assert t.symbol == [LowerChar(c)];
    assert IsAsciiUpper(c) <==> t.context[1] == CaseUpper;
    t
  }

  /** `get_phone_input_from_text`: `START`, one token per character in
      order, `STOP`. */
  function PhoneInput(text: string, identity: string): (r: seq<PhoneInfo>)
    ensures |r| == |text| + 2
    ensures r[0] == StartToken && r[|r| - 1] == StopToken
    ensures r[0].context == [] && r[|r| - 1].context == []
    ensures forall i :: 0 <= i < |text| ==> r[i + 1] == CharToken(text[i], identity)
  {
    Framed(CharTokens(text, identity))
  }

  /** The tokens between a `START` and a `STOP` token. */
  function Framed(inner: seq<PhoneInfo>): (r: seq<PhoneInfo>)
    ensures |r| == |inner| + 2
    ensures r[0] == StartToken && r[|r| - 1] == StopToken
    ensures forall i :: 0 <= i < |inner| ==> r[i + 1] == inner[i]
  {
    [StartToken] + inner + [StopToken]
  }

  /** The per-character tokens, built by the `for char in text` loop. */
  function CharTokens(text: string, identity: string): (r: seq<PhoneInfo>)
    ensures |r| == |text|
    ensures forall i :: 0 <= i < |text| ==> r[i] == CharToken(text[i], identity)
    decreases |text|
  {
    if |text| == 0 then []
    else CharTokens(text[..|text| - 1], identity) + [CharToken(text[|text| - 1], identity)]
  }

  /** The tokens between the sentinels. */
  function Inner(tokens: seq<PhoneInfo>): seq<PhoneInfo>
    requires |tokens| >= 2
  {
    tokens[1..|tokens| - 1]
  }

  /** Each token depends only on its own character: the inner tokens of a
      concatenation are the inner tokens of the parts, in order. */
  lemma PhoneInputConcat(a: string, b: string, identity: string)
    ensures Inner(PhoneInput(a + b, identity))
         == Inner(PhoneInput(a, identity)) + Inner(PhoneInput(b, identity))
  {
    InnerTokens(a, identity);
    InnerTokens(b, identity);
    InnerTokens(a + b, identity);
    CharTokensAppend(a, b, identity);
  }

  lemma CharTokensAppend(a: string, b: string, identity: string)
    ensures CharTokens(a + b, identity) == CharTokens(a, identity) + CharTokens(b, identity)
  {
    var r := CharTokens(a + b, identity);
    var parts := CharTokens(a, identity) + CharTokens(b, identity);
    forall i | 0 <= i < |r| ensures r[i] == parts[i] {
      CharTokenOfAppend(a, b, identity, i);
    }
  }

  lemma CharTokenOfAppend(a: string, b: string, identity: string, i: nat)
    requires i < |a| + |b|
    ensures CharTokens(a + b, identity)[i] == (CharTokens(a, identity) + CharTokens(b, identity))[i]
  {
    if i < |a| {
      assert (a + b)[i] == a[i];
    } else {
      assert (a + b)[i] == b[i - |a|];
    }
  }

  lemma InnerTokens(text: string, identity: string)
    ensures Inner(PhoneInput(text, identity)) == CharTokens(text, identity)
  {
    var r := PhoneInput(text, identity);
    assert forall i :: 0 <= i < |text| ==> Inner(r)[i] == r[i + 1];
  }

  // ---------------------------------------------------------------------
  // Reading a token back

  /** The character a non-sentinel token was made from: its symbol,
      upper-cased again when the casing tag says so. */
  function TokenChar(t: PhoneInfo): char
    requires |t.symbol| == 1 && |t.context| == 2
  {
    if t.context[1] == CaseUpper then UpperChar(t.symbol[0]) else t.symbol[0]
  }

  /** The text spelled by the inner tokens. */
  function TokensText(tokens: seq<PhoneInfo>): string
    requires |tokens| >= 2
    requires forall i :: 1 <= i < |tokens| - 1 ==> |tokens[i].symbol| == 1 && |tokens[i].context| == 2
  {
    seq(|tokens| - 2, i requires 0 <= i < |tokens| - 2 => TokenChar(tokens[i + 1]))
  }

  /** Lower-casing together with the casing tag loses nothing: the text
      can be read back from its tokens. */
  lemma TextRoundTrip(text: string, identity: string)
    ensures var r := PhoneInput(text, identity);
      && (forall i :: 1 <= i < |r| - 1 ==> |r[i].symbol| == 1 && |r[i].context| == 2)
      && TokensText(r) == text
  {
    var r := PhoneInput(text, identity);
    forall i | 1 <= i < |r| - 1
      ensures |r[i].symbol| == 1 && |r[i].context| == 2
      ensures TokenChar(r[i]) == text[i - 1]
    {
      assert r[i] == CharToken(text[i - 1], identity);
    }
  }

  /** Every inner token carries the speaker identity it was built with. */
  lemma SpeakerRoundTrip(text: string, identity: string)
    ensures var r := PhoneInput(text, identity);
      forall i :: 1 <= i < |r| - 1 ==>
        |r[i].context| == 2 && |r[i].context[0]| >= 8 && r[i].context[0][8..] == identity
  {
  }

  /** `create_lab_input`: the file is normalised by `get_file_input` and
      then encoded. The tokens spell the file's words joined by single
      spaces. */
  function LabInput(content: string, identity: string): (r: seq<PhoneInfo>)
    ensures |r| >= 2 && r[0] == StartToken && r[|r| - 1] == StopToken
    ensures (forall i :: 1 <= i < |r| - 1 ==> |r[i].symbol| == 1 && |r[i].context| == 2)
    ensures TokensText(r) == Join(Words(content), " ")
    ensures Normalised(TokensText(r))
    ensures r == PhoneInput(Join(Words(content), " "), identity)
  {
    var line := FileInput(content);
    TextRoundTrip(line, identity);
    PhoneInput(line, identity)
  }
}

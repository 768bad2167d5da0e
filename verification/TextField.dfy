/** Length-prefixed, NUL-terminated strings (files/String.cpp). */
module TextField {
  import opened RawData

  const MAX_TEXT := 253

  /** The position of the first NUL character, or the length when there is none. */
  function FirstNul(s: Bytes): (k: nat)
    ensures k <= |s|
    ensures forall i :: 0 <= i < k ==> s[i] != 0
    ensures k < |s| ==> s[k] == 0
    ensures 0 !in s ==> k == |s|
  {
    if s == [] || s[0] == 0 then 0 else 1 + FirstNul(s[1..])
  }

  /** A string as a reader of the NUL-terminated form sees it. */
  function Cut(s: Bytes): (r: Bytes)
    ensures 0 !in r
  {
    s[..FirstNul(s)]
  }

  lemma FirstNulUnique(s: Bytes, k: nat)
    requires k < |s| && s[k] == 0 && 0 !in s[..k]
    ensures FirstNul(s) == k
  {
  }

  lemma CutNulFree(s: Bytes)
    requires 0 !in s
    ensures Cut(s) == s
  {
  }

  lemma CutExactly(s: Bytes)
    ensures Cut(s) == s <==> 0 !in s
  {
  }

  /** What the encoder accepts; width 0 asks for the variable form. */
  predicate TextFits(s: Bytes, width: Byte) {
    |s| <= MAX_TEXT && (width != 0 && s != [] ==> |s| + 1 <= width)
  }

  /** The length byte, the characters, and NUL characters up to the declared length. */
  function FixedTextBytes(s: Bytes, width: Byte): (r: Bytes)
    requires TextFits(s, width)
  {
    var n := if width != 0 then width else if s == [] then 0 else |s| + 1;
    [n] + s + Zeros(n - |s|)
  }

  function TextBytes(s: Bytes): Bytes
    requires |s| <= MAX_TEXT
  {
    FixedTextBytes(s, 0)
  }

  function GetText(bs: Bytes): Parsed<Bytes> {
    if bs == [] || |bs| - 1 < bs[0] then Failed
    else
      var n: int := bs[0];
      var field, rest := bs[1..1 + n], bs[1 + n..];
      if n > 0 && FirstNul(field) == n then Failed else Parsed(Cut(field), rest)
  }

  method StringEncode(s: Bytes, width: Byte) returns (r: Option<Bytes>)
    ensures r.Some? <==> TextFits(s, width)
    ensures r.Some? ==> r.value == FixedTextBytes(s, width)
  {
    var rawStringSize := if s == [] then 0 else |s| + 1;
    if rawStringSize >= 255 || (width != 0 && rawStringSize > width) {
      return None;
    }
    var length: Byte := if width != 0 then width else rawStringSize;
    var rawString := new Byte[1 + length](_ => 0);
    rawString[0] := length;
    for i := 0 to |s|
      invariant rawString[0] == length
      invariant forall j :: 0 <= j < i ==> rawString[1 + j] == s[j]
      invariant forall j :: i < j < rawString.Length ==> rawString[j] == 0
    {
      rawString[1 + i] := s[i];
    }
    if s != [] {
      rawString[length] := 0;
    }
    assert rawString[..] == FixedTextBytes(s, width);
    return Some(rawString[..]);
  }

  method StringDecode(raw: Bytes) returns (r: Parsed<Bytes>)
    ensures r == GetText(raw)
  {
    if raw == [] {
      return Failed;
    }
    var rawData := raw;
    var stringLength := rawData[0];
    rawData := rawData[1..];
    if |rawData| < stringLength {
      return Failed;
    }
    var decodedString: Bytes := [];
    if stringLength > 0 {
      decodedString, rawData := rawData[..stringLength], rawData[stringLength..];
      assert decodedString == raw[1..1 + stringLength as int];
      var nullTermPos := FirstNul(decodedString);
      if nullTermPos == |decodedString| {
        return Failed;
      }
      decodedString := decodedString[..nullTermPos];
    }
    return Parsed(decodedString, rawData);
  }

  /** A text is read exactly from a length byte and as many bytes that hold the text, a NUL
      and anything, or from a length of zero; what is left stands behind them. */
  lemma TextExactly(bs: Bytes, s: Bytes, rest: Bytes)
    ensures GetText(bs) == Parsed(s, rest)
            <==> && bs != [] && |bs| >= 1 + bs[0] as int && rest == bs[1 + bs[0] as int..] && 0 !in s
                 && if bs[0] == 0 then s == [] else s + [0] <= bs[1..1 + bs[0] as int]
  {
    if bs != [] && |bs| >= 1 + bs[0] as int && bs[0] > 0 && 0 !in s {
      var field := bs[1..1 + bs[0] as int];
      if s + [0] <= field {
        assert field[..|s|] == s && field[|s|] == (s + [0])[|s|];
        FirstNulUnique(field, |s|);
      }
      if GetText(bs) == Parsed(s, rest) {
        assert field[..|s|] == s && field[|s|] == 0;
      }
    }
  }

  /** An empty text is a single zero, any other one its length with the NUL, the text and the NUL. */
  lemma TextWritten(s: Bytes, width: Byte)
    requires TextFits(s, width)
    ensures |s| <= 253
    ensures width == 0 ==> FixedTextBytes(s, width) == if s == [] then [0] else [|s| + 1] + s + [0]
    ensures width != 0 ==> FixedTextBytes(s, width) == [width] + s + seq(width - |s|, _ => 0)
  {
  }

  lemma TextRoundTrip(s: Bytes, width: Byte, rest: Bytes)
    requires TextFits(s, width)
    ensures GetText(FixedTextBytes(s, width) + rest) == Parsed(Cut(s), rest)
  {
    var raw := FixedTextBytes(s, width) + rest;
    var n: int := raw[0];
    var pad := Zeros(n - |s|);
    assert raw[1..1 + n] == s + pad;
    assert raw[1 + n..] == rest;
    var k := FirstNul(s);
    if n > 0 {
      assert (s + pad)[..k] == s[..k];
      assert k < |s| ==> (s + pad)[k] == s[k];
      FirstNulUnique(s + pad, k);
    }
  }

  /** A field read once is read the same whatever follows it, and is NUL-free. */
  lemma TextDelimited(bs: Bytes, rest: Bytes)
    requires GetText(bs).Parsed?
    ensures |GetText(bs).rest| == |bs| - 1 - bs[0] as int
    ensures bs == bs[..1 + bs[0] as int] + GetText(bs).rest
    ensures GetText(bs[..1 + bs[0] as int] + rest) == Parsed(GetText(bs).value, rest)
    ensures 0 !in GetText(bs).value && |GetText(bs).value| <= 254
  {
  }

  /** A string of 254 characters can be read, but not written. */
  lemma LongestOnlyRead(s: Bytes)
    requires |s| == 254 && 0 !in s
    ensures GetText([255] + s + [0]) == Parsed(s, []) && forall width :: !TextFits(s, width)
  {
    hide FirstNul;
    var raw, field := [255] + s + [0], s + [0];
    assert raw[1..1 + 255] == field && raw[1 + 255..] == [];
    assert field[..254] == s;
    FirstNulUnique(field, 254);
  }

  /** Re-encoding a decoded string never needs more room than it was read from,
      and needs the same room only when it was already in canonical form. */
  lemma TextNeverGrows(bs: Bytes)
    requires GetText(bs).Parsed? && |GetText(bs).value| <= MAX_TEXT
    ensures |TextBytes(GetText(bs).value)| <= 1 + bs[0] as int
    ensures |TextBytes(GetText(bs).value)| == 1 + bs[0] as int ==>
              TextBytes(GetText(bs).value) == bs[..1 + bs[0] as int]
  {
  }
}

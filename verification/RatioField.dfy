/** Three-character ratio fields (files/Ratio.cpp). The value is read the way
    std::stoul reads a number: leading white space and a sign are skipped and
    whatever follows the digits is ignored. */
module RatioField {
  import opened RawData

  const MAX_RATIO := 100

  type RatioValue = x: int | 0 <= x <= MAX_RATIO

  predicate IsSpace(b: Byte) { b == 32 || 9 <= b <= 13 }

  predicate IsDigit(b: Byte) { 48 <= b <= 57 }

  function SkipSpaces(t: Bytes): (r: Bytes)
    ensures |r| <= |t|
  {
    if t != [] && IsSpace(t[0]) then SkipSpaces(t[1..]) else t
  }

  /** The leading digits of a text. */
  function DigitRun(t: Bytes): (r: Bytes)
    ensures |r| <= |t| && AllDigits(r)
  {
    if t != [] && IsDigit(t[0]) then [t[0]] + DigitRun(t[1..]) else []
  }

  predicate AllDigits(t: Bytes) {
    forall i :: 0 <= i < |t| ==> IsDigit(t[i])
  }

  function DecimalValue(digits: Bytes): (n: nat)
    requires AllDigits(digits)
  {
    if digits == [] then 0
    else
      assert IsDigit(digits[|digits| - 1]);
      var last: int := digits[|digits| - 1];
      DecimalValue(digits[..|digits| - 1]) * 10 + (last - 48)
  }

  function SignOf(t: Bytes): (sign: Bytes)
    ensures |sign| <= |t| && t == sign + t[|sign|..]
  {
    if t != [] && (t[0] == 43 || t[0] == 45) then [t[0]] else []
  }

  /** The number of a sign and digits, modulo 2^32 as the cast to unsigned int leaves it. */
  function Denoted(sign: Bytes, digits: Bytes): nat
    requires AllDigits(digits)
  {
    var n: int := DecimalValue(digits);
    (if sign == [45] then -n else n) % TWO_TO_THE_32
  }

  /** The number a text starts with. */
  function UnsignedPrefix(t: Bytes): (r: Option<nat>) {
    var text := SkipSpaces(t);
    var digits := DigitRun(text[|SignOf(text)|..]);
    if digits == [] then None else Some(Denoted(SignOf(text), digits))
  }

  function GetRatio(bs: Bytes): (r: Parsed<RatioValue>) {
    if |bs| < 3 then Failed
    else
      match UnsignedPrefix(bs[..3])
      case None => Failed
      case Some(n) => if n > MAX_RATIO then Failed else Parsed(n, bs[3..])
  }

  /** The value right-aligned in three characters. */
  function RatioBytes(n: RatioValue): (r: Bytes)
    ensures |r| == 3
  {
    if n < 10 then [32, 32, 48 + n]
    else if n < 100 then [32, 48 + n / 10, 48 + n % 10]
    else [49, 48, 48]
  }

  lemma DecimalDigits(d: Byte, e: Byte, f: Byte)
    requires IsDigit(d) && IsDigit(e) && IsDigit(f)
    ensures DecimalValue([d]) == d as int - 48
    ensures DecimalValue([d, e]) == (d as int - 48) * 10 + (e as int - 48)
    ensures DecimalValue([d, e, f]) == (d as int - 48) * 100 + (e as int - 48) * 10 + (f as int - 48)
  {
    assert [d][..0] == [];
    assert [d, e][..1] == [d];
    assert [d, e, f][..2] == [d, e];
  }

  predicate AllSpaces(t: Bytes) {
    forall i :: 0 <= i < |t| ==> IsSpace(t[i])
  }

  lemma {:induction false} SpacesSkipped(spaces: Bytes, rest: Bytes)
    requires AllSpaces(spaces) && (rest == [] || !IsSpace(rest[0]))
    ensures SkipSpaces(spaces + rest) == rest
  {
    if spaces == [] {
      assert spaces + rest == rest;
    } else {
      assert (spaces + rest)[1..] == spaces[1..] + rest;
      SpacesSkipped(spaces[1..], rest);
    }
  }

  lemma {:induction false} SkippedSpaces(t: Bytes)
    ensures var rest := SkipSpaces(t);
            && (rest == [] || !IsSpace(rest[0]))
            && AllSpaces(t[..|t| - |rest|]) && t == t[..|t| - |rest|] + rest
  {
    var rest := SkipSpaces(t);
    if t != [] && IsSpace(t[0]) {
      SkippedSpaces(t[1..]);
      assert t[..|t| - |rest|] == [t[0]] + t[1..][..|t| - 1 - |rest|];
    } else {
      assert t[..0] == [] && [] + t == t;
    }
  }

  lemma {:induction false} DigitsRun(digits: Bytes, tail: Bytes)
    requires AllDigits(digits) && (tail == [] || !IsDigit(tail[0]))
    ensures DigitRun(digits + tail) == digits
  {
    if digits == [] {
      assert digits + tail == tail;
    } else {
      assert (digits + tail)[1..] == digits[1..] + tail;
      DigitsRun(digits[1..], tail);
    }
  }

  lemma {:induction false} RunDigits(t: Bytes)
    ensures var digits := DigitRun(t);
            digits <= t && (|digits| < |t| ==> !IsDigit(t[|digits|]))
  {
    if t != [] && IsDigit(t[0]) {
      RunDigits(t[1..]);
      assert t == [t[0]] + t[1..];
    }
  }

  /** White space, at most one sign, a longest run of digits, and anything. */
  predicate Split(text: Bytes, spaces: Bytes, sign: Bytes, digits: Bytes, tail: Bytes) {
    && text == spaces + sign + digits + tail
    && AllSpaces(spaces) && sign in {[], [43], [45]}
    && digits != [] && AllDigits(digits) && (tail == [] || !IsDigit(tail[0]))
  }

  predicate Spells(text: Bytes, spaces: Bytes, sign: Bytes, digits: Bytes, tail: Bytes, n: nat) {
    Split(text, spaces, sign, digits, tail) && Denoted(sign, digits) == n
  }

  /** Such a split is unique: it is the one the reader makes. */
  lemma SplitMade(text: Bytes, spaces: Bytes, sign: Bytes, digits: Bytes, tail: Bytes)
    requires Split(text, spaces, sign, digits, tail)
    ensures SkipSpaces(text) == sign + digits + tail
    ensures SignOf(SkipSpaces(text)) == sign && DigitRun(SkipSpaces(text)[|sign|..]) == digits
  {
    hide SkipSpaces, DigitRun;
    var rest := sign + digits + tail;
    assert text == spaces + rest;
    assert rest[0] == if sign == [] then digits[0] else sign[0];
    SpacesSkipped(spaces, rest);
    assert SignOf(rest) == sign && rest[|sign|..] == digits + tail;
    DigitsRun(digits, tail);
  }

  lemma SplitRead(text: Bytes, spaces: Bytes, sign: Bytes, digits: Bytes, tail: Bytes)
    requires Split(text, spaces, sign, digits, tail)
    ensures UnsignedPrefix(text) == Some(Denoted(sign, digits))
  {
    hide Denoted, SkipSpaces, DigitRun;
    SplitMade(text, spaces, sign, digits, tail);
  }

  lemma Joined(text: Bytes, spaces: Bytes, sign: Bytes, rest: Bytes, digits: Bytes, tail: Bytes)
    requires text == spaces + rest && rest == sign + (digits + tail)
    ensures text == spaces + sign + digits + tail
  {
  }

  lemma ReadSplit(text: Bytes)
    requires UnsignedPrefix(text).Some?
    ensures exists spaces, sign, digits, tail :: Split(text, spaces, sign, digits, tail)
  {
    hide Denoted, SkipSpaces, DigitRun, SignOf, Split;
    SkippedSpaces(text);
    var rest := SkipSpaces(text);
    var sign := SignOf(rest);
    SplitFrom(text, text[..|text| - |rest|], sign, rest[|sign|..]);
  }

  lemma SplitFrom(text: Bytes, spaces: Bytes, sign: Bytes, number: Bytes)
    requires text == spaces + (sign + number) && AllSpaces(spaces) && sign == SignOf(sign + number)
    requires DigitRun(number) != []
    ensures Split(text, spaces, sign, DigitRun(number), number[|DigitRun(number)|..])
  {
    hide DigitRun, AllSpaces, AllDigits, IsDigit;
    var digits := DigitRun(number);
    var tail := number[|digits|..];
    RunDigits(number);
    assert number == digits + tail;
    Joined(text, spaces, sign, sign + number, digits, tail);
  }

  /** A text denotes a number exactly when it is white space, an optional sign and a longest
      run of digits that denote the number, negated for a minus sign, modulo 2^32. */
  lemma PrefixExactly(text: Bytes, n: nat)
    ensures UnsignedPrefix(text) == Some(n)
            <==> exists spaces, sign, digits, tail :: Spells(text, spaces, sign, digits, tail, n)
  {
    hide UnsignedPrefix, Split, Denoted;
    if UnsignedPrefix(text) == Some(n) {
      ReadSplit(text);
      var spaces, sign, digits, tail :| Split(text, spaces, sign, digits, tail);
      SplitRead(text, spaces, sign, digits, tail);
      assert Spells(text, spaces, sign, digits, tail, n);
    }
    forall spaces, sign, digits, tail | Spells(text, spaces, sign, digits, tail, n)
      ensures UnsignedPrefix(text) == Some(n)
    {
      SplitRead(text, spaces, sign, digits, tail);
    }
  }

  /** White space, at most one sign, up to three digits with the value of a number, and anything
      but a further digit behind them; with a minus sign the number is zero. */
  predicate Written(text: Bytes, spaces: Bytes, sign: Bytes, digits: Bytes, tail: Bytes, n: nat) {
    && text == spaces + sign + digits + tail
    && (forall i :: 0 <= i < |spaces| ==> spaces[i] in {9, 10, 11, 12, 13, 32})
    && (sign == [] || sign == [0x2B] || sign == [0x2D])
    && 1 <= |digits| <= 3 && (forall i :: 0 <= i < |digits| ==> 48 <= digits[i] <= 57)
    && (tail == [] || !(48 <= tail[0] <= 57))
    && n == SmallValue(digits) && (sign == [0x2D] ==> n == 0)
  }

  function SmallValue(digits: Bytes): int
    requires 1 <= |digits| <= 3
  {
    if |digits| == 1 then digits[0] as int - 48
    else if |digits| == 2 then digits[0] as int * 10 + digits[1] as int - 528
    else digits[0] as int * 100 + digits[1] as int * 10 + digits[2] as int - 5328
  }

  lemma SmallValueIs(digits: Bytes)
    requires AllDigits(digits) && 1 <= |digits| <= 3
    ensures SmallValue(digits) == DecimalValue(digits) < 1000
  {
    hide DecimalValue;
    ShortValue(digits);
    if |digits| == 1 {
      DecimalDigits(digits[0], 48, 48);
      assert digits == [digits[0]];
    } else if |digits| == 2 {
      DecimalDigits(digits[0], digits[1], 48);
      assert digits == [digits[0], digits[1]];
    } else {
      DecimalDigits(digits[0], digits[1], digits[2]);
      assert digits == [digits[0], digits[1], digits[2]];
    }
  }

  lemma WrittenSpells(text: Bytes, spaces: Bytes, sign: Bytes, digits: Bytes, tail: Bytes, n: nat)
    requires |text| == 3 && n <= 100
    ensures Written(text, spaces, sign, digits, tail, n) <==> Spells(text, spaces, sign, digits, tail, n)
  {
    hide DecimalValue, SmallValue;
    if AllDigits(digits) && 1 <= |digits| <= 3 {
      SmallValueIs(digits);
    }
  }

  /** A field is read as a ratio exactly when its three characters are written that way and the
      number is at most 100; what is left stands behind them. */
  lemma RatioExactly(bs: Bytes, n: nat, rest: Bytes)
    ensures GetRatio(bs).Parsed? && GetRatio(bs).value == n && GetRatio(bs).rest == rest
            <==> && |bs| >= 3 && rest == bs[3..] && n <= 100
                 && exists spaces, sign, digits, tail :: Written(bs[..3], spaces, sign, digits, tail, n)
  {
    hide UnsignedPrefix, Spells, Written;
    if |bs| >= 3 {
      PrefixExactly(bs[..3], n);
      if n <= 100 {
        forall spaces, sign, digits, tail
          ensures Written(bs[..3], spaces, sign, digits, tail, n) <==> Spells(bs[..3], spaces, sign, digits, tail, n)
        {
          WrittenSpells(bs[..3], spaces, sign, digits, tail, n);
        }
      }
    }
  }

  /** Three digits, or fewer behind spaces. */
  predicate Padded(text: Bytes, spaces: Bytes, digits: Bytes) {
    text == spaces + digits && (forall b <- spaces :: b == 32) && digits != [] && AllDigits(digits)
  }

  predicate Documented(text: Bytes) {
    exists i :: 0 <= i <= |text| && Padded(text, text[..i], text[i..])
  }

  /** Fields of the documented form are read as the number their digits denote, up to 100. */
  lemma DocumentedRead(bs: Bytes, spaces: Bytes, digits: Bytes)
    requires |bs| >= 3 && Padded(bs[..3], spaces, digits)
    ensures GetRatio(bs) == if DecimalValue(digits) <= MAX_RATIO then Parsed(DecimalValue(digits), bs[3..]) else Failed
  {
    hide UnsignedPrefix, DecimalValue;
    PaddedSplit(bs[..3], spaces, digits);
    SplitRead(bs[..3], spaces, [], digits, []);
    ShortValue(digits);
  }

  lemma ShortValue(digits: Bytes)
    requires AllDigits(digits) && 0 < |digits| <= 3
    ensures DecimalValue(digits) < 1000
  {
    if |digits| == 1 {
      DecimalDigits(digits[0], 48, 48);
      assert digits == [digits[0]];
    } else if |digits| == 2 {
      DecimalDigits(digits[0], digits[1], 48);
      assert digits == [digits[0], digits[1]];
    } else {
      DecimalDigits(digits[0], digits[1], digits[2]);
      assert digits == [digits[0], digits[1], digits[2]];
    }
  }

  lemma PaddedAt(text: Bytes, i: nat)
    requires i <= |text|
    ensures Padded(text, text[..i], text[i..])
            <==> && i < |text| && (forall k :: 0 <= k < i ==> text[k] == 32)
                 && forall k :: i <= k < |text| ==> IsDigit(text[k])
  {
    hide IsDigit;
    assert text == text[..i] + text[i..];
    assert forall k :: 0 <= k < i ==> text[k] == text[..i][k] && text[..i][k] in text[..i];
    assert forall k :: i <= k < |text| ==> text[k] == text[i..][k - i];
  }

  /** The last character is a digit, the others are digits or spaces, and no space stands
      behind a digit. */
  predicate DocumentedByCharacter(text: Bytes)
    requires |text| == 3
  {
    && IsDigit(text[2]) && (IsDigit(text[1]) || text[1] == 32) && (IsDigit(text[0]) || text[0] == 32)
    && !(IsDigit(text[0]) && text[1] == 32)
  }

  /** Which three characters are of the documented form. */
  lemma DocumentedExactly(text: Bytes)
    requires |text| == 3
    ensures Documented(text) <==> DocumentedByCharacter(text)
  {
    hide Padded;
    if DocumentedByCharacter(text) {
      var i := if text[0] != 32 then 0 else if text[1] != 32 then 1 else 2;
      PaddedAt(text, i);
    }
    if Documented(text) {
      var i :| 0 <= i <= |text| && Padded(text, text[..i], text[i..]);
      PaddedAt(text, i);
    }
  }

  /** Of the texts a number is read from, those of the documented form are padded with spaces
      only, and hold no sign and nothing behind the digits. */
  lemma DocumentedWhen(text: Bytes, spaces: Bytes, sign: Bytes, digits: Bytes, tail: Bytes)
    requires Split(text, spaces, sign, digits, tail)
    ensures Documented(text) <==> (forall b <- spaces :: b == 32) && sign == [] && tail == []
  {
    hide Split, Padded, IsDigit;
    if (forall b <- spaces :: b == 32) && sign == [] && tail == [] {
      SplitPadded(text, spaces, digits);
    }
    if Documented(text) {
      var i :| 0 <= i <= |text| && Padded(text, text[..i], text[i..]);
      PaddedSplit(text, text[..i], text[i..]);
      SplitUnique(text, spaces, sign, digits, tail, text[..i], [], text[i..], []);
    }
  }

  lemma SplitPadded(text: Bytes, spaces: Bytes, digits: Bytes)
    requires Split(text, spaces, [], digits, []) && forall b <- spaces :: b == 32
    ensures Documented(text)
  {
    assert text[..|spaces|] == spaces && text[|spaces|..] == digits;
    assert Padded(text, text[..|spaces|], text[|spaces|..]);
  }

  lemma PaddedSplit(text: Bytes, spaces: Bytes, digits: Bytes)
    requires Padded(text, spaces, digits)
    ensures Split(text, spaces, [], digits, []) && forall b <- spaces :: b == 32
  {
    hide IsDigit;
    PaddingIsSpace(spaces);
    assert text == spaces + [] + digits + [];
  }

  lemma SplitUnique(text: Bytes, spaces: Bytes, sign: Bytes, digits: Bytes, tail: Bytes,
                    spaces': Bytes, sign': Bytes, digits': Bytes, tail': Bytes)
    requires Split(text, spaces, sign, digits, tail) && Split(text, spaces', sign', digits', tail')
    ensures spaces == spaces' && sign == sign' && digits == digits' && tail == tail'
  {
    hide SkipSpaces, DigitRun, SignOf, IsDigit, IsSpace, AllSpaces, AllDigits;
    SplitMade(text, spaces, sign, digits, tail);
    SplitMade(text, spaces', sign', digits', tail');
    assert text == spaces + (sign + digits + tail) && text == spaces' + (sign + digits + tail);
    assert spaces == text[..|spaces|] && spaces' == text[..|spaces'|];
    assert tail == text[|text| - |tail|..] && tail' == text[|text| - |tail'|..];
  }

  lemma PaddingIsSpace(spaces: Bytes)
    requires forall b <- spaces :: b == 32
    ensures AllSpaces(spaces)
  {
    forall i | 0 <= i < |spaces|
      ensures IsSpace(spaces[i])
    {
      assert spaces[i] in spaces;
    }
  }

  /** Encoding a decoded ratio gives the same three characters exactly when they are of the
      documented form and have no leading zero. */
  lemma RatioReencodedExactly(bs: Bytes)
    requires GetRatio(bs).Parsed?
    ensures RatioBytes(GetRatio(bs).value) == bs[..3]
            <==> && DocumentedByCharacter(bs[..3])
                 && (bs[0] != 48) && (bs[0] == 32 ==> bs[1] != 48)
  {
    hide UnsignedPrefix, DecimalValue, AllDigits;
    var text, n := bs[..3], GetRatio(bs).value;
    assert text == [bs[0], bs[1], bs[2]];
    if DocumentedByCharacter(text) && bs[0] != 48 && (bs[0] == 32 ==> bs[1] != 48) {
      DigitsSpelled(text);
    }
  }

  lemma DigitsSpelled(text: Bytes)
    requires |text| == 3 && DocumentedByCharacter(text)
    ensures var d, e, f := text[0] as int - 48, text[1] as int - 48, text[2] as int - 48;
            UnsignedPrefix(text)
            == Some((if text[0] == 32 then 0 else d * 100) + (if text[1] == 32 then 0 else e * 10) + f)
  {
    hide UnsignedPrefix, DecimalValue;
    if text[1] == 32 {
      DecimalDigits(text[2], 48, 48);
      assert text == [32, 32] + [] + [text[2]] + [];
      SplitRead(text, [32, 32], [], [text[2]], []);
    } else if text[0] == 32 {
      DecimalDigits(text[1], text[2], 48);
      assert text == [32] + [] + [text[1], text[2]] + [];
      SplitRead(text, [32], [], [text[1], text[2]], []);
    } else {
      DecimalDigits(text[0], text[1], text[2]);
      assert text == [] + [] + [text[0], text[1], text[2]] + [];
      SplitRead(text, [], [], [text[0], text[1], text[2]], []);
    }
  }

  lemma RatioRoundTrip(n: RatioValue, rest: Bytes)
    ensures GetRatio(RatioBytes(n) + rest) == Parsed(n, rest)
  {
    hide UnsignedPrefix;
    var t := RatioBytes(n);
    assert (t + rest)[..3] == t && (t + rest)[3..] == rest;
    DigitsSpelled(t);
  }

  /** A digit is read as a ratio whatever follows it, as long as that is no second digit. */
  lemma RatioLenient(d: Byte, junk: Bytes, rest: Bytes)
    requires IsDigit(d) && |junk| == 2 && !IsDigit(junk[0])
    ensures GetRatio([d] + junk + rest) == Parsed(d as int - 48, rest)
  {
    hide UnsignedPrefix, DecimalValue;
    var t := [d] + junk;
    assert (t + rest)[..3] == t && (t + rest)[3..] == rest;
    assert t == [] + [] + [d] + junk;
    DecimalDigits(d, 48, 48);
    SplitRead(t, [], [], [d], junk);
  }
}

/** WAIT and ABORT messages in TFTP error packets (tftp/ErrorMessage.cpp). */
module ErrorMessages {
  import opened RawData

  const INVALID: UInt16 := 0xFFFF
  const NOT_DEFINED: UInt16 := 0

  const ABORT_CODES: set<UInt16> := {
    0x0001, 0x0002, 0x0003, 0x1000, 0x1002, 0x1003, 0x1004, 0x1005, 0x1007}

  const DIGITS := "0123456789ABCDEF"

  /** Decimal and hexadecimal, the bases the messages use. */
  type Base = b: nat | b == 10 || b == 16 witness 10

  /** The value of a digit; letters of either case count from ten. */
  function DigitValue(c: char): nat {
    if '0' <= c <= '9' then c as nat - '0' as nat
    else if 'a' <= c <= 'z' then 10 + (c as nat - 'a' as nat)
    else if 'A' <= c <= 'Z' then 10 + (c as nat - 'A' as nat)
    else 36
  }

  predicate IsDigit(c: char, base: Base) {
    DigitValue(c) < base
  }

  predicate AllDigits(text: string, base: Base) {
    forall c <- text :: IsDigit(c, base)
  }

  function ValueOf(digits: string, base: Base): nat {
    if digits == "" then 0
    else ValueOf(digits[..|digits| - 1], base) * base + DigitValue(digits[|digits| - 1])
  }

  /** The length of the longest run of digits a text starts with. */
  function DigitRun(text: string, base: Base): (n: nat)
    ensures n <= |text|
    ensures AllDigits(text[..n], base)
    ensures n < |text| ==> !IsDigit(text[n], base)
  {
    if text == "" || !IsDigit(text[0], base) then 0
    else
      var n := DigitRun(text[1..], base) + 1;
      assert text[..n] == [text[0]] + text[1..][..n - 1];
      n
  }

  /** std::from_chars for a 16 bit number: no sign, no space, any number of leading zeros. */
  function FromChars(text: string, base: Base): Option<UInt16> {
    var n := DigitRun(text, base);
    var value := ValueOf(text[..n], base);
    if n == 0 || value > 0xFFFF then None else Some(value)
  }

  /** A run of digits that ends where the text does, or in front of another character. */
  predicate Maximal(digits: string, tail: string, base: Base) {
    digits != "" && AllDigits(digits, base) && (tail == "" || !IsDigit(tail[0], base))
  }

  predicate Denotes(text: string, digits: string, tail: string, base: Base, value: UInt16) {
    text == digits + tail && Maximal(digits, tail, base) && ValueOf(digits, base) == value
  }

  lemma DigitAt(text: string, n: nat, k: nat, base: Base)
    requires k < n <= |text| && AllDigits(text[..n], base)
    ensures IsDigit(text[k], base)
  {
  }

  lemma RunOf(digits: string, tail: string, base: Base)
    requires AllDigits(digits, base) && (tail == "" || !IsDigit(tail[0], base))
    ensures DigitRun(digits + tail, base) == |digits|
  {
    var text := digits + tail;
    var n := DigitRun(text, base);
    assert text[..|digits|] == digits;
    forall k | 0 <= k < n || 0 <= k < |digits|
      ensures IsDigit(text[k], base)
    {
      DigitAt(text, if k < n then n else |digits|, k, base);
    }
  }

  /** Exactly the longest run of digits counts, and it must be there and be small enough. */
  lemma FromCharsExactly(text: string, base: Base, value: UInt16)
    ensures FromChars(text, base) == Some(value)
            <==> exists digits, tail :: Denotes(text, digits, tail, base, value)
  {
    var n := DigitRun(text, base);
    if FromChars(text, base) == Some(value) {
      assert text == text[..n] + text[n..];
      assert Denotes(text, text[..n], text[n..], base, value);
    }
    forall digits, tail | Denotes(text, digits, tail, base, value)
      ensures FromChars(text, base) == Some(value)
    {
      RunOf(digits, tail, base);
      assert text[..n] == digits;
    }
  }

  const WAIT := "WAIT:"
  const ABORT := "ABORT:"

  function WaitTime(text: string): Option<UInt16> {
    if WAIT <= text then FromChars(text[|WAIT|..], 10) else None
  }

  function AbortCode(text: string): UInt16 {
    if !(ABORT <= text) then INVALID
    else
      match FromChars(text[|ABORT|..], 16)
      case None => INVALID
      case Some(code) => if code in ABORT_CODES then code else INVALID
  }

  function Decimal(n: nat): (text: string)
    ensures |text| > 0
  {
    if n < 10 then [DIGITS[n]] else Decimal(n / 10) + [DIGITS[n % 10]]
  }

  function Hexadecimal(n: UInt16): string {
    [DIGITS[n / 16 / 16 / 16], DIGITS[n / 16 / 16 % 16], DIGITS[n / 16 % 16], DIGITS[n % 16]]
  }

  /** Fails for a time that is no 16 bit number. */
  function WaitMessage(seconds: int): Option<string> {
    if 0 <= seconds <= 0xFFFF then Some(WAIT + Decimal(seconds)) else None
  }

  function AbortMessage(code: UInt16): string {
    ABORT + Hexadecimal(code)
  }

  datatype ErrorMessageType = Abort | Wait | Invalid

  function MessageType(error: Option<(UInt16, string)>): ErrorMessageType {
    match error
    case None => Invalid
    case Some((code, text)) =>
      if code != NOT_DEFINED then Invalid
      else if WAIT <= text then if |text| <= |WAIT| then Invalid else Wait
      else if ABORT <= text then if |text| <= |ABORT| then Invalid else Abort
      else Invalid
  }

  /** A text is a wait message of some time exactly when it is the keyword, a longest run of
      decimal digits that denotes the time, and anything. */
  lemma WaitExactly(text: string, seconds: UInt16)
    ensures WaitTime(text) == Some(seconds)
            <==> "WAIT:" <= text && exists digits, tail :: Denotes(text[5..], digits, tail, 10, seconds)
  {
    hide FromChars, Denotes;
    if WAIT <= text {
      FromCharsExactly(text[|WAIT|..], 10, seconds);
    }
  }

  /** A text is an abort message of some code exactly when it is the keyword, a longest run of
      hexadecimal digits that denotes one of the nine codes, and anything; all others give 0xFFFF. */
  lemma AbortExactly(text: string, code: UInt16)
    requires code != 0xFFFF
    ensures AbortCode(text) == code
            <==> && "ABORT:" <= text
                 && code in {0x0001, 0x0002, 0x0003, 0x1000, 0x1002, 0x1003, 0x1004, 0x1005, 0x1007}
                 && exists digits, tail :: Denotes(text[6..], digits, tail, 16, code)
    ensures AbortCode(text) in {0x0001, 0x0002, 0x0003, 0x1000, 0x1002, 0x1003, 0x1004, 0x1005, 0x1007, 0xFFFF}
  {
    hide FromChars, Denotes;
    if ABORT <= text {
      FromCharsExactly(text[|ABORT|..], 16, code);
    }
  }

  /** A message is one of the two exactly when it comes with the error code 0, and there is
      something behind its keyword. */
  lemma MessageExactly(code: UInt16, text: string)
    ensures MessageType(Some((code, text))) == Wait <==> code == 0 && "WAIT:" < text
    ensures MessageType(Some((code, text))) == Abort <==> code == 0 && "ABORT:" < text
    ensures MessageType(None) == Invalid
  {
    assert "WAIT:"[0] != "ABORT:"[0];
  }

  /** The decimal digits, and the hexadecimal ones in either case. */
  lemma DigitExactly(c: char)
    ensures IsDigit(c, 10) <==> '0' <= c <= '9'
    ensures IsDigit(c, 16) <==> '0' <= c <= '9' || 'A' <= c <= 'F' || 'a' <= c <= 'f'
    ensures '0' <= c <= '9' ==> DigitValue(c) == c as int - 48
    ensures 'A' <= c <= 'F' ==> DigitValue(c) == c as int - 55
    ensures 'a' <= c <= 'f' ==> DigitValue(c) == c as int - 87
  {
  }

  /** Codes are printed with four digits in upper case, times without leading zeros. */
  lemma MessagesPrinted(code: UInt16, seconds: UInt16)
    ensures var text := AbortMessage(code);
            && |text| == 10 && text[..6] == "ABORT:" && ValueOf(text[6..], 16) == code
            && forall c <- text[6..] :: c in "0123456789ABCDEF"
    ensures WaitMessage(seconds).Some?
    ensures var text := WaitMessage(seconds).value;
            && |text| > 5 && text[..5] == "WAIT:" && ValueOf(text[5..], 10) == seconds
            && (forall c <- text[5..] :: c in "0123456789") && (|text| > 6 ==> text[5] != '0')
  {
    hide ValueOf, DigitValue;
    HexadecimalRead(code);
    HexadecimalPrinted(code);
    DecimalRead(seconds);
    DecimalPrinted(seconds);
    assert AbortMessage(code)[6..] == Hexadecimal(code);
    assert WaitMessage(seconds).value[5..] == Decimal(seconds);
  }

  lemma HexadecimalPrinted(n: UInt16)
    ensures |Hexadecimal(n)| == 4 && forall c <- Hexadecimal(n) :: c in "0123456789ABCDEF"
  {
  }

  lemma {:induction false} DecimalPrinted(n: nat)
    ensures var text := Decimal(n);
            (forall c <- text :: c in "0123456789") && (n > 0 ==> text[0] != '0') && (n == 0 ==> |text| == 1)
    decreases n
  {
    assert forall d :: 0 <= d < 10 ==> DIGITS[d] == "0123456789"[d];
    if n >= 10 {
      DecimalPrinted(n / 10);
    }
  }

  lemma DigitsAreDigits(n: nat, base: Base)
    requires n < base
    ensures DigitValue(DIGITS[n]) == n && IsDigit(DIGITS[n], base)
  {
  }

  lemma {:induction false} DecimalRead(n: nat)
    ensures AllDigits(Decimal(n), 10) && ValueOf(Decimal(n), 10) == n
    decreases n
  {
    var text := Decimal(n);
    DigitsAreDigits(n % 10, 10);
    if n >= 10 {
      DecimalRead(n / 10);
      assert text[..|text| - 1] == Decimal(n / 10);
    } else {
      assert text[..0] == "";
    }
  }

  lemma ValueAppended(digits: string, c: char, base: Base)
    ensures ValueOf(digits + [c], base) == ValueOf(digits, base) * base + DigitValue(c)
  {
  }

  lemma HexadecimalRead(n: UInt16)
    ensures AllDigits(Hexadecimal(n), 16) && ValueOf(Hexadecimal(n), 16) == n
  {
    hide ValueOf;
    FourDigits(n / 16 / 16 / 16, n / 16 / 16 % 16, n / 16 % 16, n % 16);
  }

  lemma FourDigits(a: nat, b: nat, c: nat, d: nat)
    requires a < 16 && b < 16 && c < 16 && d < 16
    ensures var digits := [DIGITS[a], DIGITS[b], DIGITS[c], DIGITS[d]];
            AllDigits(digits, 16) && ValueOf(digits, 16) == a * 0x1000 + b * 0x100 + c * 0x10 + d
  {
    hide ValueOf, DigitValue, IsDigit;
    DigitsAreDigits(a, 16);
    DigitsAreDigits(b, 16);
    DigitsAreDigits(c, 16);
    DigitsAreDigits(d, 16);
    NoDigits();
    var one := [] + [DIGITS[a]];
    ValueAppended([], DIGITS[a], 16);
    ValueAppended(one, DIGITS[b], 16);
    ValueAppended(one + [DIGITS[b]], DIGITS[c], 16);
    ValueAppended(one + [DIGITS[b]] + [DIGITS[c]], DIGITS[d], 16);
    assert [DIGITS[a], DIGITS[b], DIGITS[c], DIGITS[d]] == one + [DIGITS[b]] + [DIGITS[c]] + [DIGITS[d]];
  }

  lemma NoDigits()
    ensures ValueOf("", 16) == 0
  {
  }

  lemma ReadPrinted(digits: string, base: Base, n: UInt16)
    requires digits != "" && AllDigits(digits, base) && ValueOf(digits, base) == n
    ensures FromChars(digits, base) == Some(n)
  {
    RunOf(digits, "", base);
    assert digits + "" == digits && digits[..|digits|] == digits;
  }

  /** Every wait time that can be printed is read back, and the message is recognized. */
  lemma WaitRoundTrip(seconds: int)
    ensures WaitMessage(seconds).Some? <==> 0 <= seconds <= 0xFFFF
    ensures WaitMessage(seconds).Some? ==>
              && WaitTime(WaitMessage(seconds).value) == Some(seconds)
              && MessageType(Some((NOT_DEFINED, WaitMessage(seconds).value))) == Wait
  {
    hide FromChars, ValueOf, AllDigits;
    if 0 <= seconds <= 0xFFFF {
      DecimalRead(seconds);
      ReadPrinted(Decimal(seconds), 10, seconds);
      assert (WAIT + Decimal(seconds))[|WAIT|..] == Decimal(seconds);
    }
  }

  /** A printed abort code is read back exactly when it is one of the nine, or the marker for
      an unreadable one; all others turn into that marker. */
  lemma AbortRoundTrip(code: UInt16)
    ensures AbortCode(AbortMessage(code)) == if code in ABORT_CODES then code else INVALID
    ensures MessageType(Some((NOT_DEFINED, AbortMessage(code)))) == Abort
  {
    hide FromChars, ValueOf, AllDigits;
    HexadecimalRead(code);
    ReadPrinted(Hexadecimal(code), 16, code);
    assert AbortMessage(code)[|ABORT|..] == Hexadecimal(code);
    assert AbortMessage(code)[0] != WAIT[0];
  }

  /** What can be read as a wait time or an abort code is recognized as such, and as nothing else. */
  lemma ReadableRecognized(text: string)
    ensures WaitTime(text).Some? ==> MessageType(Some((NOT_DEFINED, text))) == Wait && AbortCode(text) == INVALID
    ensures AbortCode(text) != INVALID ==> MessageType(Some((NOT_DEFINED, text))) == Abort && WaitTime(text).None?
  {
    hide ValueOf, AllDigits;
    if WAIT <= text {
      assert text[0] == WAIT[0] && !(ABORT <= text);
    }
  }

  lemma OneDigit()
    ensures FromChars("1", 16) == Some(1)
  {
  }

  /** Abort messages need not have four digits: a single one is enough. */
  lemma FewerDigitsAccepted()
    ensures AbortCode("ABORT:1") == 0x0001
  {
    hide FromChars;
    OneDigit();
    assert "ABORT:1"[|ABORT|..] == "1";
  }
}

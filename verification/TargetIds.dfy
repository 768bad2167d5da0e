/** Identification of a target as hardware identifier and position (TargetId.cpp). */
module TargetIds {
  const THW_ID_SIZE_MIN := 4
  const THW_ID_SIZE_MAX := 15
  const POSITION_SIZE_MIN := 0
  const POSITION_SIZE_MAX := 8

  datatype TargetId = TargetId(thwId: string, position: string) {
    function ToString(): string { thwId + "_" + position }

    predicate Valid() { IsThwId(thwId) && IsPosition(position) }
  }

  /** Position of the first occurrence of a character, or the length of the text. */
  function Find(text: string, c: char): (i: nat)
    ensures i <= |text| && c !in text[..i]
    ensures i < |text| ==> text[i] == c
  {
    if text == "" || text[0] == c then 0
    else
      var i := Find(text[1..], c) + 1;
      assert text[..i] == [text[0]] + text[1..][..i - 1];
      i
  }

  /** The parts in front of and behind the first separator; two empty ones without it. */
  function Split(text: string, separator: char): (string, string) {
    var i := Find(text, separator);
    if i == |text| then ("", "") else (text[..i], text[i + 1..])
  }

  lemma NotBefore(text: string, c: char, i: nat, k: nat)
    requires k < i <= |text| && c !in text[..i]
    ensures text[k] != c
  {
  }

  lemma FindUnique(text: string, c: char, i: nat)
    requires i <= |text| && c !in text[..i] && (i < |text| ==> text[i] == c)
    ensures Find(text, c) == i
  {
  }

  /** Splitting finds the separator two texts were joined with exactly when the first text
      does not hold one itself. */
  lemma SplitJoined(front: string, separator: char, back: string)
    ensures Split(front + [separator] + back, separator) == (front, back) <==> separator !in front
  {
    var text := front + [separator] + back;
    if separator !in front {
      assert text[..|front|] == front && text[|front| + 1..] == back;
      FindUnique(text, separator, |front|);
    } else {
      var k :| 0 <= k < |front| && front[k] == separator;
      var i := Find(text, separator);
      forall j | 0 <= j < i
        ensures text[j] != separator
      {
        NotBefore(text, separator, i, j);
      }
      assert text[k] == separator;
      assert |Split(text, separator).0| == i < |front|;
    }
  }

  /** Joining the parts restores the text exactly when there was a separator. */
  lemma JoinedSplit(text: string, separator: char)
    ensures var (front, back) := Split(text, separator);
            front + [separator] + back == text <==> separator in text
  {
  }

  predicate IsAlphanumeric(c: char) {
    '0' <= c <= '9' || 'A' <= c <= 'Z' || 'a' <= c <= 'z'
  }

  predicate IsCompliant(text: string, minLength: nat, maxLength: nat) {
    minLength <= |text| <= maxLength && forall c <- text :: IsAlphanumeric(c)
  }

  predicate IsThwId(thwId: string) {
    IsCompliant(thwId, THW_ID_SIZE_MIN, THW_ID_SIZE_MAX)
  }

  predicate IsPosition(position: string) {
    IsCompliant(position, POSITION_SIZE_MIN, POSITION_SIZE_MAX)
  }

  predicate IsTargetId(text: string) {
    var (thwId, position) := Split(text, '_');
    IsThwId(thwId) && IsPosition(position)
  }

  function FromString(text: string): TargetId {
    var (thwId, position) := Split(text, '_');
    TargetId(thwId, position)
  }

  /** The text of a target identifier passes the check exactly when the identifier is valid,
      also when its parts hold separators of their own. */
  lemma TextValidExactly(t: TargetId)
    ensures IsTargetId(t.ToString()) <==> t.Valid()
  {
    hide Find;
    var text := t.ToString();
    SplitJoined(t.thwId, '_', t.position);
    if '_' in t.thwId {
      var k :| 0 <= k < |t.thwId| && t.thwId[k] == '_';
      var i := Find(text, '_');
      forall j | 0 <= j < i
        ensures text[j] != '_'
      {
        NotBefore(text, '_', i, j);
      }
      assert text[k] == '_';
      assert text[i + 1..][|t.thwId| - i - 1] == '_';
      assert !IsAlphanumeric('_') && '_' in Split(text, '_').1;
    }
  }

  /** Reading the text of an identifier gives the identifier back exactly when its hardware
      part holds no separator. */
  lemma ReadPrinted(t: TargetId)
    ensures FromString(t.ToString()) == t <==> '_' !in t.thwId
    ensures t.Valid() ==> FromString(t.ToString()) == t
  {
    hide Find;
    SplitJoined(t.thwId, '_', t.position);
    assert !IsAlphanumeric('_');
  }

  /** Printing what was read from a text gives the text back exactly when it holds a
      separator, as every text that passes the check does. */
  lemma PrintedRead(text: string)
    ensures FromString(text).ToString() == text <==> '_' in text
    ensures IsTargetId(text) ==> '_' in text
    ensures IsTargetId(text) <==> FromString(text).Valid()
  {
  }

  predicate Alphanumeric(text: string) {
    forall c <- text :: '0' <= c <= '9' || 'A' <= c <= 'Z' || 'a' <= c <= 'z'
  }

  /** A hardware identifier of 4 to 15 letters and digits, an underscore, and a position of up
      to 8. */
  predicate Spelled(text: string, thwId: string, position: string) {
    && text == thwId + "_" + position
    && 4 <= |thwId| <= 15 && |position| <= 8 && Alphanumeric(thwId) && Alphanumeric(position)
  }

  /** Exactly the texts spelled that way pass the check, and they are read as they are spelled. */
  lemma TargetIdExactly(text: string)
    ensures IsTargetId(text) <==> exists thwId, position :: Spelled(text, thwId, position)
    ensures forall thwId, position :: Spelled(text, thwId, position) ==> FromString(text) == TargetId(thwId, position)
  {
    hide Find;
    forall thwId, position | Spelled(text, thwId, position)
      ensures IsTargetId(text) && FromString(text) == TargetId(thwId, position)
    {
      assert !IsAlphanumeric('_');
      SplitJoined(thwId, '_', position);
    }
    if IsTargetId(text) {
      var t := FromString(text);
      PrintedRead(text);
      assert Spelled(text, t.thwId, t.position);
    }
  }
}

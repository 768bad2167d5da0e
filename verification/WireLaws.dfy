/** The laws every format obeys, by induction on the format and its lists. */
module WireLaws {
  import opened RawData
  import opened TextField
  import opened RatioField
  import opened WireFormat

  /** The data a successful read has used up. */
  function Used(bs: Bytes, rest: Bytes): Bytes
    requires |rest| <= |bs|
  {
    bs[..|bs| - |rest|]
  }

  /** Reading back an encoding succeeds exactly when its codes are known ones; it
      yields the value with its strings cut and leaves exactly the data behind it. */
  lemma {:induction false} ReadEncoded(f: Format, v: Value, rest: Bytes)
    requires Typed(f, v) && Fits(f, v)
    ensures Read(f, Encoded(f, v) + rest)
         == if Accepted(f, v) then Parsed(Canon(f, v), rest) else Failed
    decreases f, 0
  {
    match f
    case U16 => U16RoundTrip(v.n, rest);
    case I16 => I16RoundTrip(v.n, rest);
    case Code(_) => U16RoundTrip(v.n, rest);
    case Text => TextRoundTrip(v.s, 0, rest);
    case Ratio => RatioRoundTrip(v.n, rest);
    case Blob =>
      var raw := [|v.s|] + v.s + rest;
      assert raw[1..1 + |v.s|] == v.s && raw[1 + |v.s|..] == rest;
    case Both(g, h) =>
      assert Encoded(f, v) + rest == Encoded(g, v.a) + (Encoded(h, v.b) + rest);
      ReadEncoded(g, v.a, Encoded(h, v.b) + rest);
      ReadEncoded(h, v.b, rest);
    case Counted(g) =>
      assert Encoded(f, v) + rest == PutU16(|v.items|) + (EncodedItems(g, v.items) + rest);
      U16RoundTrip(|v.items|, EncodedItems(g, v.items) + rest);
      ReadEncodedItems(g, v.items, rest);
  }

  lemma {:induction false} ReadEncodedItems(f: Format, vs: seq<Value>, rest: Bytes)
    requires AllTyped(f, vs) && AllFit(f, vs)
    ensures var b := ReadItems(f, |vs|, EncodedItems(f, vs) + rest);
            && (b.ok <==> AllAccepted(f, vs))
            && (b.ok ==> b.items == CanonItems(f, vs) && b.rest == rest)
    decreases f, |vs| + 1
  {
    hide Read, Encoded, Canon, Accepted, Fits, Typed;
    if vs == [] {
      assert EncodedItems(f, vs) + rest == rest;
    } else {
      var tail := EncodedItems(f, vs[1..]) + rest;
      assert EncodedItems(f, vs) + rest == Encoded(f, vs[0]) + tail;
      ReadEncoded(f, vs[0], tail);
      ReadEncodedItems(f, vs[1..], rest);
      assert vs == [vs[0]] + vs[1..];
    }
  }

  lemma {:induction false} CodeFreeAccepted(f: Format, v: Value)
    requires CodeFree(f) && Typed(f, v)
    ensures Accepted(f, v)
    decreases f
  {
    match f
    case Both(g, h) =>
      CodeFreeAccepted(g, v.a);
      CodeFreeAccepted(h, v.b);
    case Counted(g) =>
      forall x | x in v.items ensures Accepted(g, x) {
        CodeFreeAccepted(g, x);
      }
    case _ =>
  }

  /** Two reads after each other use up the two prefixes. */
  lemma UsedInTurn(bs: Bytes, mid: Bytes, rest: Bytes, other: Bytes)
    requires |rest| <= |mid| <= |bs|
    requires bs == Used(bs, mid) + mid && mid == Used(mid, rest) + rest
    ensures bs == Used(bs, rest) + rest
    ensures Used(bs, rest) == Used(bs, mid) + Used(mid, rest)
    ensures Used(bs, rest) + other == Used(bs, mid) + (Used(mid, rest) + other)
  {
  }

  lemma FieldUsed(bs: Bytes, n: nat, other: Bytes)
    requires n <= |bs|
    ensures Used(bs, bs[n..]) == bs[..n] && bs == bs[..n] + bs[n..]
    ensures (bs[..n] + other)[..n] == bs[..n] && (bs[..n] + other)[n..] == other
  {
  }

  predicate IsField(f: Format) {
    !f.Both? && !f.Counted?
  }

  /** A successful read of bs used up a prefix and is repeated with any other data behind it. */
  predicate Delimited(f: Format, bs: Bytes, other: Bytes)
    requires Read(f, bs).Parsed?
  {
    var rest := Read(f, bs).rest;
    && |rest| + MinSize(f) <= |bs| && bs == Used(bs, rest) + rest
    && Read(f, Used(bs, rest) + other) == Parsed(Read(f, bs).value, other)
  }

  lemma IntegerDelimited(f: Format, bs: Bytes, other: Bytes)
    requires (f.U16? || f.I16? || f.Code?) && Read(f, bs).Parsed?
    ensures Delimited(f, bs, other)
  {
    FieldUsed(bs, 2, other);
    assert (bs[..2] + other)[0] == bs[0] && (bs[..2] + other)[1] == bs[1];
  }

  lemma RatioDelimited(bs: Bytes, other: Bytes)
    requires Read(Ratio, bs).Parsed?
    ensures Delimited(Ratio, bs, other)
  {
  }

  lemma BlobDelimited(bs: Bytes, other: Bytes)
    requires Read(Blob, bs).Parsed?
    ensures Delimited(Blob, bs, other)
  {
  }

  lemma StringDelimited(bs: Bytes, other: Bytes)
    requires Read(Text, bs).Parsed?
    ensures Delimited(Text, bs, other)
  {
  }

  lemma BothDelimited(g: Format, h: Format, bs: Bytes, other: Bytes)
    requires Read(Both(g, h), bs).Parsed?
    requires Delimited(h, Read(g, bs).rest, other)
    requires Delimited(g, bs, Used(Read(g, bs).rest, Read(Both(g, h), bs).rest) + other)
    ensures Delimited(Both(g, h), bs, other)
  {
    var mid, rest := Read(g, bs).rest, Read(Both(g, h), bs).rest;
    UsedInTurn(bs, mid, rest, other);
  }

  /** A read uses up a prefix of the data and does not look at the rest. */
  lemma {:induction false} ReadDelimited(f: Format, bs: Bytes, other: Bytes)
    requires Read(f, bs).Parsed?
    ensures Delimited(f, bs, other)
    decreases f, 0
  {
    match f
    case Text => StringDelimited(bs, other);
    case Ratio => RatioDelimited(bs, other);
    case Blob => BlobDelimited(bs, other);
    case Both(g, h) =>
      var mid, rest := Read(g, bs).rest, Read(f, bs).rest;
      ReadDelimited(h, mid, other);
      ReadDelimited(g, bs, Used(mid, rest) + other);
      BothDelimited(g, h, bs, other);
    case Counted(g) =>
      var rest := Read(f, bs).rest;
      ReadItemsDelimited(g, GetU16(bs).value, bs[2..], other);
      CountedDelimited(g, bs, other);
    case _ => IntegerDelimited(f, bs, other);
  }

  lemma CountedDelimited(g: Format, bs: Bytes, other: Bytes)
    requires Read(Counted(g), bs).Parsed?
    requires ItemsDelimited(g, GetU16(bs).value, bs[2..], other)
    ensures Delimited(Counted(g), bs, other)
  {
    var rest := Read(Counted(g), bs).rest;
    FieldUsed(bs, 2, Used(bs[2..], rest) + other);
    UsedInTurn(bs, bs[2..], rest, other);
    U16Reprinted(bs);
    U16RoundTrip(GetU16(bs).value, Used(bs[2..], rest) + other);
  }

  predicate ItemsDelimited(f: Format, count: nat, bs: Bytes, other: Bytes) {
    var b := ReadItems(f, count, bs);
    && b.ok && |b.rest| <= |bs| && bs == Used(bs, b.rest) + b.rest
    && ReadItems(f, count, Used(bs, b.rest) + other) == Batch(b.items, other, true)
  }

  lemma NextItemRead(f: Format, count: nat, bs: Bytes, v: Value, mid: Bytes)
    requires count > 0 && Read(f, bs) == Parsed(v, mid)
    ensures ReadItems(f, count, bs) == ReadItems(f, count - 1, mid).After([v])
  {
  }

  lemma NextItemDelimited(f: Format, count: nat, bs: Bytes, other: Bytes)
    requires count > 0 && ReadItems(f, count, bs).ok
    requires ItemsDelimited(f, count - 1, Read(f, bs).rest, other)
    requires Delimited(f, bs, Used(Read(f, bs).rest, ReadItems(f, count, bs).rest) + other)
    ensures ItemsDelimited(f, count, bs, other)
  {
    hide Read;
    var v, mid, rest := Read(f, bs).value, Read(f, bs).rest, ReadItems(f, count, bs).rest;
    UsedInTurn(bs, mid, rest, other);
    NextItemRead(f, count, Used(bs, mid) + (Used(mid, rest) + other), v, Used(mid, rest) + other);
  }

  lemma {:induction false} ReadItemsDelimited(f: Format, count: nat, bs: Bytes, other: Bytes)
    requires ReadItems(f, count, bs).ok
    ensures ItemsDelimited(f, count, bs, other)
    decreases f, count + 1
  {
    if count == 0 {
      assert Used(bs, bs) + other == other;
    } else {
      var mid, rest := Read(f, bs).rest, ReadItems(f, count, bs).rest;
      ReadItemsDelimited(f, count - 1, mid, other);
      ReadDelimited(f, bs, Used(mid, rest) + other);
      NextItemDelimited(f, count, bs, other);
    }
  }

  /** Whatever is read is well-typed, carries known codes only and is its own canonical form. */
  lemma {:induction false} ReadCanonical(f: Format, bs: Bytes)
    requires Read(f, bs).Parsed?
    ensures var v := Read(f, bs).value; Typed(f, v) && Accepted(f, v) && Canon(f, v) == v
    decreases f, 0
  {
    match f
    case Text =>
      TextDelimited(bs, []);
      CutNulFree(GetText(bs).value);
    case Both(g, h) =>
      ReadCanonical(g, bs);
      ReadCanonical(h, Read(g, bs).rest);
    case Counted(g) =>
      ReadItemsCanonical(g, GetU16(bs).value, bs[2..]);
    case _ =>
  }

  lemma {:induction false} ReadItemsCanonical(f: Format, count: nat, bs: Bytes)
    requires ReadItems(f, count, bs).ok
    ensures var vs := ReadItems(f, count, bs).items;
            && AllTyped(f, vs) && AllAccepted(f, vs)
            && CanonItems(f, vs) == vs
    decreases f, count + 1
  {
    if count != 0 {
      ReadCanonical(f, bs);
      ReadItemsCanonical(f, count - 1, Read(f, bs).rest);
      var vs, tail := ReadItems(f, count, bs).items, ReadItems(f, count - 1, Read(f, bs).rest).items;
      assert vs[1..] == tail;
    }
  }

  /** The re-encoding raw of what stood before rest is no longer than it was, and,
      if exact, as long only when it is the same. */
  predicate NoLonger(raw: Bytes, bs: Bytes, rest: Bytes, exact: bool) {
    && |raw| + |rest| <= |bs|
    && (exact && |raw| + |rest| == |bs| ==> raw + rest == bs)
  }

  lemma NoLongerInTurn(raw: Bytes, raw': Bytes, bs: Bytes, mid: Bytes, rest: Bytes, exact: bool, exact': bool)
    requires NoLonger(raw, bs, mid, exact) && NoLonger(raw', mid, rest, exact')
    ensures NoLonger(raw + raw', bs, rest, exact && exact')
  {
  }

  lemma ReencodingFieldNeverGrows(f: Format, bs: Bytes)
    requires IsField(f) && Read(f, bs).Parsed?
    requires Typed(f, Read(f, bs).value) && Fits(f, Read(f, bs).value)
    ensures NoLonger(Encoded(f, Read(f, bs).value), bs, Read(f, bs).rest, RatioFree(f))
  {
    match f
    case I16 => I16Reprinted(bs);
    case Text =>
      TextDelimited(bs, []);
      TextNeverGrows(bs);
    case Ratio =>
    case Blob =>
      var n: int := bs[0];
      assert bs == [bs[0]] + bs[1..1 + n] + bs[1 + n..];
    case _ => U16Reprinted(bs);
  }

  /** Re-encoding what was read never needs more room than it was read from, and,
      where there is no ratio, needs the same room only to give the same bytes. */
  lemma {:induction false} ReencodingNeverGrows(f: Format, bs: Bytes)
    requires Read(f, bs).Parsed?
    requires Typed(f, Read(f, bs).value) && Fits(f, Read(f, bs).value)
    ensures NoLonger(Encoded(f, Read(f, bs).value), bs, Read(f, bs).rest, RatioFree(f))
    decreases f, 0
  {
    if IsField(f) {
      ReencodingFieldNeverGrows(f, bs);
    } else if f.Both? {
      var v, mid, rest := Read(f, bs).value, Read(f.first, bs).rest, Read(f, bs).rest;
      ReencodingNeverGrows(f.first, bs);
      ReencodingNeverGrows(f.second, mid);
      NoLongerInTurn(Encoded(f.first, v.a), Encoded(f.second, v.b), bs, mid, rest,
                     RatioFree(f.first), RatioFree(f.second));
    } else {
      var v, rest, n := Read(f, bs).value, Read(f, bs).rest, GetU16(bs).value;
      U16Reprinted(bs);
      ReencodingItemsNeverGrows(f.item, n, bs[2..]);
      NoLongerInTurn(PutU16(n), EncodedItems(f.item, v.items), bs, bs[2..], rest, true, RatioFree(f.item));
    }
  }

  lemma {:induction false} ReencodingItemsNeverGrows(f: Format, count: nat, bs: Bytes)
    requires ReadItems(f, count, bs).ok
    requires AllTyped(f, ReadItems(f, count, bs).items) && AllFit(f, ReadItems(f, count, bs).items)
    ensures NoLonger(EncodedItems(f, ReadItems(f, count, bs).items), bs, ReadItems(f, count, bs).rest, RatioFree(f))
    decreases f, count + 1
  {
    hide Read, Encoded, Fits, Typed;
    if count != 0 {
      var vs, rest, mid := ReadItems(f, count, bs).items, ReadItems(f, count, bs).rest, Read(f, bs).rest;
      assert vs[0] == Read(f, bs).value && vs[1..] == ReadItems(f, count - 1, mid).items;
      ReencodingNeverGrows(f, bs);
      ReencodingItemsNeverGrows(f, count - 1, mid);
      NoLongerInTurn(Encoded(f, vs[0]), EncodedItems(f, vs[1..]), bs, mid, rest, RatioFree(f), RatioFree(f));
    }
  }

  lemma {:induction false} EncodedSize(f: Format, v: Value)
    requires Typed(f, v) && Fits(f, v)
    ensures MinSize(f) <= |Encoded(f, v)| <= MaxSize(f)
    decreases f, 0
  {
    if f.Both? {
      EncodedSize(f.first, v.a);
      EncodedSize(f.second, v.b);
    } else if f.Counted? {
      EncodedItemsSize(f.item, v.items);
      TimesMonotone(|v.items|, MAX_COUNT, MaxSize(f.item));
    }
  }

  lemma TimesMonotone(m: nat, n: nat, size: nat)
    requires m <= n
    ensures m * size <= n * size
  {
  }

  lemma {:induction false} EncodedItemsSize(f: Format, vs: seq<Value>)
    requires AllTyped(f, vs) && AllFit(f, vs)
    ensures |EncodedItems(f, vs)| <= |vs| * MaxSize(f)
    decreases f, |vs| + 1
  {
    if vs != [] {
      EncodedSize(f, vs[0]);
      EncodedItemsSize(f, vs[1..]);
      assert |vs| * MaxSize(f) == MaxSize(f) + (|vs| - 1) * MaxSize(f);
    }
  }

  /** The encoder's loops append one entry at a time. */
  lemma {:induction false} EncodedItemsAppend(f: Format, vs: seq<Value>, v: Value)
    requires AllTyped(f, vs) && AllFit(f, vs) && Typed(f, v) && Fits(f, v)
    ensures AllTyped(f, vs + [v]) && AllFit(f, vs + [v])
    ensures EncodedItems(f, vs + [v]) == EncodedItems(f, vs) + Encoded(f, v)
    decreases |vs|
  {
    hide Encoded, Typed, Fits;
    if vs == [] {
      assert [v][1..] == [] && vs + [v] == [v];
    } else {
      assert (vs + [v])[1..] == vs[1..] + [v];
      EncodedItemsAppend(f, vs[1..], v);
    }
  }
}

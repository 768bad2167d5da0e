/** The grammar of protocol file bodies.

    Every body is built from a handful of fields, fields one after the other,
    and lists preceded by a 16-bit count. A Format names such a layout, a Value
    is what it carries; Encoded and Read give the encoder's and the decoder's
    view of it. The file classes are proved against these two functions, and
    the laws between the two are proved for every format in WireLaws. */
module WireFormat {
  import opened RawData
  import opened TextField
  import opened RatioField

  const MAX_COUNT := 65535
  const MAX_BLOB := 255

  datatype Format =
    | U16
    | I16
    | Code(codes: set<UInt16>)
    | Text
    | Ratio
    | Blob
    | Both(first: Format, second: Format)
    | Counted(item: Format)

  datatype Value =
    | Number(n: int)
    | Chars(s: Bytes)
    | Pair(a: Value, b: Value)
    | List(items: seq<Value>)

  /** What the types of the program guarantee of a value. */
  predicate Typed(f: Format, v: Value)
    decreases f, 0
  {
    match f
    case U16 => v.Number? && 0 <= v.n < TWO_TO_THE_16
    case I16 => v.Number? && -0x8000 <= v.n < 0x8000
    case Code(_) => v.Number? && 0 <= v.n < TWO_TO_THE_16
    case Text => v.Chars?
    case Ratio => v.Number? && 0 <= v.n <= MAX_RATIO
    case Blob => v.Chars?
    case Both(g, h) => v.Pair? && Typed(g, v.a) && Typed(h, v.b)
    case Counted(g) => v.List? && AllTyped(g, v.items)
  }

  predicate AllTyped(f: Format, vs: seq<Value>)
    decreases f, 1
  {
    forall v <- vs :: Typed(f, v)
  }

  /** What the encoder checks. */
  predicate Fits(f: Format, v: Value)
    requires Typed(f, v)
    decreases f, 0
  {
    match f
    case Text => |v.s| <= MAX_TEXT
    case Blob => |v.s| <= MAX_BLOB
    case Both(g, h) => Fits(g, v.a) && Fits(h, v.b)
    case Counted(g) => |v.items| <= MAX_COUNT && AllFit(g, v.items)
    case _ => true
  }

  predicate AllFit(f: Format, vs: seq<Value>)
    requires AllTyped(f, vs)
    decreases f, 1
  {
    forall v <- vs :: Fits(f, v)
  }

  /** What the decoder checks of an encoded value: only known codes are read back. */
  predicate Accepted(f: Format, v: Value)
    requires Typed(f, v)
    decreases f, 0
  {
    match f
    case Code(codes) => v.n in codes
    case Both(g, h) => Accepted(g, v.a) && Accepted(h, v.b)
    case Counted(g) => AllAccepted(g, v.items)
    case _ => true
  }

  predicate AllAccepted(f: Format, vs: seq<Value>)
    requires AllTyped(f, vs)
    decreases f, 1
  {
    forall v <- vs :: Accepted(f, v)
  }

  /** The value with every string cut at its first NUL character. */
  function Canon(f: Format, v: Value): (r: Value)
    requires Typed(f, v)
    ensures Typed(f, r)
    decreases f, 0
  {
    match f
    case Text => Chars(Cut(v.s))
    case Both(g, h) => Pair(Canon(g, v.a), Canon(h, v.b))
    case Counted(g) => List(CanonItems(g, v.items))
    case _ => v
  }

  function CanonItems(f: Format, vs: seq<Value>): (r: seq<Value>)
    requires AllTyped(f, vs)
    ensures |r| == |vs| && AllTyped(f, r)
    decreases f, |vs| + 1
  {
    if vs == [] then [] else [Canon(f, vs[0])] + CanonItems(f, vs[1..])
  }

  /** The canonical encoding. */
  function Encoded(f: Format, v: Value): Bytes
    requires Typed(f, v) && Fits(f, v)
    decreases f, 0
  {
    match f
    case U16 => PutU16(v.n)
    case I16 => PutI16(v.n)
    case Code(_) => PutU16(v.n)
    case Text => TextBytes(v.s)
    case Ratio => RatioBytes(v.n)
    case Blob => [|v.s|] + v.s
    case Both(g, h) => Encoded(g, v.a) + Encoded(h, v.b)
    case Counted(g) => PutU16(|v.items|) + EncodedItems(g, v.items)
  }

  function EncodedItems(f: Format, vs: seq<Value>): Bytes
    requires AllTyped(f, vs) && AllFit(f, vs)
    decreases f, |vs| + 1
  {
    if vs == [] then [] else Encoded(f, vs[0]) + EncodedItems(f, vs[1..])
  }

  /** The entries of a counted list read before the first one that fails. */
  datatype Batch = Batch(items: seq<Value>, rest: Bytes, ok: bool) {
    function After(read: seq<Value>): Batch { this.(items := read + items) }
  }

  /** Reads one value from the front of the data. */
  function Read(f: Format, bs: Bytes): Parsed<Value>
    decreases f, 0
  {
    match f
    case U16 => (match GetU16(bs) case Failed => Failed case Parsed(n, r) => Parsed(Number(n), r))
    case I16 => (match GetI16(bs) case Failed => Failed case Parsed(n, r) => Parsed(Number(n), r))
    case Code(codes) =>
      (match GetU16(bs)
       case Failed => Failed
       case Parsed(n, r) => if n in codes then Parsed(Number(n), r) else Failed)
    case Text => (match GetText(bs) case Failed => Failed case Parsed(s, r) => Parsed(Chars(s), r))
    case Ratio => (match GetRatio(bs) case Failed => Failed case Parsed(n, r) => Parsed(Number(n), r))
    case Blob =>
      if bs == [] || |bs| - 1 < bs[0] then Failed
      else var n: int := bs[0]; Parsed(Chars(bs[1..1 + n]), bs[1 + n..])
    case Both(g, h) =>
      (match Read(g, bs)
       case Failed => Failed
       case Parsed(a, r) =>
         match Read(h, r)
         case Failed => Failed
         case Parsed(b, r') => Parsed(Pair(a, b), r'))
    case Counted(g) =>
      (match GetU16(bs)
       case Failed => Failed
       case Parsed(n, r) =>
         var batch := ReadItems(g, n, r);
         if batch.ok then Parsed(List(batch.items), batch.rest) else Failed)
  }

  function ReadItems(f: Format, count: nat, bs: Bytes): (r: Batch)
    ensures r.ok ==> |r.items| == count
    decreases f, count + 1
  {
    if count == 0 then Batch([], bs, true)
    else
      match Read(f, bs)
      case Failed => Batch([], bs, false)
      case Parsed(v, r) => ReadItems(f, count - 1, r).After([v])
  }

  /** Formats in which a value has only one encoding of the canonical size. */
  predicate RatioFree(f: Format) {
    match f
    case Ratio => false
    case Both(g, h) => RatioFree(g) && RatioFree(h)
    case Counted(g) => RatioFree(g)
    case _ => true
  }

  /** Formats without status codes: the decoder accepts every value of theirs. */
  predicate CodeFree(f: Format) {
    match f
    case Code(_) => false
    case Both(g, h) => CodeFree(g) && CodeFree(h)
    case Counted(g) => CodeFree(g)
    case _ => true
  }

  /** The sizes an encoding can have. */
  function MinSize(f: Format): nat {
    match f
    case Text => 1
    case Ratio => 3
    case Blob => 1
    case Both(g, h) => MinSize(g) + MinSize(h)
    case _ => 2
  }

  function MaxSize(f: Format): nat {
    match f
    case Text => 2 + MAX_TEXT
    case Ratio => 3
    case Blob => 1 + MAX_BLOB
    case Both(g, h) => MaxSize(g) + MaxSize(h)
    case Counted(g) => 2 + MAX_COUNT * MaxSize(g)
    case _ => 2
  }

  /** One level of a layout at a time: a pair is laid out, checked and read part by part. */
  lemma PairLaid(g: Format, h: Format, a: Value, b: Value)
    ensures Typed(Both(g, h), Pair(a, b)) <==> Typed(g, a) && Typed(h, b)
    ensures Typed(g, a) && Typed(h, b) ==>
      (Fits(Both(g, h), Pair(a, b)) <==> Fits(g, a) && Fits(h, b))
    ensures Typed(g, a) && Typed(h, b) && Fits(g, a) && Fits(h, b) ==>
      Encoded(Both(g, h), Pair(a, b)) == Encoded(g, a) + Encoded(h, b)
  {
  }

  lemma CountedLaid(g: Format, vs: seq<Value>)
    requires AllTyped(g, vs)
    ensures Typed(Counted(g), List(vs))
    ensures Fits(Counted(g), List(vs)) <==> |vs| <= MAX_COUNT && AllFit(g, vs)
    ensures |vs| <= MAX_COUNT && AllFit(g, vs) ==>
      Encoded(Counted(g), List(vs)) == PutU16(|vs|) + EncodedItems(g, vs)
  {
  }

  lemma AllFitByIndex(f: Format, vs: seq<Value>)
    requires AllTyped(f, vs)
    ensures AllFit(f, vs) <==> forall i :: 0 <= i < |vs| ==> Fits(f, vs[i])
  {
  }

  lemma AllAcceptedNone(f: Format)
    ensures AllTyped(f, []) && AllAccepted(f, [])
  {
  }

  lemma AllAcceptedFirst(f: Format, vs: seq<Value>)
    requires vs != [] && AllTyped(f, vs)
    ensures AllTyped(f, vs[1..])
    ensures AllAccepted(f, vs) <==> Accepted(f, vs[0]) && AllAccepted(f, vs[1..])
  {
  }

  lemma PairRead(g: Format, h: Format, bs: Bytes)
    ensures match Read(g, bs)
            case Failed => Read(Both(g, h), bs) == Failed
            case Parsed(a, r) =>
              match Read(h, r)
              case Failed => Read(Both(g, h), bs) == Failed
              case Parsed(b, rest) => Read(Both(g, h), bs) == Parsed(Pair(a, b), rest)
  {
    hide GetU16, GetI16, GetText, GetRatio, ReadItems;
  }

  lemma CountedRead(g: Format, bs: Bytes)
    ensures match GetU16(bs)
            case Failed => Read(Counted(g), bs) == Failed
            case Parsed(n, r) =>
              var b := ReadItems(g, n, r);
              Read(Counted(g), bs) == if b.ok then Parsed(List(b.items), b.rest) else Failed
  {
  }

  lemma FieldsRead(bs: Bytes)
    ensures Read(Text, bs).Failed? <==> GetText(bs).Failed?
    ensures GetText(bs).Parsed? ==> Read(Text, bs) == Parsed(Chars(GetText(bs).value), GetText(bs).rest)
    ensures Read(Ratio, bs).Failed? <==> GetRatio(bs).Failed?
    ensures GetRatio(bs).Parsed? ==> Read(Ratio, bs) == Parsed(Number(GetRatio(bs).value), GetRatio(bs).rest)
  {
  }

  lemma PairCanon(g: Format, h: Format, a: Value, b: Value)
    requires Typed(g, a) && Typed(h, b)
    ensures Typed(Both(g, h), Pair(a, b))
    ensures Canon(Both(g, h), Pair(a, b)) == Pair(Canon(g, a), Canon(h, b))
    ensures Accepted(Both(g, h), Pair(a, b)) <==> Accepted(g, a) && Accepted(h, b)
  {
  }

  lemma {:induction false} CanonByIndex(f: Format, vs: seq<Value>, i: nat)
    requires AllTyped(f, vs) && i < |vs|
    ensures CanonItems(f, vs)[i] == Canon(f, vs[i])
    decreases |vs|
  {
    hide Canon, Typed;
    if i > 0 {
      CanonByIndex(f, vs[1..], i - 1);
    }
  }

  lemma CountedCanon(g: Format, vs: seq<Value>)
    requires AllTyped(g, vs)
    ensures Typed(Counted(g), List(vs))
    ensures Canon(Counted(g), List(vs)) == List(CanonItems(g, vs))
    ensures Accepted(Counted(g), List(vs)) <==> AllAccepted(g, vs)
  {
  }
}

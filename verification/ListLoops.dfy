/** What the loops of the encoders and decoders keep: how much of a counted list
    has been appended to the buffer, or read from the data, after i rounds. */
module ListLoops {
  import opened RawData
  import opened WireFormat
  import opened WireLaws

  ghost predicate Appended(f: Format, vs: seq<Value>, i: nat, front: Bytes, raw: Bytes) {
    && i <= |vs| && AllTyped(f, vs)
    && AllTyped(f, vs[..i]) && AllFit(f, vs[..i])
    && raw == front + EncodedItems(f, vs[..i])
  }

  lemma NothingAppended(f: Format, vs: seq<Value>, front: Bytes)
    requires AllTyped(f, vs)
    ensures Appended(f, vs, 0, front, front)
  {
  }

  lemma NextAppended(f: Format, vs: seq<Value>, i: nat, front: Bytes, raw: Bytes)
    requires Appended(f, vs, i, front, raw) && i < |vs|
    ensures Typed(f, vs[i])
    ensures Fits(f, vs[i]) ==> Appended(f, vs, i + 1, front, raw + Encoded(f, vs[i]))
    ensures !Fits(f, vs[i]) ==> !AllFit(f, vs)
  {
    hide Encoded, Typed, Fits;
    assert vs[i] in vs;
    if Fits(f, vs[i]) {
      EncodedItemsAppend(f, vs[..i], vs[i]);
      assert vs[..i + 1] == vs[..i] + [vs[i]];
      assert raw + Encoded(f, vs[i]) == front + (EncodedItems(f, vs[..i]) + Encoded(f, vs[i]));
    }
  }

  lemma AllAppended(f: Format, vs: seq<Value>, front: Bytes, raw: Bytes)
    requires Appended(f, vs, |vs|, front, raw)
    ensures AllFit(f, vs) && raw == front + EncodedItems(f, vs)
  {
    assert vs[..|vs|] == vs;
  }

  ghost predicate BeingRead(f: Format, count: nat, bs: Bytes, entries: seq<Value>, remaining: Bytes) {
    && |entries| <= count
    && ReadItems(f, count, bs) == ReadItems(f, count - |entries|, remaining).After(entries)
  }

  lemma NothingRead(f: Format, count: nat, bs: Bytes)
    ensures BeingRead(f, count, bs, [], bs)
  {
  }

  lemma NextRead(f: Format, count: nat, bs: Bytes, entries: seq<Value>, remaining: Bytes)
    requires BeingRead(f, count, bs, entries, remaining) && |entries| < count
    ensures match Read(f, remaining)
            case Failed => ReadItems(f, count, bs) == Batch(entries, remaining, false)
            case Parsed(v, rest) => BeingRead(f, count, bs, entries + [v], rest)
  {
    hide Read;
    match Read(f, remaining)
    case Failed => assert entries + [] == entries;
    case Parsed(v, rest) =>
      var tail := ReadItems(f, count - |entries| - 1, rest).items;
      assert entries + ([v] + tail) == (entries + [v]) + tail;
  }

  lemma AllRead(f: Format, count: nat, bs: Bytes, entries: seq<Value>, remaining: Bytes)
    requires BeingRead(f, count, bs, entries, remaining) && |entries| == count
    ensures ReadItems(f, count, bs) == Batch(entries, remaining, true)
  {
  }
}

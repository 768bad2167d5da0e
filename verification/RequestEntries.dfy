/** Views of the entries of the request, list and answer files. */
module RequestEntries {
  import opened RawData
  import opened TextField
  import opened WireFormat
  import opened WireLaws
  import opened ProtocolFile
  import opened FileKinds
  import opened Information

  function FileViews(files: seq<Bytes>): (r: seq<Value>)
    ensures |r| == |files| && AllTyped(Text, r)
    ensures forall i :: 0 <= i < |r| ==> r[i] == Chars(files[i])
  {
    Views(TextView, files)
  }

  function LoadViews(loads: seq<UploadLoad>): (r: seq<Value>)
    ensures |r| == |loads| && AllTyped(TWO_TEXTS, r)
    ensures forall i :: 0 <= i < |r| ==> r[i] == UploadLoadView(loads[i])
  {
    Views(UploadLoadView, loads)
  }

  function FileInformationViews(files: seq<DownloadFileInformation>): (r: seq<Value>)
    ensures |r| == |files| && AllTyped(TWO_TEXTS, r)
    ensures forall i :: 0 <= i < |r| ==> r[i] == FileInformationView(files[i])
  {
    Views(FileInformationView, files)
  }

  lemma TwoTextsLaid(a: Bytes, b: Bytes)
    ensures var v := Pair(Chars(a), Chars(b));
            var fits := |a| <= MAX_TEXT && |b| <= MAX_TEXT;
            && Typed(TWO_TEXTS, v) && (Fits(TWO_TEXTS, v) <==> fits)
            && (fits ==> Encoded(TWO_TEXTS, v) == TextBytes(a) + TextBytes(b))
  {
  }

  lemma TwoTextsRead(bs: Bytes)
    ensures match GetText(bs)
            case Failed => Read(TWO_TEXTS, bs) == Failed
            case Parsed(a, r) =>
              match GetText(r)
              case Failed => Read(TWO_TEXTS, bs) == Failed
              case Parsed(b, rest) => Read(TWO_TEXTS, bs) == Parsed(Pair(Chars(a), Chars(b)), rest)
  {
    hide GetText;
    FieldsRead(bs);
    PairRead(Text, Text, bs);
    if GetText(bs).Parsed? {
      FieldsRead(GetText(bs).rest);
    }
  }

  lemma TextLaid(s: Bytes)
    ensures Typed(Text, Chars(s)) && (Fits(Text, Chars(s)) <==> |s| <= MAX_TEXT)
    ensures |s| <= MAX_TEXT ==> Encoded(Text, Chars(s)) == TextBytes(s)
  {
  }

  /** Nothing is lost in the views. */
  lemma FileViewsInjective(files: seq<Bytes>, files': seq<Bytes>)
    requires FileViews(files) == FileViews(files')
    ensures files == files'
  {
  }

  lemma LoadViewsInjective(loads: seq<UploadLoad>, loads': seq<UploadLoad>)
    requires LoadViews(loads) == LoadViews(loads')
    ensures loads == loads'
  {
  }

  lemma FileInformationViewsInjective(
    files: seq<DownloadFileInformation>, files': seq<DownloadFileInformation>)
    requires FileInformationViews(files) == FileInformationViews(files')
    ensures files == files'
  {
  }

  function CutNames(files: seq<Bytes>): (r: seq<Bytes>)
    ensures |r| == |files|
  {
    seq(|files|, i requires 0 <= i < |files| => Cut(files[i]))
  }

  lemma {:induction false} CanonNames(files: seq<Bytes>)
    ensures CanonItems(Text, FileViews(files)) == FileViews(CutNames(files))
    decreases |files|
  {
    if files != [] {
      CanonNames(files[1..]);
      assert FileViews(files)[1..] == FileViews(files[1..]);
      assert FileViews(CutNames(files)) == [Chars(Cut(files[0]))] + FileViews(CutNames(files[1..]));
    }
  }

  lemma NamesEncodable(files: seq<Bytes>)
    ensures AllFit(Text, FileViews(files)) <==> forall f <- files :: |f| <= MAX_TEXT
  {
    hide Fits;
    var views := FileViews(files);
    forall i | 0 <= i < |views|
      ensures Fits(Text, views[i]) <==> |files[i]| <= MAX_TEXT
    {
      TextLaid(files[i]);
    }
    AllFitByIndex(Text, views);
  }

  function CutUploadLoads(loads: seq<UploadLoad>): (r: seq<UploadLoad>)
    ensures |r| == |loads|
  {
    seq(|loads|, i requires 0 <= i < |loads| => UploadLoad(Cut(loads[i].headerFilename), Cut(loads[i].partNumber)))
  }

  function CutFileInformations(files: seq<DownloadFileInformation>): (r: seq<DownloadFileInformation>)
    ensures |r| == |files|
  {
    seq(|files|, i requires 0 <= i < |files| =>
          DownloadFileInformation(Cut(files[i].filename), Cut(files[i].description)))
  }

  lemma TwoTextsCanon(a: Bytes, b: Bytes)
    ensures Typed(TWO_TEXTS, Pair(Chars(a), Chars(b)))
    ensures Canon(TWO_TEXTS, Pair(Chars(a), Chars(b))) == Pair(Chars(Cut(a)), Chars(Cut(b)))
  {
  }

  lemma CanonLoads(loads: seq<UploadLoad>)
    ensures CanonItems(TWO_TEXTS, LoadViews(loads)) == LoadViews(CutUploadLoads(loads))
  {
    hide Canon, CanonItems, Typed, Cut;
    var views, cut := LoadViews(loads), CutUploadLoads(loads);
    forall i | 0 <= i < |loads|
      ensures CanonItems(TWO_TEXTS, views)[i] == LoadViews(cut)[i]
    {
      CanonByIndex(TWO_TEXTS, views, i);
      TwoTextsCanon(loads[i].headerFilename, loads[i].partNumber);
    }
  }

  lemma CanonFileInformations(files: seq<DownloadFileInformation>)
    ensures CanonItems(TWO_TEXTS, FileInformationViews(files)) == FileInformationViews(CutFileInformations(files))
  {
    hide Canon, CanonItems, Typed, Cut;
    var views, cut := FileInformationViews(files), CutFileInformations(files);
    forall i | 0 <= i < |files|
      ensures CanonItems(TWO_TEXTS, views)[i] == FileInformationViews(cut)[i]
    {
      CanonByIndex(TWO_TEXTS, views, i);
      TwoTextsCanon(files[i].filename, files[i].description);
    }
  }

  lemma LoadsFit(loads: seq<UploadLoad>)
    ensures AllFit(TWO_TEXTS, LoadViews(loads))
            <==> forall l <- loads :: |l.headerFilename| <= MAX_TEXT && |l.partNumber| <= MAX_TEXT
  {
    hide Fits, Typed;
    var views := LoadViews(loads);
    forall i | 0 <= i < |views|
      ensures Fits(TWO_TEXTS, views[i]) <==> |loads[i].headerFilename| <= MAX_TEXT && |loads[i].partNumber| <= MAX_TEXT
    {
      TwoTextsLaid(loads[i].headerFilename, loads[i].partNumber);
    }
    AllFitByIndex(TWO_TEXTS, views);
  }

  lemma FileInformationsFit(files: seq<DownloadFileInformation>)
    ensures AllFit(TWO_TEXTS, FileInformationViews(files))
            <==> forall f <- files :: |f.filename| <= MAX_TEXT && |f.description| <= MAX_TEXT
  {
    hide Fits, Typed;
    var views := FileInformationViews(files);
    forall i | 0 <= i < |views|
      ensures Fits(TWO_TEXTS, views[i]) <==> |files[i].filename| <= MAX_TEXT && |files[i].description| <= MAX_TEXT
    {
      TwoTextsLaid(files[i].filename, files[i].description);
    }
    AllFitByIndex(TWO_TEXTS, views);
  }

  /** A list file of one of the other types, encoded and read back. */
  lemma ListRoundTrip(kind: FileKind, item: Format, version: UInt16, views: seq<Value>)
    requires IsFlatKind(kind) && kind.body == Counted(item) && CodeFree(item)
    requires AllTyped(item, views) && |views| <= MAX_COUNT && AllFit(item, views)
    ensures Typed(kind.body, List(views)) && Fits(kind.body, List(views))
    ensures DecodedFile(kind, EncodedFile(kind, version, List(views)).value)
         == if SupportedVersion(version) then Some((version, List(CanonItems(item, views)))) else None
  {
    CountedLaid(item, views);
    CountedCanon(item, views);
    CodeFreeAccepted(kind.body, List(views));
    FlatFileRoundTrip(kind, version, List(views));
  }
}

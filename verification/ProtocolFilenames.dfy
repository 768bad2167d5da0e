/** Names of the protocol files (files/ProtocolFilename.cpp). */
module ProtocolFilenames {
  import opened TargetIds

  datatype ProtocolFileType =
    | LoadConfigurationInitialization
    | LoadConfigurationList
    | LoadConfigurationStatus
    | UploadInitialization
    | UploadRequest
    | UploadStatus
    | MediaDefinedDownloadInitialization
    | MediaDefinedDownloadRequest
    | OperatorDefinedDownloadInitialization
    | OperatorDefinedDownloadList
    | OperatorDefinedDownloadAnswer
    | DownloadStatus
    | Invalid

  const EXTENSIONS: map<string, ProtocolFileType> := map[
    "LCI" := LoadConfigurationInitialization,
    "LCL" := LoadConfigurationList,
    "LCS" := LoadConfigurationStatus,
    "LUI" := UploadInitialization,
    "LUR" := UploadRequest,
    "LUS" := UploadStatus,
    "LND" := MediaDefinedDownloadInitialization,
    "LNR" := MediaDefinedDownloadRequest,
    "LNO" := OperatorDefinedDownloadInitialization,
    "LNL" := OperatorDefinedDownloadList,
    "LNA" := OperatorDefinedDownloadAnswer,
    "LNS" := DownloadStatus
  ]

  function FileType(extension: string): ProtocolFileType {
    if extension in EXTENSIONS then EXTENSIONS[extension] else Invalid
  }

  function Extension(fileType: ProtocolFileType): string {
    match fileType
    case LoadConfigurationInitialization => "LCI"
    case LoadConfigurationList => "LCL"
    case LoadConfigurationStatus => "LCS"
    case UploadInitialization => "LUI"
    case UploadRequest => "LUR"
    case UploadStatus => "LUS"
    case MediaDefinedDownloadInitialization => "LND"
    case MediaDefinedDownloadRequest => "LNR"
    case OperatorDefinedDownloadInitialization => "LNO"
    case OperatorDefinedDownloadList => "LNL"
    case OperatorDefinedDownloadAnswer => "LNA"
    case DownloadStatus => "LNS"
    case Invalid => ""
  }

  /** Types and extensions determine each other. */
  lemma ExtensionTable(fileType: ProtocolFileType, extension: string)
    ensures FileType(Extension(fileType)) == fileType
    ensures Extension(FileType(extension)) == extension <==> extension in EXTENSIONS || extension == ""
    ensures FileType(extension) != Invalid <==> extension in EXTENSIONS
  {
  }

  lemma ExtensionAlphanumeric(fileType: ProtocolFileType)
    ensures forall c <- Extension(fileType) :: IsAlphanumeric(c)
  {
  }

  lemma KnownAlphanumeric(extension: string)
    requires FileType(extension) != Invalid
    ensures forall c <- extension :: IsAlphanumeric(c)
  {
    hide FileType, Extension;
    ExtensionTable(FileType(extension), extension);
    ExtensionAlphanumeric(FileType(extension));
  }

  datatype ProtocolFilename = ProtocolFilename(targetId: TargetId, fileType: ProtocolFileType) {
    function ToString(): string { targetId.ToString() + "." + Extension(fileType) }

    predicate Valid() { targetId.Valid() && fileType != Invalid }
  }

  predicate IsProtocolFilename(text: string) {
    var (targetId, extension) := Split(text, '.');
    IsTargetId(targetId) && FileType(extension) != Invalid
  }

  function FromString(text: string): ProtocolFilename {
    var (targetId, extension) := Split(text, '.');
    ProtocolFilename(TargetIds.FromString(targetId), FileType(extension))
  }

  /** A text that passes the check holds its separators once each. */
  lemma SeparatorsOnce(text: string, k: nat)
    requires IsProtocolFilename(text) && k < |text|
    ensures var point := Find(text, '.');
            var underscore := Find(text[..point], '_');
            && (text[k] == '.' <==> k == point)
            && (text[k] == '_' <==> k == underscore)
  {
    hide Find, FileType;
    var point := Find(text, '.');
    var front := text[..point];
    var underscore := Find(front, '_');
    KnownAlphanumeric(text[point + 1..]);
    assert !IsAlphanumeric('_') && !IsAlphanumeric('.');
    if k < underscore {
      assert front[..underscore][k] == text[k];
    } else if underscore < k < point {
      assert front[underscore + 1..][k - underscore - 1] == text[k];
    } else if k > point {
      assert text[point + 1..][k - point - 1] == text[k];
    }
    if k < point {
      assert front[k] == text[k] && front[k] in front;
    }
  }

  /** The printed form of a name passes the check exactly when the name is valid, also when
      its parts hold separators of their own. */
  lemma PrintedValidExactly(f: ProtocolFilename)
    ensures IsProtocolFilename(f.ToString()) <==> f.Valid()
  {
    hide Find, Extension, FileType;
    var text, front := f.ToString(), f.targetId.ToString();
    var extension := Extension(f.fileType);
    ExtensionTable(f.fileType, extension);
    TextValidExactly(f.targetId);
    assert !IsAlphanumeric('.');
    SplitJoined(front, '.', extension);
    if IsProtocolFilename(text) {
      SeparatorsOnce(text, |front|);
      assert text[..|front|] == front;
    }
  }

  /** A name whose target part holds a point is read with another extension than its own. */
  lemma PointTooEarly(f: ProtocolFilename)
    requires '.' in f.targetId.ToString()
    ensures FromString(f.ToString()).fileType == Invalid
  {
    hide Find, Extension, FileType;
    var text, front := f.ToString(), f.targetId.ToString();
    var point := Find(text, '.');
    var k :| 0 <= k < |front| && front[k] == '.';
    forall j | 0 <= j < point
      ensures text[j] != '.'
    {
      NotBefore(text, '.', point, j);
    }
    assert text[k] == '.' && text[|front|] == '.';
    var back := text[point + 1..];
    assert back[|front| - point - 1] == '.' && !IsAlphanumeric('.');
    if FileType(back) != Invalid {
      KnownAlphanumeric(back);
    }
  }

  /** Reading the printed form of a valid name gives the name back. */
  lemma ReadPrinted(f: ProtocolFilename)
    requires f.Valid()
    ensures FromString(f.ToString()) == f
  {
    hide Find, Extension, FileType;
    ExtensionTable(f.fileType, Extension(f.fileType));
    assert !IsAlphanumeric('.');
    SplitJoined(f.targetId.ToString(), '.', Extension(f.fileType));
    TargetIds.ReadPrinted(f.targetId);
  }

  /** Printing what was read from a text gives the text back exactly when its first point
      stands behind an underscore and in front of nothing or a known extension; so it does for every
      text that passes the check. */
  lemma PrintedRead(text: string)
    ensures FromString(text).ToString() == text
            <==> var (targetId, extension) := Split(text, '.');
                 '.' in text && '_' in targetId && (extension in EXTENSIONS || extension == "")
    ensures IsProtocolFilename(text) <==> FromString(text).Valid()
    ensures IsProtocolFilename(text) ==> FromString(text).ToString() == text
  {
    hide Find, Extension, FileType;
    var (front, back) := Split(text, '.');
    ExtensionTable(Invalid, back);
    TargetIds.PrintedRead(front);
    JoinedSplit(text, '.');
    var printed := TargetIds.FromString(front).ToString();
    if FromString(text).ToString() == text {
      assert text[|printed|] == '.' && '.' in text;
      var point := Find(text, '.');
      assert '.' !in printed by {
        assert forall c <- printed :: c == '_' || c in front;
      }
      assert text[..|printed|] == printed;
      FindUnique(text, '.', |printed|);
      assert printed == front;
      assert Extension(FileType(back)) == text[|printed| + 1..];
    }
  }

  /** The extension of each type of file. */
  predicate IsTypeOf(extension: string, fileType: ProtocolFileType) {
    || (extension == "LCI" && fileType == LoadConfigurationInitialization)
    || (extension == "LCL" && fileType == LoadConfigurationList)
    || (extension == "LCS" && fileType == LoadConfigurationStatus)
    || (extension == "LUI" && fileType == UploadInitialization)
    || (extension == "LUR" && fileType == UploadRequest)
    || (extension == "LUS" && fileType == UploadStatus)
    || (extension == "LND" && fileType == MediaDefinedDownloadInitialization)
    || (extension == "LNR" && fileType == MediaDefinedDownloadRequest)
    || (extension == "LNO" && fileType == OperatorDefinedDownloadInitialization)
    || (extension == "LNL" && fileType == OperatorDefinedDownloadList)
    || (extension == "LNA" && fileType == OperatorDefinedDownloadAnswer)
    || (extension == "LNS" && fileType == DownloadStatus)
  }

  lemma TypeExactly(extension: string, fileType: ProtocolFileType)
    requires fileType != Invalid
    ensures FileType(extension) == fileType <==> IsTypeOf(extension, fileType)
    ensures Extension(fileType) == extension <==> IsTypeOf(extension, fileType)
  {
  }

  /** A hardware identifier, an underscore, a position, a point and the extension of a type. */
  predicate SpelledName(text: string, thwId: string, position: string, extension: string, fileType: ProtocolFileType) {
    && text == thwId + "_" + position + "." + extension && IsTypeOf(extension, fileType)
    && 4 <= |thwId| <= 15 && |position| <= 8 && Alphanumeric(thwId) && Alphanumeric(position)
  }

  /** What is read from a name, whether or not its target part is well-formed. */
  lemma TypeRead(front: string, extension: string, fileType: ProtocolFileType)
    requires '.' !in front && IsTypeOf(extension, fileType)
    ensures FromString(front + "." + extension).fileType == fileType
  {
    hide Find, FileType;
    SplitJoined(front, '.', extension);
    TypeExactly(extension, fileType);
  }

  /** Exactly the texts spelled that way pass the check, and they are read as they are spelled. */
  lemma FilenameExactly(text: string)
    ensures IsProtocolFilename(text)
            <==> exists thwId, position, extension, fileType :: SpelledName(text, thwId, position, extension, fileType)
    ensures forall thwId, position, extension, fileType :: SpelledName(text, thwId, position, extension, fileType) ==>
              FromString(text) == ProtocolFilename(TargetId(thwId, position), fileType)
  {
    hide Find, FileType, Extension, IsTypeOf;
    forall thwId, position, extension, fileType | SpelledName(text, thwId, position, extension, fileType)
      ensures IsProtocolFilename(text) && FromString(text) == ProtocolFilename(TargetId(thwId, position), fileType)
    {
      SpelledRead(text, thwId, position, extension, fileType);
    }
    if IsProtocolFilename(text) {
      var f := FromString(text);
      PrintedRead(text);
      TypeExactly(Extension(f.fileType), f.fileType);
      assert SpelledName(text, f.targetId.thwId, f.targetId.position, Extension(f.fileType), f.fileType);
    }
  }

  lemma SpelledRead(text: string, thwId: string, position: string, extension: string, fileType: ProtocolFileType)
    requires SpelledName(text, thwId, position, extension, fileType)
    ensures IsProtocolFilename(text) && FromString(text) == ProtocolFilename(TargetId(thwId, position), fileType)
  {
    hide Find, FileType, Extension;
    var f := ProtocolFilename(TargetId(thwId, position), fileType);
    TypeExactly(extension, fileType);
    assert f.ToString() == text && f.Valid();
    ReadPrinted(f);
    PrintedValidExactly(f);
  }
}

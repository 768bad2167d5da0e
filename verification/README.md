# ARINC 615A data loader: a verified model

A Dafny model of the protocol core of an ARINC 615A data loader, with proofs. It follows
the C++ library under `lib/arinc_615a` and covers

- the nine protocol files (sections 6.4.1 to 6.4.9 of ARINC 615A-4): a header with length
  and version in front of a body of integers, ratios, length-prefixed NUL-terminated
  strings, counted and nested lists, and a block of user data;
- the FIND packets, their dispatch to handlers and the reception statistics;
- the Information, upload and download operations as state machines over the callbacks of
  timer, TFTP server, TFTP client and user, for runs of any length and interleaving;
- the retry layer around TFTP client transfers, the WAIT and ABORT messages in TFTP error
  packets, and the extraction of the ARINC 615A options;
- the accounting of downloaded files, target identifiers and protocol file names.

## How it is built

`WireFormat` gives body layouts as a small grammar with a recursive encoder and decoder;
`WireLaws` proves the laws between the two by induction over all layouts and values, and
`ProtocolFile` adds header and file checks. `FileKinds` names the nine layouts. Each file
class holds the fields of the original and encodes and decodes with the loops of the
original, over a buffer that grows and is patched; its methods are proved to compute
exactly `EncodedFile` and `DecodedFile` of the layout, and to leave exactly the specified
fields behind when they fail; `ReadBack` composes the two for each class. `ListLoops` holds
what these loops keep. `FileBytes` writes the nine types out byte by byte, without the
grammar, and proves that this is what is encoded, and which fields a decoder replaces.

`HostOperation` is the state machine of the operations: what each callback does to the
state and which actions it performs. The classes `OperationImpl`, `InformationOperation`,
`UploadOperation` and `DownloadOperation` update their fields in place, and each of their
methods is proved to take exactly its step; `HostTransitions` says what a step does to each
part of the state, in literal codes, names and messages; `HostRuns`, `HostLedger`, `HostConservation`,
`HostWatchdog` and `HostFinalStatus` prove what every run keeps. Received files are decoded
by the file classes above, so the theorems about runs speak about the bytes a target sends.

Bytes are integers from 0 to 255, and the 16 and 32 bit fields of the program are ranges
of integers; where a value is wrapped around or truncated, the model says so.

## Where code and documentation disagree

The model follows the code.

- `docs/PROTOCOL-CORE.md` says that when requesting the initialisation file fails, the
  operation stays until its timer fires. Nothing has armed the timer then, and nothing does
  before the target is heard of (`UnwatchedUntilHeardOf`); `WatchedExactly` says when it watches.
- It says every status file re-arms the timer. One that cannot be decoded leaves it as it
  is, and one that ends the operation stops it (`StepWatched`).
- It says a client retries until the budget is exceeded. The counter has 16 bits, so a
  budget of 65535 is never exceeded (`FailureExactly`, `NeverFails`).
- It says more than one checksum option is a negotiation failure. The extraction does
  fail, but the client does not look at its verdict: two options of which the first can be
  read are taken for none, and nothing is left for the TFTP layer to refuse. In all other
  cases of more than one, something is left (`NegotiationExactly`).
- It says an abort message holds four hexadecimal digits. Any run of digits is taken
  (`AbortExactly`, `FewerDigitsAccepted`).
- It says ratios are three digits, padded with spaces. Such fields are read as expected
  (`DocumentedRead`), but decoding takes whatever `std::stoul` takes of three characters:
  `RatioExactly` says what, `DocumentedWhen` and `DocumentedExactly` which of it is documented, and
  `RatioLenient` shows an input that is not.
- It lists the upload status body as counter, status, ratio, times, description. The code
  writes status, description, counter, times, ratio.
- `files/String.hpp` asks for strings shorter than 255 characters. The encoder stops at
  253, the decoder can give 254 (`LongestOnlyRead`).
- The Information operation says only write requests are allowed, and still serves a read
  request (`ReadRequest`).

## Model

| member | source | states |
|---|---|---|
| `TextField.StringEncode` | lib/arinc_615a/files/String.cpp:64-91 | fails exactly for more than 253 characters, or when a fixed width cannot hold the characters and a terminator; otherwise gives the length byte, the characters and NUL up to the declared length |
| `TextField.StringDecode` | lib/arinc_615a/files/String.cpp:24-62 | gives the text in front of the first NUL of the declared field and what follows the field, or fails for a short field or one without NUL |
| `TextField.TextExactly` | lib/arinc_615a/files/String.cpp:24-62 | over all data: a text is read exactly from a length of zero, or from a length byte and as many bytes that hold the text, a NUL and anything; what follows them is left |
| `TextField.TextWritten` | lib/arinc_615a/files/String.cpp:64-91 | the bytes of every encodable string, in both the variable and the fixed form |
| `TextField.TextRoundTrip` | lib/arinc_615a/files/String.cpp:24-91 | for every string, width and tail the encoder accepts: decoding the encoding followed by the tail gives the string cut at its first NUL and exactly the tail |
| `TextField.TextDelimited` | lib/arinc_615a/files/String.cpp:24-62 | a decoded field depends on nothing behind it, is NUL-free and has at most 254 characters |
| `TextField.LongestOnlyRead` | lib/arinc_615a/files/String.cpp:64-91 | every NUL-free string of 254 characters can be decoded but not encoded, for any width |
| `TextField.TextNeverGrows` | lib/arinc_615a/files/String.cpp:24-91 | re-encoding a decoded string needs no more bytes, and as many only when they are the same |
| `RatioField.RatioRoundTrip` | lib/arinc_615a/files/Ratio.cpp:25-62 | every ratio up to 100 survives encoding to three characters and decoding, which leaves exactly the tail |
| `RatioField.RatioExactly` | lib/arinc_615a/files/Ratio.cpp:25-49 | over all data, byte by byte: a ratio is read exactly when the first three bytes are white space, at most one sign, a longest run of digits and anything, the digits have its value, zero behind a minus sign, and it is at most 100 |
| `RatioField.DocumentedRead` | lib/arinc_615a/files/Ratio.cpp:25-49 | fields of the documented form, digits behind spaces, are read as the number they denote, up to 100 |
| `RatioField.DocumentedExactly` | lib/arinc_615a/files/Ratio.cpp:25-49 | which three characters are of that form |
| `RatioField.DocumentedWhen` | lib/arinc_615a/files/Ratio.cpp:25-49 | what is read beyond it is exactly what has a sign, other white space than spaces, or something behind the digits |
| `RatioField.RatioReencodedExactly` | lib/arinc_615a/files/Ratio.cpp:25-62 | encoding a decoded ratio gives the same bytes exactly for the documented form without leading zero |
| `RatioField.RatioLenient` | lib/arinc_615a/files/Ratio.cpp:25-49 | a single digit followed by two other characters, the first no digit, is accepted as well: three digits are not required |
| `WireLaws.ReadEncoded` | lib/arinc_615a/files/upload/UploadOperationStatusFile.cpp:66-246 | for every body layout, value and tail: reading an encoding back succeeds exactly when its status codes are known; it gives the value with each string cut at its first NUL and leaves the tail |
| `WireLaws.ReadDelimited` | lib/arinc_615a/files/upload/UploadOperationStatusFile.cpp:187-245 | for every body layout: what a successful read consumed is read the same with any other bytes behind it, which are left |
| `WireLaws.ReadCanonical` | lib/arinc_615a/files/information/LoadConfigurationListFile.cpp:141-216 | whatever is read has known codes only and NUL-free strings |
| `WireLaws.ReencodingNeverGrows` | lib/arinc_615a/files/String.cpp:24-91 | for every body layout: re-encoding what was read needs no more bytes, and without a ratio as many only when they are the same |
| `WireLaws.EncodedSize` | lib/arinc_615a/files/upload/UploadOperationStatusFile.cpp:66-145 | lower and upper bound of the size of every encoding of a layout |
| `WireLaws.EncodedItemsAppend` | lib/arinc_615a/files/information/LoadConfigurationListFile.cpp:67-139 | appending one encoded entry to the buffer gives the encoding of the longer list, the step of every encoder loop |
| `ListLoops.NextAppended` | lib/arinc_615a/files/information/LoadConfigurationListFile.cpp:82-133 | one round of an encoder loop extends the encoded prefix by the next entry, or the whole list is not encodable |
| `ListLoops.NextRead` | lib/arinc_615a/files/information/LoadConfigurationListFile.cpp:156-209 | one round of a decoder loop takes over the next entry, or the list ends as incomplete with the entries before it |
| `ProtocolFile.HeaderInserted` | lib/arinc_615a/files/ProtocolFile.cpp:43-91 | the header written over the front of the finished buffer carries the true size and the version; it is accepted exactly for version A3 or A4 and a size below 2^32 |
| `ProtocolFile.HeaderExactly` | lib/arinc_615a/files/ProtocolFile.cpp:52-91 | over all data, byte by byte: a header is accepted exactly when its first four bytes are the size of the file and the next two 41 33 or 41 34 (hexadecimal) |
| `ProtocolFile.HeaderDecoded` | lib/arinc_615a/files/ProtocolFile.cpp:52-91 | an accepted header is the size of the file below 2^32 and version 41 33 or 41 34; what it was read as determines its six bytes, and the body is the rest |
| `ProtocolFile.FileRoundTrip` | lib/arinc_615a/files/ProtocolFile.cpp:43-91 | for every file type: an encoded file is accepted exactly when the version is A3 or A4, the codes are known and the minimum <= size < 2^32; it gives version and value with strings cut |
| `ProtocolFile.FileNeverGrows` | lib/arinc_615a/files/String.cpp:24-91 | for every accepted file of every type whose strings can be encoded again, |encode(decode(d))| <= |d|; without a ratio the sizes agree exactly when the bytes do |
| `ProtocolFile.CanonicalFileAccepted` | lib/arinc_615a/files/ProtocolFile.cpp:43-91 | a re-encoded file decodes to the same value exactly when it still reaches the minimum size |
| `ProtocolFile.BodiesSelfDelimiting` | lib/arinc_615a/files/upload/UploadOperationStatusFile.cpp:187-245 | no accepted body of a type is a proper prefix of another accepted body |
| `ProtocolFile.EncodingInjective` | lib/arinc_615a/files/ProtocolFile.cpp:43-50 | different canonical values never have the same file |
| `ProtocolFile.MinimumRedundant` | lib/arinc_615a/files/information/InformationOperationStatusFile.cpp:93-133 | a minimum-size check that asks for no more than the shortest body changes no result |
| `ProtocolFile.FileSize` | lib/arinc_615a/files/ProtocolFile.cpp:43-50 | bounds of the size of an encoded file |
| `ProtocolFile.ListDecoded` | lib/arinc_615a/files/information/LoadConfigurationListFile.cpp:141-216 | a list file is accepted exactly when all its counted entries are and nothing is left |
| `FileKinds.FlatKindSizes` | lib/arinc_615a/files/upload/UploadOperationStatusFile.cpp:66-145 | for the eight types other than the load configuration list: the minimum never exceeds the smallest encoding, and no file has more than 50,462,224 bytes |
| `FileKinds.FlatFileRoundTrip` | lib/arinc_615a/files/ProtocolFile.cpp:43-91 | for these eight types version and codes alone decide whether an encoded file is accepted, and its size fits the length field |
| `FileKinds.FlatFileCanonicalAccepted` | lib/arinc_615a/files/ProtocolFile.cpp:43-91 | for these eight types re-encoding an accepted file gives a file that decodes to the same |
| `FileKinds.ListFileRoundTrip` | lib/arinc_615a/files/information/LoadConfigurationListFile.cpp:67-216 | an encoded load configuration list is accepted exactly when the version is A3 or A4 and 19 <= size < 2^32 |
| `FileKinds.ListFileOverflowsLength` | lib/arinc_615a/files/information/LoadConfigurationListFile.cpp:67-139 | there are lists the encoder takes whose file is larger than the length field can say, and which are not accepted back |
| `FileKinds.BlankListFileAccepted` | lib/arinc_615a/files/information/LoadConfigurationListFile.cpp:141-150 | a list of n entries without strings is accepted back exactly from n = 3 on: the minimum of 19 bytes refuses smaller encoder output |
| `LoadConfigurationListFile.HardwareListEncodable` | lib/arinc_615a/files/information/LoadConfigurationListFile.cpp:67-139 | the encoder succeeds exactly when both kinds of counts are at most 65535 and all strings have at most 253 characters |
| `LoadConfigurationListFile.HardwareListRoundTrip` | lib/arinc_615a/files/information/LoadConfigurationListFile.cpp:67-216 | for every encodable hardware list: decoding the encoding succeeds exactly for version A3 or A4 and 19 <= size < 2^32 and gives the same nested list with strings cut |
| `LoadConfigurationListFile.CutsNothing` | lib/arinc_615a/files/String.cpp:24-62 | cutting leaves a hardware list as it is exactly when no string of it holds a NUL |
| `LoadConfigurationListFile.HardwareListAccepted` | lib/arinc_615a/files/information/LoadConfigurationListFile.cpp:67-216 | the size of the file as a sum over the list, and so the condition on the list under which it is accepted back: three entries are always enough, none never |
| `LoadConfigurationListFile.HardwareViewsInjective` | lib/arinc_615a/files/information/LoadConfigurationListFile.cpp:67-139 | hardware lists with the same wire value are the same |
| `LoadConfigurationListFile.ListIs` | lib/arinc_615a/files/information/LoadConfigurationListFile.cpp:141-216 | the list a fresh object holds after an accepted decode is the one the file carries |
| `LoadConfigurationListFile.LoadConfigurationListFile.Encode` | lib/arinc_615a/files/information/LoadConfigurationListFile.cpp:67-139 | the growing buffer with its nested loops and back-patched counts and header equals the recursive byte specification, or fails when that does |
| `LoadConfigurationListFile.LoadConfigurationListFile.Decode` | lib/arinc_615a/files/information/LoadConfigurationListFile.cpp:141-216 | the nested loops accept exactly the specified files; entries are appended to those the object already holds, also those before a failure |
| `UploadOperationStatusFile.UploadStatusEncodable` | lib/arinc_615a/files/upload/UploadOperationStatusFile.cpp:66-145 | the encoder succeeds exactly for at most 65535 loads and strings of at most 253 characters |
| `UploadOperationStatusFile.LargestUploadStatus` | lib/arinc_615a/files/upload/UploadOperationStatusFile.cpp:66-145 | a status with 65535 loads and strings of 253 characters has a file of exactly 50,462,224 bytes |
| `UploadOperationStatusFile.UploadStatusRoundTrip` | lib/arinc_615a/files/upload/UploadOperationStatusFile.cpp:66-246 | every encodable status is read back exactly when version and all codes are accepted; it gives the status with its strings cut |
| `UploadOperationStatusFile.CutsNothing` | lib/arinc_615a/files/String.cpp:24-62 | cutting leaves a status as it is exactly when no string of it holds a NUL, so decode(encode(s)) = s for those |
| `UploadOperationStatusFile.UploadOperationStatusFile.Encode` | lib/arinc_615a/files/upload/UploadOperationStatusFile.cpp:66-145 | the buffer grown field by field and patched in place equals the byte specification, or fails when that does |
| `UploadOperationStatusFile.UploadOperationStatusFile.Decode` | lib/arinc_615a/files/upload/UploadOperationStatusFile.cpp:147-246 | an accepted file replaces the whole status whatever it was; a refused one replaces exactly the fields in front of the failure, and the loads only when all could be read |
| `DownloadOperationStatusFile.DownloadStatusEncodable` | lib/arinc_615a/files/download/DownloadOperationStatusFile.cpp:66-136 | the encoder succeeds exactly for at most 65535 files and strings of at most 253 characters |
| `DownloadOperationStatusFile.DownloadStatusRoundTrip` | lib/arinc_615a/files/download/DownloadOperationStatusFile.cpp:66-218 | every encodable status is read back exactly when version and all codes are accepted; it gives the status with its strings cut |
| `DownloadOperationStatusFile.CutsNothing` | lib/arinc_615a/files/String.cpp:24-62 | cutting leaves a status as it is exactly when no string of it holds a NUL |
| `DownloadOperationStatusFile.DownloadOperationStatusFile.Encode` | lib/arinc_615a/files/download/DownloadOperationStatusFile.cpp:66-136 | the buffer grown field by field and patched in place equals the byte specification, or fails when that does |
| `DownloadOperationStatusFile.DownloadOperationStatusFile.Decode` | lib/arinc_615a/files/download/DownloadOperationStatusFile.cpp:138-218 | an accepted file replaces the whole status whatever it was; a refused one replaces exactly the fields in front of the failure, and the files only when all could be read |
| `StatusFields.FixedReplacesAll` | lib/arinc_615a/files/upload/UploadOperationStatusFile.cpp:147-186 | a status file read as far as its list gives the same fields whatever status the object held |
| `StatusFields.StatusFileDecoded` | lib/arinc_615a/files/upload/UploadOperationStatusFile.cpp:147-246 | assigning field by field, with the list last, gives exactly what the layout defines for both status file types |
| `StatusFields.StatusAppended` | lib/arinc_615a/files/upload/UploadOperationStatusFile.cpp:66-145 | the bytes of both status files: the fixed fields in the order they are written, then the entries |
| `StatusFields.StatusFileRoundTrip` | lib/arinc_615a/files/upload/UploadOperationStatusFile.cpp:66-246 | the round trip shared by both status file types |
| `InformationOperationStatusFile.InformationStatusRoundTrip` | lib/arinc_615a/files/information/InformationOperationStatusFile.cpp:62-133 | every encodable status is read back exactly when version and code are accepted; its description is cut |
| `InformationOperationStatusFile.InformationFileDecoded` | lib/arinc_615a/files/information/InformationOperationStatusFile.cpp:93-133 | assigning field by field to any earlier status gives exactly what the layout defines |
| `InformationOperationStatusFile.StatusIs` | lib/arinc_615a/files/information/InformationOperationStatusFile.cpp:93-133 | the status a file was decoded to is the only one it can carry |
| `InformationOperationStatusFile.InformationOperationStatusFile.Encode` | lib/arinc_615a/files/information/InformationOperationStatusFile.cpp:62-91 | the buffer patched in place equals the byte specification, or fails when that does |
| `InformationOperationStatusFile.InformationOperationStatusFile.Decode` | lib/arinc_615a/files/information/InformationOperationStatusFile.cpp:93-133 | accepts exactly the specified files and leaves exactly the fields in front of a failure replaced |
| `InitializationFile.InitializationRoundTrip` | lib/arinc_615a/files/InitializationFile.cpp:62-109 | every encodable response is read back exactly when the version is supported and its code is one of the three acceptance codes |
| `InitializationFile.ResponseIs` | lib/arinc_615a/files/InitializationFile.cpp:83-109 | the response a file was decoded to is the only one it can carry |
| `InitializationFile.InitializationFile.Encode` | lib/arinc_615a/files/InitializationFile.cpp:62-81 | the buffer patched in place equals the byte specification, or fails when that does |
| `InitializationFile.InitializationFile.Decode` | lib/arinc_615a/files/InitializationFile.cpp:83-109 | accepts exactly the specified files and leaves exactly the fields in front of a failure replaced |
| `UploadOperationRequestFile.LoadsEncodable` | lib/arinc_615a/files/upload/UploadOperationRequestFile.cpp:63-102 | the encoder succeeds exactly for at most 65535 loads and strings of at most 253 characters |
| `UploadOperationRequestFile.LoadsRoundTrip` | lib/arinc_615a/files/upload/UploadOperationRequestFile.cpp:63-151 | every encodable request is read back exactly for version A3 or A4, with strings cut |
| `UploadOperationRequestFile.UploadOperationRequestFile.Encode` | lib/arinc_615a/files/upload/UploadOperationRequestFile.cpp:63-102 | the growing buffer equals the recursive byte specification, or fails when that does |
| `UploadOperationRequestFile.UploadOperationRequestFile.Decode` | lib/arinc_615a/files/upload/UploadOperationRequestFile.cpp:104-151 | accepts exactly the specified files; entries are appended to those already held |
| `DownloadOperationListFile.FilesEncodable` | lib/arinc_615a/files/download/DownloadOperationListFile.cpp:73-111 | the encoder succeeds exactly for at most 65535 files and strings of at most 253 characters |
| `DownloadOperationListFile.FilesRoundTrip` | lib/arinc_615a/files/download/DownloadOperationListFile.cpp:73-158 | every encodable list is read back exactly for version A3 or A4, with strings cut |
| `DownloadOperationListFile.DownloadOperationListFile.Encode` | lib/arinc_615a/files/download/DownloadOperationListFile.cpp:73-111 | the growing buffer equals the recursive byte specification, or fails when that does |
| `DownloadOperationListFile.DownloadOperationListFile.Decode` | lib/arinc_615a/files/download/DownloadOperationListFile.cpp:113-158 | accepts exactly the specified files; entries are appended to those already held |
| `DownloadOperationAnswerFile.NamesFit` | lib/arinc_615a/files/download/DownloadOperationAnswerFile.cpp:63-95 | the encoder succeeds exactly for at most 65535 names of at most 253 characters |
| `DownloadOperationAnswerFile.AnswerRoundTrip` | lib/arinc_615a/files/download/DownloadOperationAnswerFile.cpp:63-135 | every encodable answer is read back exactly for version A3 or A4, with names cut |
| `DownloadOperationAnswerFile.DownloadOperationAnswerFile.Encode` | lib/arinc_615a/files/download/DownloadOperationAnswerFile.cpp:63-95 | the growing buffer equals the recursive byte specification, or fails when that does |
| `DownloadOperationAnswerFile.DownloadOperationAnswerFile.Decode` | lib/arinc_615a/files/download/DownloadOperationAnswerFile.cpp:97-135 | accepts exactly the specified files; names are appended to those already held |
| `DownloadOperationRequestFile.RequestEncodable` | lib/arinc_615a/files/download/DownloadOperationRequestFile.cpp:85-132 | the encoder succeeds exactly for at most 65535 names of at most 253 characters and at most 255 bytes of user data |
| `DownloadOperationRequestFile.RequestDecoded` | lib/arinc_615a/files/download/DownloadOperationRequestFile.cpp:134-177 | a request is accepted exactly when its names can be read and the length byte behind them equals all that is left |
| `DownloadOperationRequestFile.RequestRoundTrip` | lib/arinc_615a/files/download/DownloadOperationRequestFile.cpp:85-177 | every encodable request is read back for version A3 or A4: names cut, user data unchanged |
| `DownloadOperationRequestFile.DownloadOperationRequestFile.Encode` | lib/arinc_615a/files/download/DownloadOperationRequestFile.cpp:85-132 | the growing buffer, its counts and the user-data block equal the byte specification, or it fails when that does |
| `DownloadOperationRequestFile.DownloadOperationRequestFile.Decode` | lib/arinc_615a/files/download/DownloadOperationRequestFile.cpp:134-177 | accepts exactly the specified files; names are appended to those already held, the user data is replaced |
| `LoadConfigurationListFile.ReadBack` | lib/arinc_615a/files/information/LoadConfigurationListFile.cpp:67-216 | encode one object, decode its file into another: it succeeds exactly for an encodable list, version A3 or A4 and a size of the list from 11 up to what the length field allows; the other then holds its earlier entries and the encoded ones, with strings cut |
| `UploadOperationStatusFile.ReadBack` | lib/arinc_615a/files/upload/UploadOperationStatusFile.cpp:40-49 | encode one object, decode its file into another with any earlier status: it succeeds exactly for an encodable status with known codes and version A3 or A4, and the other then holds that status with strings cut |
| `DownloadOperationStatusFile.ReadBack` | lib/arinc_615a/files/download/DownloadOperationStatusFile.cpp:40-49 | the same for the download status |
| `InformationOperationStatusFile.ReadBack` | lib/arinc_615a/files/information/InformationOperationStatusFile.cpp:36-45 | the same for the information status |
| `InitializationFile.ReadBack` | lib/arinc_615a/files/InitializationFile.cpp:36-45 | the same for the initialisation response and its three codes |
| `UploadOperationRequestFile.ReadBack` | lib/arinc_615a/files/upload/UploadOperationRequestFile.cpp:63-151 | encode one object, decode its file into another: it succeeds exactly for encodable loads and version A3 or A4; the other then holds its earlier loads and the encoded ones, with strings cut |
| `DownloadOperationListFile.ReadBack` | lib/arinc_615a/files/download/DownloadOperationListFile.cpp:73-158 | the same for the files of a download list |
| `DownloadOperationAnswerFile.ReadBack` | lib/arinc_615a/files/download/DownloadOperationAnswerFile.cpp:63-135 | the same for the names of a download answer |
| `DownloadOperationRequestFile.ReadBack` | lib/arinc_615a/files/download/DownloadOperationRequestFile.cpp:85-177 | the same for the names of a download request; the user data is the encoded one |
| `FileBytes.UploadRequestBytes` | lib/arinc_615a/files/upload/UploadOperationRequestFile.cpp:63-102 | the bytes of every encoded request, and that there are none exactly when a count or a string is too large: header, count, and for each load the header file name in front of the part number |
| `FileBytes.LoadIs` | lib/arinc_615a/files/upload/UploadOperationRequestFile.cpp:92-95 | the entry of a load is its header file name followed by its part number |
| `FileBytes.DownloadListBytes` | lib/arinc_615a/files/download/DownloadOperationListFile.cpp:73-111 | the same for a list: for each file its name in front of its description |
| `FileBytes.DownloadAnswerBytes` | lib/arinc_615a/files/download/DownloadOperationAnswerFile.cpp:63-95 | the same for an answer: the names |
| `FileBytes.DownloadRequestBytes` | lib/arinc_615a/files/download/DownloadOperationRequestFile.cpp:85-132 | the same for a request: the names, then the size of the user data and the data |
| `FileBytes.HardwareListBytes` | lib/arinc_615a/files/information/LoadConfigurationListFile.cpp:67-139 | the same for the nested list: name, serial number and parts of each hardware; number, amendment and designation of each part |
| `FileBytes.InitializationBytes` | lib/arinc_615a/files/InitializationFile.cpp:62-81 | the same for a response: code, description |
| `FileBytes.InformationStatusBytes` | lib/arinc_615a/files/information/InformationOperationStatusFile.cpp:62-91 | the same for an information status: counter, code, exception timer, estimated time, description |
| `FileBytes.UploadStatusBytes` | lib/arinc_615a/files/upload/UploadOperationStatusFile.cpp:66-145 | the same for an upload status: code, description, counter, timers, ratio, and for each load header file name, part number, ratio, code, description |
| `FileBytes.DownloadStatusBytes` | lib/arinc_615a/files/download/DownloadOperationStatusFile.cpp:66-136 | the same for a download status: the same fields, and for each file name, code, description |
| `FileBytes.VersionExactly` | lib/arinc_615a/files/ProtocolFile.cpp:52-91 | for each type: version and body are looked at exactly when the file has the size the decoder asks for and a header of its size and a known version, byte by byte |
| `FileBytes.CodesExactly` | lib/arinc_615a/StatusCode.cpp:96-140 | exactly ten codes are status codes, and three of them acceptance codes |
| `FileBytes.FixedFieldwise` | lib/arinc_615a/files/upload/UploadOperationStatusFile.cpp:147-186 | for data of any length, also truncated: which fields of the status an upload or download status file replaces, and from which bytes |
| `FileBytes.InformationFieldwise` | lib/arinc_615a/files/information/InformationOperationStatusFile.cpp:93-133 | the same for the information status file |
| `FileBytes.ResponseFieldwise` | lib/arinc_615a/files/InitializationFile.cpp:83-109 | the same for the initialisation file, whose code leaves the description alone |
| `FileBytes.BatchExactly` | lib/arinc_615a/files/information/LoadConfigurationListFile.cpp:156-209 | the entries a list decoder has taken are those in front of the first one that cannot be read |
| `FindPacket.PacketRoundTrip` | lib/arinc_615a/find/packets/Packet.cpp:67-189 | decode(encode(p)) = p exactly for a valid opcode and at least one parameter, all NUL-free |
| `FindPacket.DatagramReencoded` | lib/arinc_615a/find/packets/Packet.cpp:67-189 | encode(decode(d)) = d for every accepted datagram; it has as many parameters as NUL characters behind the opcode |
| `FindPacket.ParameterCount` | lib/arinc_615a/find/packets/Packet.cpp:100-126 | splitting a terminated text gives one parameter for each NUL |
| `FindPacket.Packet.FromRaw` | lib/arinc_615a/find/packets/Packet.cpp:67-127 | the constructor accepts exactly the specified datagrams and holds their opcode and parameters |
| `FindPacket.Packet.DecodeParameters` | lib/arinc_615a/find/packets/Packet.cpp:100-126 | the shrinking loop ends; it succeeds exactly when every string is terminated and gives the specified split |
| `FindPacket.Packet.Encode` | lib/arinc_615a/find/packets/Packet.cpp:164-189 | the appended buffer equals the byte specification |
| `FindPacket.PacketExactly` | lib/arinc_615a/find/packets/Packet.cpp:67-189 | over all data: a datagram holds a packet exactly when it is 00 01 or 00 02, its parameters, at least one and NUL-free, with a NUL behind each, and 10 (hexadecimal) |
| `FindReception.CountedExactly` | lib/arinc_615a/find/packets/PacketHandler.cpp:23-74 | a datagram is counted under an opcode exactly when it decodes to a packet with it and the handler returns, as invalid when it does not decode or the handler says so, and not at all when the handler throws anything else |
| `FindReception.CallsExactly` | lib/arinc_615a/find/packets/PacketHandler.cpp:23-74 | which callbacks a datagram causes, with what they are given, and in which order |
| `FindReception.StatisticExact` | lib/arinc_615a/find/packets/PacketStatistic.cpp:49-55 | after any sequence of datagrams each opcode holds exactly number and size of those that decode to a packet with it and whose handler returned; the invalid one those that do not decode or that a handler refused |
| `FindReception.ReceptionConserved` | lib/arinc_615a/find/packets/PacketHandler.cpp:23-74 | while handlers return or throw InvalidFindPacket, the totals are the number of datagrams and the sum of their sizes |
| `FindReception.UncountedExactly` | lib/arinc_615a/find/packets/PacketHandler.cpp:23-74 | a datagram escapes the totals exactly when it decodes and its handler throws another exception |
| `FindReception.TotalRecorded` | lib/arinc_615a/find/packets/PacketStatistic.cpp:36-55 | recording a packet moves the totals by one and its size |
| `FindReception.PacketStatistic.Packet` | lib/arinc_615a/find/packets/PacketStatistic.cpp:49-55 | the two increments in place amount to recording the packet |
| `FindReception.PacketStatistic.TotalOf` | lib/arinc_615a/find/packets/PacketStatistic.cpp:36-47 | the loop over the map gives the sum over all opcodes |
| `FindReception.PacketHandler.Packet` | lib/arinc_615a/find/packets/PacketHandler.cpp:23-74 | counts each datagram once under the specified opcode, makes the specified callbacks, and lets an exception through exactly when a callback throws another one than InvalidFindPacket, or the one for invalid packets throws |
| `HostRuns.RunSound` | lib/arinc_615a/host/implementation/InformationOperationImpl.cpp:180-399 | over every run of callbacks of every operation: each report is followed at once by the timer or end it demands; the timer is armed, and ends with other codes than the two of data loader and operator are reported, for no other reason; the final-status flag equals what the history says |
| `HostRuns.WaitsForFinalStatus` | lib/arinc_615a/host/implementation/InformationOperationImpl.cpp:70-75 | the Information operation waits for a final status exactly when, since its last start in the history, an ongoing status was reported |
| `HostFinalStatus.WaitsExactly` | lib/arinc_615a/host/implementation/InformationOperationImpl.cpp:218-252 | it does so exactly when a callback of the run brought a status file that says accepted or in progress, and no callback started it since |
| `HostFinalStatus.CompletedExactly` | lib/arinc_615a/host/implementation/InformationOperationImpl.cpp:319-399 | after any run, a callback completes the Information operation exactly when it brings a status file that says so, or a decodable list while no status file since the start said that the operation goes on |
| `HostRuns.CompletionRule` | lib/arinc_615a/host/implementation/InformationOperationImpl.cpp:319-399 | completion is only ever declared by a status file that says so, or by a received list while no ongoing status was reported; otherwise a received list only arms the timer |
| `HostRuns.TimerNeverShort` | lib/arinc_615a/host/implementation/OperationImpl.cpp:149-157 | in every run the timer is armed for at least the configured time, and for more only by the exception timer of an in-progress status |
| `HostRuns.StepSound` | lib/arinc_615a/host/implementation/InformationOperationImpl.cpp:180-258 | one callback keeps the invariant behind these theorems |
| `HostLedger.StepMoves` | lib/arinc_615a/host/implementation/OperationImpl.cpp:77-226 | one callback of any operation: how many ends it reports, which transfers it lists and takes off, and that abort requests and timer stay balanced |
| `HostConservation.RunBalanced` | lib/arinc_615a/host/implementation/OperationImpl.cpp:77-226 | in every run delivered plus pending abort requests are those taken, the timer state is what the history says, and no transfer is listed twice |
| `HostConservation.AbortsDeliveredOnce` | lib/arinc_615a/host/implementation/OperationImpl.cpp:77-94 | in every run abort requests are delivered once each and in order; all but at most the latest have been, and none waits exactly when all have been |
| `HostConservation.AbortDelivered` | lib/arinc_615a/host/implementation/OperationImpl.cpp:186-226 | a request for the status file of this target gets a pending abort instead of a transfer; without one it gets a transfer, unless creating it fails |
| `HostConservation.StatusNameServed` | lib/arinc_615a/host/implementation/OperationImpl.cpp:228-247 | the file name the target identifier prints to is taken for the status file exactly when the identifier holds no point, valid or not |
| `ProtocolFilenames.PointTooEarly` | lib/arinc_615a/files/ProtocolFilename.cpp:19-30 | a name whose target part holds a point is read with an unknown extension |
| `HostWatchdog.StepWatched` | lib/arinc_615a/host/implementation/OperationImpl.cpp:149-169 | after every callback the timer watches exactly when the callback armed it, by one of the four listed causes, or it watched before and the callback ended nothing |
| `HostWatchdog.WatchedExactly` | lib/arinc_615a/host/implementation/OperationImpl.cpp:149-169 | after every run the timer watches exactly when one of its callbacks armed it and no later one ended the operation |
| `HostWatchdog.UnwatchedUntilHeardOf` | lib/arinc_615a/host/implementation/OperationImpl.cpp:249-292 | as long as no callback comes from the target nothing watches the operation, also when requesting the initialisation file failed |
| `HostWatchdog.WatchedBeforeInitialised` | lib/arinc_615a/host/implementation/OperationImpl.cpp:186-226 | a run in which an abort request, delivered to a status request, arms the timer before the initialisation file has come |
| `HostWatchdog.WatchedUntilEnd` | lib/arinc_615a/host/implementation/OperationImpl.cpp:149-169 | in every run the timer is armed exactly when it was armed at some point after which no end was reported |
| `HostConservation.EndsExactly` | lib/arinc_615a/host/implementation/OperationImpl.cpp:159-169 | in every run the ends the handler hears of, with code and description, are in order those of the callbacks, also after an earlier end |
| `HostConservation.EndCaused` | lib/arinc_615a/host/implementation/OperationImpl.cpp:159-169 | every end in every run was caused by one of its callbacks |
| `HostConservation.EndsWithExactly` | lib/arinc_615a/host/implementation/OperationImpl.cpp:96-127 | a callback reports an end with a code exactly when it has a cause for it: termination, timer, a failed or unknown transfer, or what the target says |
| `HostConservation.OperatorEndExactly` | lib/arinc_615a/host/implementation/OperationImpl.cpp:96-127 | an end by the operator is reported exactly when the operator terminates or a status file that is looked at says so |
| `HostConservation.FinishedTwice` | lib/arinc_615a/host/implementation/OperationImpl.cpp:159-169 | a concrete run, two failing status transfers, in which every operation is reported finished twice |
| `HostConservation.TransfersTracked` | lib/arinc_615a/host/implementation/InformationOperationImpl.cpp:135-198 | when each created transfer completes at most once, the list of status transfers is exactly those created and not yet completed |
| `HostConservation.CompletionKnown` | lib/arinc_615a/host/implementation/DownloadOperationImpl.cpp:157-228 | in such runs no completion meets an unknown transfer, and none reports two ends although only the Information operation returns there |
| `HostConservation.EndsTwiceExactly` | lib/arinc_615a/host/implementation/DownloadOperationImpl.cpp:157-228 | in all runs a completion reports two ends exactly when the transfer is unknown, the operation is not Information, and transfer or status ends the operation as well |
| `HostConservation.ReadRequest` | lib/arinc_615a/host/implementation/InformationOperationImpl.cpp:87-133 | a read request is served by the Information operation after the error it answers; a download only answers it, an upload passes it on |
| `HostTransitions.StepEmits` | lib/arinc_615a/host/implementation/InformationOperationImpl.cpp:87-399 | every callback of every operation performs exactly the actions of a table written in the codes, errors, names and messages of the program, in its order |
| `HostTransitions.ListRequestServed` | lib/arinc_615a/host/implementation/InformationOperationImpl.cpp:260-317 | a request for the list file gets a transfer and ends the one before; one that cannot be created or started aborts the Information operation, and only that; nothing else changes |
| `HostTransitions.ErrorsExactly` | lib/arinc_615a/host/implementation/InformationOperationImpl.cpp:87-133 | exactly which requests are answered with which TFTP error, for all four operations, and that no other callback answers with one |
| `HostTransitions.StepAborts` | lib/arinc_615a/host/implementation/OperationImpl.cpp:77-94 | a pending abort stays until the target asks for the status file; without one, exactly a call, a failed list and a failed list transfer take one up |
| `HostTransitions.StepTransfers` | lib/arinc_615a/host/implementation/InformationOperationImpl.cpp:135-178 | which transfers are tracked after a callback, and the number of the next one |
| `HostTransitions.StepInitialises` | lib/arinc_615a/host/implementation/OperationImpl.cpp:376-446 | the initialisation file is waited for from its request to the end of its transfer, and exactly an accepted response changes the version |
| `HostTransitions.ForeignExactly` | lib/arinc_615a/host/implementation/OperationImpl.cpp:228-247 | a request is foreign exactly when its name is spelled as a protocol file of another target |
| `HostTransitions.ServedExactly` | lib/arinc_615a/host/implementation/UploadOperationImpl.cpp:180-244 | status files are taken under the extension LCS, LUS or LNS of the operation, written by the target |
| `HostTransitions.InitialisationNamed` | lib/arinc_615a/host/implementation/MediaDefinedDownloadOperationImpl.cpp:59-63 | the extension of the initialisation file of each operation |
| `HostTransitions.UploadStatusTaken` | lib/arinc_615a/host/implementation/UploadOperationImpl.cpp:321-393 | an upload takes from an encoded upload status file the very status the target wrote, strings cut |
| `HostTransitions.DownloadStatusTaken` | lib/arinc_615a/host/implementation/DownloadOperationImpl.cpp:157-228 | so does either download from a download status file |
| `HostTransitions.InformationStatusTaken` | lib/arinc_615a/host/implementation/InformationOperationImpl.cpp:180-258 | so does the Information operation from its status file |
| `OperationImpl.OperationImpl.IsAborted` | lib/arinc_615a/host/implementation/OperationImpl.cpp:186-226 | delivers a pending request, forgets it and arms the timer; says whether it did |
| `OperationImpl.OperationImpl.CheckRequest` | lib/arinc_615a/host/implementation/OperationImpl.cpp:228-247 | refuses exactly the well-formed protocol file names of another target |
| `OperationImpl.OperationImpl.Initialise` | lib/arinc_615a/host/implementation/OperationImpl.cpp:249-292 | starts the server and the initialisation read; an exception leaves what was done before it |
| `OperationImpl.OperationImpl.InitialisationFileCompleted` | lib/arinc_615a/host/implementation/OperationImpl.cpp:376-446 | takes over the version and arms the timer for an accepted response; ends the operation for all others |
| `InformationOperation.InformationOperation.TftpRequest` | lib/arinc_615a/host/implementation/InformationOperationImpl.cpp:87-133 | the new state is the specified dispatch of the file name |
| `InformationOperation.InformationOperation.StatusFileRequest` | lib/arinc_615a/host/implementation/InformationOperationImpl.cpp:135-178 | delivers a pending abort, or puts a new transfer in front of the list, unless creating it failed |
| `InformationOperation.InformationOperation.StatusFileCompleted` | lib/arinc_615a/host/implementation/InformationOperationImpl.cpp:180-258 | the new state is the specified step, from bookkeeping over decoding to the consequence of the status |
| `InformationOperation.InformationOperation.ListFileCompleted` | lib/arinc_615a/host/implementation/InformationOperationImpl.cpp:319-399 | the new state is the specified step, for a failed, an undecodable and an accepted list |
| `UploadOperation.UploadOperation.TftpRequest` | lib/arinc_615a/host/implementation/UploadOperationImpl.cpp:180-244 | the new state is the specified dispatch |
| `UploadOperation.UploadOperation.StatusFileRequest` | lib/arinc_615a/host/implementation/UploadOperationImpl.cpp:274-319 | delivers a pending abort, or puts a new transfer in front of the list, unless creating it failed |
| `UploadOperation.UploadOperation.StatusFileCompleted` | lib/arinc_615a/host/implementation/UploadOperationImpl.cpp:321-393 | the new state is the specified step; an unknown transfer does not end the callback |
| `DownloadOperation.DownloadOperation.TftpRequest` | lib/arinc_615a/host/implementation/OperatorDefinedDownloadOperationImpl.cpp:154-222 | the new state is the specified dispatch of both kinds of download |
| `DownloadOperation.DownloadOperation.StatusFileRequest` | lib/arinc_615a/host/implementation/DownloadOperationImpl.cpp:112-155 | delivers a pending abort, or puts a new transfer in front of the list, unless creating it failed |
| `DownloadOperation.DownloadOperation.StatusFileCompleted` | lib/arinc_615a/host/implementation/DownloadOperationImpl.cpp:157-228 | the new state is the specified step; an unknown transfer does not end the callback |
| `DownloadOperation.DownloadOperation.ListFileCompleted` | lib/arinc_615a/host/implementation/OperatorDefinedDownloadOperationImpl.cpp:271-309 | reports an accepted list, and requests an abort for any other |
| `ErrorMessages.FromCharsExactly` | lib/arinc_615a/tftp/ErrorMessage.cpp:128-142 | a number is read exactly when a longest non-empty run of digits stands in front and denotes it |
| `ErrorMessages.WaitExactly` | lib/arinc_615a/tftp/ErrorMessage.cpp:121-143 | over all texts: a wait time is read exactly from the keyword, a longest decimal run of that value up to 65535, and any tail |
| `ErrorMessages.AbortExactly` | lib/arinc_615a/tftp/ErrorMessage.cpp:70-108 | over all texts: a code is read exactly from the keyword, a longest hexadecimal run that denotes it, and any tail, when it is one of the nine; everything else gives FFFF |
| `ErrorMessages.MessageExactly` | lib/arinc_615a/tftp/ErrorMessage.cpp:33-63 | an error is a message of either kind exactly with the error code 0 and something behind the keyword |
| `ErrorMessages.DigitExactly` | lib/arinc_615a/tftp/ErrorMessage.cpp:128-142 | the decimal and hexadecimal digits and their values |
| `ErrorMessages.MessagesPrinted` | lib/arinc_615a/tftp/ErrorMessage.cpp:65-119 | codes are printed with four upper-case digits, times without leading zeros, behind their keywords |
| `ErrorMessages.WaitRoundTrip` | lib/arinc_615a/tftp/ErrorMessage.cpp:110-143 | a wait time can be printed exactly from 0 to 65535, is then read back and recognized |
| `ErrorMessages.AbortRoundTrip` | lib/arinc_615a/tftp/ErrorMessage.cpp:65-108 | a printed code is read back exactly when it is one of the nine; all others read as invalid |
| `ErrorMessages.ReadableRecognized` | lib/arinc_615a/tftp/ErrorMessage.cpp:33-63 | whatever can be read as one kind of message is classified as that kind and cannot be read as the other |
| `ErrorMessages.FewerDigitsAccepted` | lib/arinc_615a/tftp/ErrorMessage.cpp:70-108 | an abort message with a single digit is accepted |
| `TftpClient.VerdictExactly` | lib/arinc_615a/tftp/clients/implementation/OperationImpl.cpp:193-265 | the end of a transfer is reported completed exactly for a success, aborted exactly for a local abort; it counts as an abort of data loader or operator, or as a wait, exactly when the error has no code of its own and its text reads so; every other end is a retry |
| `TftpClient.StepReports` | lib/arinc_615a/tftp/clients/implementation/OperationImpl.cpp:155-322 | every event is answered by one action, and for each kind of action exactly by which events |
| `TftpClient.ReportedExactly` | lib/arinc_615a/tftp/clients/implementation/OperationImpl.cpp:155-322 | in every run the action behind each event reports a completion, a local abort or an abort by data loader or operator exactly when that event says so |
| `TftpClient.CompletedExactly` | lib/arinc_615a/tftp/clients/implementation/OperationImpl.cpp:157-168 | in every run the operation is reported completed exactly when one of its attempts ended successfully |
| `TftpClient.BudgetKept` | lib/arinc_615a/tftp/clients/implementation/OperationImpl.cpp:267-290 | in every run without a report: attempts are one plus retries plus expired waits, the counter holds the retries, and they stay within the budget; waits cost none |
| `TftpClient.FailureExactly` | lib/arinc_615a/tftp/clients/implementation/OperationImpl.cpp:267-290 | a communication error is reported exactly when a retry is due, the budget is spent and smaller than 65535 |
| `TftpClient.NeverFails` | lib/arinc_615a/tftp/clients/implementation/OperationImpl.cpp:267-290 | with a budget of 65535 the wrapping counter never exceeds it, and no run reports a communication error |
| `TftpClient.ClientOperation.HandleCompletion` | lib/arinc_615a/tftp/clients/implementation/OperationImpl.cpp:155-290 | the new state is the specified step; a transfer is running exactly when an attempt was made |
| `TftpClient.ClientOperation.HandleWaitTimeout` | lib/arinc_615a/tftp/clients/implementation/OperationImpl.cpp:292-322 | an expired wait makes another attempt without a retry, any other end reports an abort |
| `Arinc615aOptions.ExtractionExactly` | lib/arinc_615a/tftp/Arinc615aOptions.cpp:148-197 | for every option map: extraction succeeds exactly when at most one of the eight checksum options is present and can be read; it gives that check value, or none |
| `Arinc615aOptions.ExtractionLeaves` | lib/arinc_615a/tftp/Arinc615aOptions.cpp:148-197 | on success no checksum option is left; on failure exactly those behind the refused one; others are untouched |
| `Arinc615aOptions.NegotiationRoundTrip` | lib/arinc_615a/tftp/Arinc615aOptions.cpp:22-45 | options sent and read back are the same and nothing is left, given that ports and check values can be read from their own texts |
| `Arinc615aOptions.NegotiationExactly` | lib/arinc_615a/tftp/clients/implementation/OperationImpl.cpp:115-153 | the client refuses options itself exactly for an unreadable port; its handler sees a checksum exactly for a single readable one; none is left for the TFTP layer exactly when at most one is present, or two of which the first can be read |
| `Arinc615aOptions.NothingLeftExactly` | lib/arinc_615a/tftp/Arinc615aOptions.cpp:148-197 | the extraction leaves no checksum option exactly then |
| `Arinc615aOptions.ChecksumHandedOn` | lib/arinc_615a/tftp/clients/implementation/OperationImpl.cpp:115-153 | the handler sees a checksum exactly when a single checksum option is present and can be read |
| `Arinc615aOptions.InitialisationNegotiation` | lib/arinc_615a/host/implementation/OperationImpl.cpp:342-374 | for the initialisation file options are accepted exactly when they hold the port that was asked for, or none, and not a single readable checksum |
| `Arinc615aOptions.RequestNegotiation` | lib/arinc_615a/host/implementation/MediaDefinedDownloadOperationImpl.cpp:213-223 | for the files the host writes options are accepted exactly without port, part number and single readable checksum |
| `Arinc615aOptions.NamesDiffer` | lib/arinc_615a/tftp/Arinc615aOptions.cpp:86-119 | the eight checksum option names differ from each other and from the other two |
| `Arinc615aOptions.NamesExactly` | lib/arinc_615a/tftp/Arinc615aOptions.cpp:47-119 | which option stands for which check value type, by name |
| `Arinc615aOptions.LookedForInOrder` | lib/arinc_615a/tftp/Arinc615aOptions.cpp:155-163 | the checksum options are looked for in the order of their numbers |
| `Arinc615aOptions.HandedOn` | lib/arinc_615a/tftp/clients/implementation/OperationImpl.cpp:115-153 | for every option map: the handler gets port and part number as they are read, and options of other names reach the TFTP layer unchanged |
| `Arinc615aOptions.ChecksumHandedOnIs` | lib/arinc_615a/tftp/clients/implementation/OperationImpl.cpp:115-153 | the checksum the handler gets is that of a present option, read as the type of its name |
| `Arinc615aOptions.OptionList.Checksum` | lib/arinc_615a/tftp/Arinc615aOptions.cpp:148-197 | the extracting loop gives the specified result and removes exactly the specified options |
| `DownloadInformation.SizeConserved` | lib/arinc_615a/host/DownloadInformation.cpp:65-105 | after any events the sum is that over all file names of the size their last event gives them, zero for a start |
| `DownloadInformation.TotalWithout` | lib/arinc_615a/host/DownloadInformation.cpp:93-105 | the sum does not depend on the order of the map |
| `DownloadInformation.ExceptRemoves` | lib/arinc_615a/host/DownloadInformation.cpp:65-91 | the entry of a file depends on the events of that file only |
| `DownloadInformation.EndKeepsStart` | lib/arinc_615a/host/DownloadInformation.cpp:82-91 | an end keeps path, part number and check value of the start |
| `DownloadInformation.StartReplaces` | lib/arinc_615a/host/DownloadInformation.cpp:65-80 | a start replaces all that is known of the file by its path, part number and check value, with no status and no size |
| `DownloadInformation.KnownExactly` | lib/arinc_615a/host/DownloadInformation.cpp:65-91 | the files known after any events are those an event named |
| `DownloadInformation.EndWithoutStart` | lib/arinc_615a/host/DownloadInformation.cpp:82-91 | the end of a file never heard of gives an entry with empty path, part number and check value |
| `DownloadInformation.DownloadInformation.FileFinished` | lib/arinc_615a/host/DownloadInformation.cpp:82-91 | sets status and size of the entry, making one when there is none |
| `DownloadInformation.DownloadInformation.Finished` | lib/arinc_615a/host/DownloadInformation.cpp:93-105 | the loop records the sum over all entries |
| `TargetIds.SplitJoined` | lib/arinc_615a/TargetId.cpp:24-36 | splitting a joined text gives the parts back exactly when the first holds no separator |
| `TargetIds.TargetIdExactly` | lib/arinc_615a/TargetId.cpp:38-58 | over all texts: an identifier is 4 to 15 letters and digits, an underscore and up to 8, and is read as it is spelled |
| `TargetIds.TextValidExactly` | lib/arinc_615a/TargetId.cpp:38-53 | for every identifier, also with separators in its parts: its text passes the check exactly when it is valid |
| `TargetIds.ReadPrinted` | lib/arinc_615a/TargetId.cpp:55-58 | reading the text of an identifier gives it back exactly when its hardware part holds no separator |
| `TargetIds.PrintedRead` | lib/arinc_615a/TargetId.cpp:86-89 | printing what was read gives the text back exactly when it holds a separator; a text passes the check exactly when what is read from it is valid |
| `ProtocolFilenames.ExtensionTable` | lib/arinc_615a/files/ProtocolFilename.cpp:148-169 | file types and extensions determine each other |
| `ProtocolFilenames.FilenameExactly` | lib/arinc_615a/files/ProtocolFilename.cpp:32-37 | over all texts: a file name is an identifier, a point and one of the twelve extensions, and is read as it is spelled |
| `ProtocolFilenames.TypeExactly` | lib/arinc_615a/files/ProtocolFilename.cpp:148-169 | which extension stands for which type |
| `ProtocolFilenames.PrintedValidExactly` | lib/arinc_615a/files/ProtocolFilename.cpp:32-37 | for every name, also malformed ones: its printed form passes the check exactly when it is valid |
| `ProtocolFilenames.ReadPrinted` | lib/arinc_615a/files/ProtocolFilename.cpp:86-91 | reading the printed form of a valid name gives the name back |
| `ProtocolFilenames.PrintedRead` | lib/arinc_615a/files/ProtocolFilename.cpp:138-146 | which texts are printed again as they were read, among them all that pass the check |

## Left out

- `Helper::RawData_getInt`, `RawData_setInt`, `RawData_getString`, `RawData_setString` are not part of this model's sources; they are taken to be big-endian, as the header constants are, and to fail on a short read. Exceptions are modelled as failure results.
- Inheritance: a class holds an object of what it derives from in the original, and virtual calls are resolved. The two download operations are one class with a constant that tells them apart.
- Getters, setters and the plain records of `lib/arinc_615a/information`: they are datatypes here, and so are target identifiers and file names, whose setters replace one part.
- Sizes of type `size_t` and `int64_t` durations are unbounded; the program would have to handle more than 2^63 bytes or seconds for the difference to show.
- Handlers are assumed to return normally and not to call back into the operation, except in `FindReception`, where a handler may throw.
- The TFTP engine, sockets, timers and threads: what they report back is an event of a run, and runs are not restricted to what a real TFTP server would do unless a lemma says so. A transfer the server creates gets a fresh number.
- That the transfer of a requested file cannot be created or started is part of the request, and so is how far a start gets; which exception it was is not modelled.
- The option map of the TFTP library is taken to compare keys exactly, and the port option to be removed when it is read.
- Check values and their computation: reading one from a text is a parameter, and whether the check value of a received list matches is part of the callback.
- The request, answer and load list files the host sends while an operation runs, and the choice of the port option: sending them changes only whether they can be sent again. A failed transmission requests an abort, which is an event of the model.
- Times of day, paths, logging, descriptions of status codes, property trees, configuration, statistics of protocol files, and everything that displays text.
- The target side, batch upload, the Qt user interface and the applications.
- FindPacket.Packet.Encode: the datagram it gives for an invalid opcode or for parameters with NUL characters is modelled, but the model does not say how a peer understands it.
- DownloadOperation.DownloadOperation.ListFileCompleted: the check value plays no part in a download list, so the step is stated for a fixed one.
- ProtocolFile.FileNeverGrows: says nothing on files with a decoded string of 254 characters, because the encoder refuses those.

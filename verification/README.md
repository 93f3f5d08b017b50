# Compression server, modelled in Dafny

The compression server takes one uploaded file over HTTP and answers with a ZIP archive that
holds it. The client names the compression method in the path: `/convert/zipStored`,
`/convert/zipDeflate`, `/convert/zipBzip2` or `/convert/zipLzma`. There are two front ends:

- a raw `http.server` handler that cuts the multipart body apart by hand (`server.py`);
- a Flask route that gets the uploaded files from the framework (`flask_server.py`).

Both drive a `ZipCompressor` (`compressors.py`). It is a small state machine: created, then
`create_archive`, then any number of `put` calls, then one `get_archive_bytes`.

The model has seven modules, one file each:

- `wrappers.dfy` holds `Option`, `Result` and `Outcome`. They stand for Python's `None` results and raised exceptions.
- `sequences.dfy` holds the Python sequence primitives the server relies on, over Dafny sequences:
  - `bytes.find` is `Find`;
  - `split` is `Split`;
  - `join` is `Join`;
  - `list.index` is `IndexOf`.

  It also holds the laws that relate them, chiefly split/join round trips.
- `zip_container.dfy` holds the archive as an ordered list of named entries under one compression method. It defines a byte layout for it, `Encode`, with a reader, `Decode`, that is proved to give back exactly the method and the entries, in order.
- `compressors.dfy` holds two things:
  - the name → method registry;
  - the `ZipCompressor` class, whose fields the methods assign and clear as in the source. A ghost entry list and a `Valid()` invariant tie the buffer to the entries put so far.
- `multipart.dfy` holds three pieces of the raw server:
  - `strip_http_headers`;
  - the body cutting of `_split_body`;
  - the `filename="(.+)"` match of `_parse_split_body`.
- `server.dfy` holds the raw handler in two forms:
  - as pure reply functions;
  - as a handler class that writes status, headers and body step by step, proved to send what the functions say.
- `flask_server.dfy` holds the Flask route: a reply function and the route method that drives one compressor.

Behaviours of the code a reader may not expect, all modelled as the code has them:

- The raw server reads the file name before it looks at the path (server.py:61-70). A request with no file name is therefore refused with 400 whatever its path.
- `create_archive` has no check that an archive is already open (compressors.py:26-28). A second call silently drops what was put before.
- A part without an empty line is not answered with "no headers found": `list.index` raises instead, and nothing is sent. The handler class (`DoPost`) and `ServerReplyAsWritten` follow the code; `ServerReply` is the evidently intended reading. This is reported under Findings.
- The callers import `ZIP_COMPRESSOR_TYPES` and `ZipCompressorFactory` (server.py:5, flask_server.py:6) and call `compressor.add_extension` (server.py:95, flask_server.py:31). `compressors.py` defines none of the three: it holds the two classes `AbstractCompressor` and `ZipCompressor`, and its registry is the shared `COMPRESSORS` instances (compressors.py:44-49). So:
  - the registry is modelled as the same four names mapped to compression methods;
  - the factory is a fresh `ZipCompressor` per request;
  - `add_extension` is a function parameter.

## Model

| member | source | states |
|---|---|---|
| Sequences.Find | server.py:14 | `find` returns the leftmost occurrence at or after the start, and no occurrence is skipped; None (Python's -1) means there is none |
| Sequences.FindFirst | server.py:14 | the first occurrence is the position `find` returns |
| Sequences.FindNone | server.py:14 | `find` reports -1 (None) exactly when the separator occurs nowhere |
| Sequences.Split | server.py:34 | `split` yields at least one piece |
| Sequences.SplitPiecesFree | server.py:34 | no piece of a split contains the separator |
| Sequences.SplitAt | server.py:34 | when p is the leftmost occurrence of the separator, the first piece is everything before p and the other pieces are the split of what follows the occurrence |
| Sequences.SplitCons | server.py:34 | `(x + sep + y).split(sep)` is `[x] + y.split(sep)` when x holds no separator |
| Sequences.Join | server.py:45-46 | `CRLF.join(lines)`: the parts with the separator between each two; JoinSplit and SplitJoin relate it to `split` |
| Sequences.JoinSplit | server.py:34-46 | joining the pieces of a split with the separator gives back the original sequence |
| Sequences.SplitJoin | server.py:34-46 | splitting a join of separator-free pieces gives back the pieces |
| Sequences.SplitAppend | server.py:34 | `(a + sep + b).split(sep)` is `a.split(sep) + b.split(sep)` when occurrences of sep cannot overlap |
| Sequences.JoinHasPart | server.py:117 | every part occurs somewhere in the join of the parts |
| Sequences.IndexOf | server.py:40 | `list.index` finds the first position that holds the value; None (ValueError) exactly when the value is absent |
| ZipContainer.MethodFromId | compressors.py:45-48 | the method byte read back is the one each method writes, and the method bytes are 0, 8, 12 and 14 |
| ZipContainer.MethodIdRoundTrip | compressors.py:45-48 | reading a method's byte gives back that method |
| ZipContainer.DecodeEncodeNat | compressors.py:30-31 | a length written in the stand-in layout reads back as the same number, leaving the rest |
| ZipContainer.DecodeEncodeChars | compressors.py:30-31 | an entry name written in the stand-in layout reads back as the same name, leaving the rest |
| ZipContainer.DecodeEncodeEntry | compressors.py:30-31 | one written entry reads back as the same name and content, leaving the rest |
| ZipContainer.RecordsAppend | compressors.py:30-31 | writing one more entry appends its record; earlier records are unchanged |
| ZipContainer.DecodeRecordsOfRecords | compressors.py:30-34 | the records of the entries put, up to the end record, read back as exactly those entries in order |
| ZipContainer.DecodeEncode | compressors.py:33-41 | reading the archive bytes gives back the compression method and exactly the entries written, in order |
| ZipContainer.Encode | compressors.py:33-41 | the archive bytes: the method value, one record per entry in the order put, then the end record with the count; DecodeEncode states what they hold |
| ZipContainer.Decode | compressors.py:33-41 | reads the method and the entries back, None for bytes that are not such an archive; DecodeEncode makes it the inverse of Encode |
| Compressors.RegistryContents | compressors.py:44-49 | the registry has exactly the keys zipStored, zipDeflate, zipBzip2 and zipLzma; they map to stored, deflated, bzip2 and lzma, four distinct methods with ZIP method values 0, 8, 12 and 14 |
| Compressors.RegistryNamesListKeys | compressors.py:44-49 | the declared order lists each registered name exactly once |
| Compressors.ZipCompressor.constructor | compressors.py:21-24 | a new compressor has its compression type fixed, no buffer and no writer |
| Compressors.ZipCompressor.CreateArchive | compressors.py:26-28 | afterwards the archive is open with zero entries, whatever was open before |
| Compressors.ZipCompressor.Put | compressors.py:30-31 | on an open archive, appends exactly one entry at the end; without one it fails and changes nothing; duplicate names are kept |
| Compressors.ZipCompressor.GetArchiveBytes | compressors.py:33-41 | on an open archive, returns bytes that decode to exactly the entries put, then releases buffer and writer; otherwise fails; either way the compressor ends with no archive |
| Compressors.ArchiveOneFile | tests.py:45-71 | one create, put and get gives an archive holding exactly that file, for every method |
| Compressors.PutAfterArchiveBytes | tests.py:23-32 | a put after the archive bytes were taken fails |
| Compressors.ArchiveBytesTwice | tests.py:34-43 | the second request for the archive bytes fails |
| Compressors.UseBeforeCreate | compressors.py:21-34 | put and get_archive_bytes both fail before create_archive |
| Compressors.CreateArchiveAgain | compressors.py:26-28 | a second create_archive discards the entries put before it |
| Compressors.DuplicateNames | compressors.py:30-31 | two puts under one name leave both entries in the archive, in order |
| Multipart.StripHttpHeaders | server.py:13-17 | the reply after the first CRLF CRLF, or the whole reply when it has none |
| Multipart.StripHttpHeadersOfReply | server.py:13-17 | a head in which no blank line starts early is removed and exactly the payload remains |
| Multipart.PartLines | server.py:34-38 | the lines of the first part; None (the IndexError of `body_lines[-1]`) exactly when the body holds no CRLF |
| Multipart.TrimLines | server.py:35-38 | drops at most the final empty line and the closing line: a prefix of the lines one or two shorter, None only for no lines |
| Multipart.SplitBody | server.py:34-46 | the intended cutting into header block and content, NoHeaders for a part without an empty line; SplitBodyOfMultipartBody and PartWithoutBlankLine state its results |
| Multipart.SplitBodyAsWritten | server.py:34-46 | the cutting as written, where a part without an empty line raises; PartWithoutBlankLine and SplitBodyOfMultipartBody state its results |
| Multipart.LinesOfMultipartBody | server.py:34 | a body `delim CRLF H CRLF CRLF C CRLF close [CRLF]` splits into the delimiter, the lines of H, an empty line, the lines of C, the closing line and an empty line after a final CRLF |
| Multipart.SplitClosingLine | server.py:34-38 | the closing line splits into the closing delimiter, plus one empty line when a CRLF follows it |
| Multipart.TrimClosing | server.py:35-38 | dropping a final empty line and then the closing delimiter line leaves exactly the lines of the part |
| Multipart.TrimTrailingEmpty | server.py:36-37 | a final empty line after a non-empty last line is dropped, so the result is as without it |
| Multipart.PartLinesOfMultipartBody | server.py:34-38 | the part lines of a well-formed body are the header lines, one empty line and the content lines, with or without the final CRLF |
| Multipart.SplitBodyOfMultipartBody | server.py:34-46 | a well-formed body whose header block has no empty line yields exactly (H, C), even when C is empty or holds CRLFs and blank lines |
| Multipart.TrailingCrlfTolerated | server.py:36-38 | adding a final CRLF to a body does not change the part lines |
| Multipart.SingleLineBodyCrashes | server.py:34-36 | a body without CRLF makes `body_lines[-1]` raise |
| Multipart.PartWithoutBlankLine | server.py:40-43 | a part with no empty line is "no headers" in the intended reading, and an exception in the code as written |
| Multipart.NoBlankLineExample | server.py:40-43 | the body `--b CRLF A CRLF --b--` is "no headers" in the intended reading and raises in the code as written |
| Multipart.LineEnd | server.py:62 | the end of the line: the first newline at or after the start, or the end of the text |
| Multipart.LastQuote | server.py:62 | the last double quote in a range, where the greedy `.+` stops |
| Multipart.MatchAt | server.py:62 | what `filename="(.+)"` captures at one index; MatchAtSound, MatchAtComplete and MatchUnique tie it to the pattern |
| Multipart.MatchAtSound | server.py:62 | what the matcher captures at an index is a match of `filename="(.+)"` there |
| Multipart.MatchAtComplete | server.py:62 | every match of the pattern at an index is what the matcher captures there |
| Multipart.MatchUnique | server.py:62 | at an index the pattern captures at most one name |
| Multipart.FindFileNameFrom | server.py:62-68 | the capture of the leftmost match at or after the start, None when there is none |
| Multipart.FindFileName | server.py:62-68 | `findall(...)[0]`: the name of the leftmost match, non-empty and without a newline; None exactly when nothing matches |
| Multipart.FileNameOfHeader | server.py:62-68 | `... filename="name" rest-of-line` yields exactly `name` when the rest of the line holds no quote |
| Multipart.FileNameIsGreedy | server.py:62 | `filename="a.txt"; size="3"` captures `a.txt"; size="3`: the match runs to the last quote of the line |
| Server.ParsePathOfConvert | server.py:73-81 | `/convert/<type>` with no slash in the type is accepted with that type |
| Server.ParsePathSound | server.py:73-81 | an accepted path is `/convert/` followed by the type, and the type has no slash |
| Server.ParsePathSpec | server.py:73-81 | a path is accepted with type t exactly when it is `/convert/` + t and t has no slash |
| Server.ParsePath | server.py:73-81 | the three-part check of the path; ParsePathSpec states exactly which paths it accepts and with which type |
| Server.QuotedNames | server.py:117 | each name of the set is printed between single quotes, in order |
| Server.SetRepr | server.py:117 | the registry printed as a Python set of strings; SetReprHolds states that every name appears quoted |
| Server.BadTypeText | server.py:114-118 | the bad-type message; BadTypeTextNamesType and BadTypeTextNamesRegistry state what it holds |
| Server.BadTypeTextNamesType | server.py:114-116 | the bad-type message names the rejected type between `('` and `')` |
| Server.BadTypeTextNamesRegistry | server.py:111-119 | the bad-type message lists every registered name, quoted |
| Server.SetReprHolds | server.py:117 | the printed set holds every one of its names, quoted |
| Server.ArchiveReply | server.py:99-104 | the 200 reply with the zip content type and the attachment name; ArchiveReplyDecodes states what it carries |
| Server.ParseUrlReply | server.py:72-97 | the reply decided by the path, then the type, then the archive; ParseSplitBodyCases states its cases |
| Server.ParseSplitBodyReply | server.py:61-70 | the file name is looked up first, then the path; ParseSplitBodyCases states its cases |
| Server.SplitReply | server.py:40-48 | nothing on an exception, the no-headers reply on NoHeaders, otherwise the reply to the decoded header block and the content |
| Server.ServerReply | server.py:27-104 | the intended reply to a POST; WellFormedUploadIsArchived and NoHeadersAnswered state its results |
| Server.ServerReplyAsWritten | server.py:27-104 | the reply to a POST as the code is written; AsWrittenNeverSendsNoHeaders and NoHeadersAnswered state its results |
| Server.ParseSplitBodyCases | server.py:61-88 | the reply is 200 exactly when a name is found, the path is `/convert/<type>` and the type is registered; otherwise the checks run in the order name (400), path (404), type (400) |
| Server.ArchiveReplyDecodes | server.py:87-104 | a 200 reply carries the zip headers and an archive holding exactly the one file under its found name, with the registered method |
| Server.WellFormedUploadIsArchived | server.py:30-104 | a well-formed one-file upload to `/convert/<registered type>` is answered 200 with the zip headers and an archive that holds exactly that file under its header's name, both as written and intended |
| Server.AsWrittenNeverSendsNoHeaders | server.py:40-56 | as written, the server never sends its "no headers found" reply; where that was meant, it sends nothing |
| Server.NoHeadersReplyDistinct | server.py:53-56 | the "no headers" reply differs from the "no filename" and "bad path" replies |
| Server.NoHeadersNotBadType | server.py:53-56 | the "no headers" reply differs from every bad-type reply |
| Server.NoHeadersAnswered | server.py:40-56 | for every body whose part has no empty line, the intended server answers 400 "no headers found" and the server as written sends nothing |
| Server.NoHeadersExample | server.py:40-56 | the body `--b CRLF A CRLF --b--` is such a body: 400 "no headers found" when intended, nothing as written |
| Server.CompressionRequestHandler.constructor | server.py:59 | a handler starts with nothing sent and no compressor created |
| Server.CompressionRequestHandler.SendResponse | server.py:100 | records the status; headers and body unchanged |
| Server.CompressionRequestHandler.SendHeader | server.py:101-102 | appends one header after those already sent |
| Server.CompressionRequestHandler.Write | server.py:104 | records the body |
| Server.CompressionRequestHandler.AnswerNoHeadersFound | server.py:53-56 | sends 400 with "Error: no headers found in your request" |
| Server.CompressionRequestHandler.AnswerNoFilenameFound | server.py:121-124 | sends 400 with "Error: no filename header found in your request" |
| Server.CompressionRequestHandler.AnswerBadPostPath | server.py:106-109 | sends 404 with "Error: bad path" and a newline |
| Server.CompressionRequestHandler.AnswerBadPostOutputType | server.py:111-119 | sends 400 with the bad-type message |
| Server.CompressionRequestHandler.AnswerArchiveBytes | server.py:99-104 | sends 200, `Content-Type: application/zip`, `Content-Disposition: attachment;filename=<name>` and the archive |
| Server.CompressionRequestHandler.CreateArchive | server.py:90-97 | drives a fresh compressor once through create, put and get, and sends the archive named with the extension added |
| Server.CompressionRequestHandler.ParseUrl | server.py:72-88 | sends what the path and type checks decide; a compressor is created exactly when the reply is 200 |
| Server.CompressionRequestHandler.ParseSplitBody | server.py:61-70 | sends "no filename" when the pattern does not match, and otherwise what the path decides; a compressor is created exactly when the reply is 200 |
| Server.CompressionRequestHandler.DoPost | server.py:27-48 | sends exactly the reply of the code as written, which is nothing when the code raises (a body without CRLF, a part without an empty line, a header block that is not UTF-8); it never sends "no headers found"; a compressor is created exactly when the reply is 200 |
| FlaskServer.OnlyKey | flask_server.py:21 | the first key of a one-field upload is its only key |
| FlaskServer.FlaskReply | flask_server.py:11-32 | the route's response: type check, then number of fields, then number of files; FlaskReplyCases states its cases |
| FlaskServer.FormatCheckedFirst | flask_server.py:13-15 | an unregistered type gets 400 "BAD_REQUEST: Format not supported", whatever was uploaded |
| FlaskServer.FlaskReplyCases | flask_server.py:13-32 | the archive is sent exactly when the type is registered and there is one field holding one file; an unregistered type gets 400 "BAD_REQUEST: Format not supported", and a registered type with any other upload gets 400 "BAD_REQUEST: Single file should be sent" |
| FlaskServer.ArchiveHoldsFieldName | flask_server.py:21-32 | the archive holds the one file under its form field name, and the attachment is named after the field |
| FlaskServer.UploadNamesIgnored | flask_server.py:21-31 | the names the client gave the files do not affect the response |
| FlaskServer.HandleRequest | flask_server.py:11-32 | returns the reply the guards and the archive determine; one compressor is created on success and none on a refusal |

## Left out

- Server.ArchiveReply: the header lines are not encoded. `send_header` encodes each header line as Latin-1 and raises on any other character. So a file name from the header block with a character above U+00FF (server.py:102) makes the real server raise and send nothing, where the model answers 200.
- Server.CompressionRequestHandler.AnswerArchiveBytes: for the same reason, the model sends 200 where a Content-Disposition value with a character above U+00FF makes the real server raise before any byte is sent.
- Sockets and HTTP plumbing (server.py:7-10, 20-32, 127-134) are out of scope: port parsing, reading `Content-Length` bytes from the stream, the response framing and `main`. A reply is a returned value, and the request body is a parameter.
- `send_response` also sends `Server` and `Date` headers. They depend on the library version and the clock and are not modelled.
- An exception raised inside the handler is modelled as `NoAnswer`. The library's error logging and connection handling are not part of this model.
- `log_message` is not modelled; it only silences logging.
- The real ZIP container and the deflate, bzip2 and lzma algorithms are not modelled. The zipfile library writes them (compressors.py:28, 31, 34). The archive bytes are a stand-in layout with the same shape: the method value, one record per entry in order, and a closing record with the entry count. Content is stored uncompressed. What is proved is the round trip from entries to bytes and back.
- zipfile's rewriting of member names (for example, cutting a name at a NUL character) is not modelled. Entries keep their names as given.
- UTF-8 decoding of the header block (server.py:45) is the parameter `decodeUtf8`. A failed decode is modelled as the handler raising.
- The text bodies of error replies are kept as strings. Their UTF-8 encoding to bytes (server.py:114-118) is not modelled.
- `add_extension` is the parameter `addExtension`, because its definition is not part of this model.
- The registry's printed set (server.py:117) is modelled in declaration order. Python's set order depends on string hashing and varies between runs.
- The shared `COMPRESSORS` instances (compressors.py:44-49) and concurrent requests are not modelled. Each request gets a fresh compressor, as the callers' factory does.
- The `_parse_split_body` stub of the base handler (server.py:50-51) is not modelled. It only has a meaning through the subclass.
- Flask routing, `send_file` headers and MIME type, and the `render_template` front end (flask_server.py:10, 32, 34-37) are not modelled. A success is modelled as the archive bytes plus the attachment name.
- The upload is modelled as a map from field name to the list of files under it. `next(keys())` is modelled as the only key, which is all the route reaches after checking that there is exactly one.
- Regular expressions in general are not modelled. Only the one pattern `filename="(.+)"` is modelled, over an already decoded string.

## Findings

| source | as written | input that shows it | evidently intended | confidence | as-written member | corrected member |
|---|---|---|---|---|---|---|
| server.py:40-43 | `body_lines.index(b'')` raises ValueError when the part has no empty line, so the `== -1` branch never runs and no reply is sent | the body `--b` CRLF `A` CRLF `--b--` | answer 400 "Error: no headers found in your request" | not executed | Server.AsWrittenNeverSendsNoHeaders | Server.NoHeadersAnswered |

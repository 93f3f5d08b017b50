/**
 * The raw HTTP compression server: a POST to `/convert/<type>` whose multipart body carries one
 * file is answered with a ZIP archive holding that file, or with an error status and message.
 *
 * The decisions are pure functions from the request path and body to the reply; the handler
 * class below takes the same steps as the request handler, writing the status, the headers
 * and the body into its own fields, and is proved to send exactly what those functions say.
 */
module Server {
  import opened Wrappers
  import opened Sequences
  import opened ZipContainer
  import opened Compressors
  import opened Multipart

  /** A response body: text the handler writes as a message, or the archive bytes. */
  datatype Body = Text(text: string) | Binary(bytes: seq<byte>)

  /** What the client receives: a status, headers and a body, or nothing when the handler raised. */
  datatype Reply = Answer(status: int, headers: seq<(string, string)>, body: Body) | NoAnswer

  const NoHeadersText: string := "Error: no headers found in your request"
  const NoFilenameText: string := "Error: no filename header found in your request"
  const BadPathText: string := "Error: bad path\n"

  const NoHeadersReply: Reply := Answer(400, [], Text(NoHeadersText))
  const NoFilenameReply: Reply := Answer(400, [], Text(NoFilenameText))
  const BadPathReply: Reply := Answer(404, [], Text(BadPathText))

  // ---------------------------------------------------------------- _parse_url

  /** The output type of a path `/convert/<type>`: split on "/", exactly three parts, "" and "convert" first. */
  function ParsePath(path: string): Option<string> {
    var parts := Split(path, "/");
    if |parts| != 3 || parts[0] != "" || parts[1] != "convert" then None else Some(parts[2])
  }

  lemma SlashUnbordered()
    ensures Unbordered("/")
  {
  }

  lemma FreeOfSlash(s: string)
    requires '/' !in s
    ensures Free(s, "/")
  {
    forall i: nat ensures !ContainsAt(s, "/", i) {
      if i + 1 <= |s| {
        assert s[i..i + 1][0] == s[i];
      }
    }
  }

  /** `/convert/` + t is the empty string, a slash, `convert`, a slash and t. */
  lemma ConvertPath(t: string)
    ensures "/convert/" + t == [] + "/" + ("convert" + "/" + t)
  {
    assert "/convert/" == "/" + "convert" + "/";
  }

  lemma ParsePathOfConvert(t: string)
    requires '/' !in t
    ensures ParsePath("/convert/" + t) == Some(t)
  {
    SlashUnbordered();
    FreeOfSlash([]);
    FreeOfSlash("convert");
    FreeOfSlash(t);
    SplitFree(t, "/");
    ConvertPath(t);
    SplitCons([], "/", "convert" + "/" + t);
    SplitCons("convert", "/", t);
  }

  lemma ParsePathSound(path: string)
    requires ParsePath(path).Some?
    ensures path == "/convert/" + ParsePath(path).value && '/' !in ParsePath(path).value
  {
    var parts := Split(path, "/");
    var t := parts[2];
    JoinSplit(path, "/");
    SplitPiecesFree(path, "/");
    assert parts == [parts[0]] + [parts[1], t] && [parts[1], t] == [parts[1]] + [t];
    JoinCons(parts[0], [parts[1], t], "/");
    JoinCons(parts[1], [t], "/");
    ConvertPath(t);
    forall i | 0 <= i < |t| ensures t[i] != '/' {
      assert !ContainsAt(t, "/", i);
      assert t[i..i + 1][0] == t[i];
    }
  }

  /** A path is accepted exactly when it is `/convert/` followed by a type without a slash. */
  lemma ParsePathSpec(path: string, t: string)
    ensures ParsePath(path) == Some(t) <==> path == "/convert/" + t && '/' !in t
  {
    if path == "/convert/" + t && '/' !in t {
      ParsePathOfConvert(t);
    }
    if ParsePath(path) == Some(t) {
      ParsePathSound(path);
    }
  }

  /** The registry names as Python prints a set of strings: `{'a', 'b'}`. */
  function QuotedNames(names: seq<string>): (r: seq<string>)
    ensures |r| == |names|
    ensures forall i :: 0 <= i < |names| ==> r[i] == "'" + names[i] + "'"
  {
    if |names| == 0 then [] else ["'" + names[0] + "'"] + QuotedNames(names[1..])
  }

  function SetRepr(names: seq<string>): string {
    "{" + Join(QuotedNames(names), ", ") + "}"
  }

  const BadTypeLead: string := "Error: bad output type ('"
  const BadTypeMiddle: string := "'). Available: "

  /** The message for an output type that is not registered; the names follow the order of declaration. */
  function BadTypeText(outputType: string): string {
    BadTypeLead + outputType + BadTypeMiddle + SetRepr(RegistryNames) + "\n"
  }

  /** The printed set holds each of its names, quoted. */
  lemma SetReprHolds(names: seq<string>, k: nat)
    requires k < |names|
    ensures exists p: nat :: ContainsAt(SetRepr(names), "'" + names[k] + "'", p)
  {
    var quoted := QuotedNames(names);
    var q := "'" + names[k] + "'";
    var joined := Join(quoted, ", ");
    JoinHasPart(quoted, ", ", k);
    var p: nat :| ContainsAt(joined, q, p);
    ContainsAtShift("{", joined, "}", q, p);
    assert ContainsAt(SetRepr(names), q, 1 + p);
  }

  /** The message lists every registered name, quoted. */
  lemma BadTypeTextNamesRegistry(outputType: string, name: string)
    requires name in ZipCompressorTypes
    ensures exists p: nat :: ContainsAt(BadTypeText(outputType), "'" + name + "'", p)
  {
    RegistryNamesListKeys();
    var k :| 0 <= k < |RegistryNames| && RegistryNames[k] == name;
    var q := "'" + name + "'";
    var repr := SetRepr(RegistryNames);
    SetReprHolds(RegistryNames, k);
    var p: nat :| ContainsAt(repr, q, p);
    var lead := BadTypeLead + outputType + BadTypeMiddle;
    ContainsAtShift(lead, repr, "\n", q, p);
    assert ContainsAt(BadTypeText(outputType), q, |lead| + p);
  }

  /** The message names the rejected type, right after `Error: bad output type ('`. */
  lemma BadTypeTextNamesType(outputType: string)
    ensures |BadTypeLead| == 25
    ensures ContainsAt(BadTypeText(outputType), outputType, 25)
  {
    var lead := BadTypeLead + outputType;
    ContainsAtEnd(BadTypeLead, outputType);
    ContainsAtPrefix(lead, BadTypeMiddle, outputType, 25);
    ContainsAtPrefix(lead + BadTypeMiddle, SetRepr(RegistryNames), outputType, 25);
    ContainsAtPrefix(lead + BadTypeMiddle + SetRepr(RegistryNames), "\n", outputType, 25);
  }

  /** The no-filename and bad-path replies differ from the no-headers one. */
  lemma NoHeadersReplyDistinct()
    ensures NoHeadersReply != NoFilenameReply && NoHeadersReply != BadPathReply
  {
    assert NoHeadersText[10] == 'h' && NoFilenameText[10] == 'f';
  }

  /** Every bad-type reply differs from the no-headers one. */
  lemma NoHeadersNotBadType(outputType: string)
    ensures NoHeadersReply != Answer(400, [], Text(BadTypeText(outputType)))
  {
    var lead := BadTypeLead + outputType;
    var listed := lead + BadTypeMiddle + SetRepr(RegistryNames);
    assert |BadTypeLead| == 25 && BadTypeLead[7] == 'b';
    IndexInPrefix(BadTypeLead, outputType, 7);
    IndexInPrefix(lead, BadTypeMiddle, 7);
    IndexInPrefix(lead + BadTypeMiddle, SetRepr(RegistryNames), 7);
    IndexInPrefix(listed, "\n", 7);
    assert NoHeadersText[7] == 'n';
  }

  /** The 200 reply carrying the archive, named after the file with the archive extension. */
  function ArchiveReply(fileName: string, archive: seq<byte>, addExtension: string -> string): Reply {
    Answer(200, [("Content-Type", "application/zip"), ("Content-Disposition", "attachment;filename=" + addExtension(fileName))],
           Binary(archive))
  }

  /** _parse_url and _create_archive: the path is checked, then the type, then one file is archived. */
  function ParseUrlReply(path: string, fileName: string, fileContent: seq<byte>, addExtension: string -> string): Reply {
    match ParsePath(path)
    case None => BadPathReply
    case Some(outputType) =>
      if outputType !in ZipCompressorTypes then Answer(400, [], Text(BadTypeText(outputType)))
      else ArchiveReply(fileName, Encode(ZipCompressorTypes[outputType], [Entry(fileName, fileContent)]), addExtension)
  }

  /** _parse_split_body: the file name is looked up before the path is looked at. */
  function ParseSplitBodyReply(path: string, headers: string, fileContent: seq<byte>, addExtension: string -> string): Reply {
    match FindFileName(headers)
    case None => NoFilenameReply
    case Some(fileName) => ParseUrlReply(path, fileName, fileContent, addExtension)
  }

  /**
   * _split_body once the body is cut: an exception (no CRLF in the body, a header block that
   * is not UTF-8) sends nothing; a part without an empty line is answered as having no headers.
   */
  function SplitReply(path: string, split: SplitOutcome, decodeUtf8: seq<byte> -> Option<string>,
                      addExtension: string -> string): Reply
  {
    match split
    case Crashed => NoAnswer
    case NoHeaders => NoHeadersReply
    case Parts(headers, fileContent) =>
      match decodeUtf8(headers)
      case None => NoAnswer
      case Some(text) => ParseSplitBodyReply(path, text, fileContent, addExtension)
  }

  /** The reply to a POST of `body` to `path`. */
  function ServerReply(path: string, body: seq<byte>, decodeUtf8: seq<byte> -> Option<string>,
                       addExtension: string -> string): Reply
  {
    SplitReply(path, SplitBody(body), decodeUtf8, addExtension)
  }

  /** The reply as the code is written, where `list.index` raises instead of reporting no headers. */
  function ServerReplyAsWritten(path: string, body: seq<byte>, decodeUtf8: seq<byte> -> Option<string>,
                                addExtension: string -> string): Reply
  {
    SplitReply(path, SplitBodyAsWritten(body), decodeUtf8, addExtension)
  }

  /**
   * Once the body is cut into headers and content, the reply is 200 exactly when a file name is
   * found, the path is `/convert/<type>` and the type is registered; every other reply is a
   * message, chosen in the order file name, path, type.
   */
  lemma ParseSplitBodyCases(path: string, headers: string, fileContent: seq<byte>, addExtension: string -> string)
    ensures var r := ParseSplitBodyReply(path, headers, fileContent, addExtension);
      && r.Answer?
      && (r.status == 200 <==> exists t :: path == "/convert/" + t && '/' !in t && t in ZipCompressorTypes && FindFileName(headers).Some?)
      && (FindFileName(headers).None? ==> r == NoFilenameReply)
      && (FindFileName(headers).Some? && (forall t :: path != "/convert/" + t || '/' in t) ==> r == BadPathReply)
      && (forall t :: FindFileName(headers).Some? && path == "/convert/" + t && '/' !in t && t !in ZipCompressorTypes ==>
            r == Answer(400, [], Text(BadTypeText(t))))
  {
    var r := ParseSplitBodyReply(path, headers, fileContent, addExtension);
    match ParsePath(path)
    case None =>
      forall t ensures !(path == "/convert/" + t && '/' !in t) {
        ParsePathSpec(path, t);
      }
    case Some(outputType) =>
      ParsePathSpec(path, outputType);
      forall t | path == "/convert/" + t && '/' !in t ensures t == outputType {
        ParsePathSpec(path, t);
      }
  }

  /** A 200 reply carries the archive of the single file under its found name, with the registered method. */
  lemma ArchiveReplyDecodes(t: string, headers: string, fileContent: seq<byte>, addExtension: string -> string)
    requires '/' !in t && t in ZipCompressorTypes && FindFileName(headers).Some?
    ensures var r := ParseSplitBodyReply("/convert/" + t, headers, fileContent, addExtension);
      var name := FindFileName(headers).value;
      && r.Answer? && r.body.Binary?
      && r == ArchiveReply(name, r.body.bytes, addExtension)
      && Decode(r.body.bytes) == Some(Archive(ZipCompressorTypes[t], [Entry(name, fileContent)]))
  {
    var name := FindFileName(headers).value;
    ParsePathOfConvert(t);
    var archive := Encode(ZipCompressorTypes[t], [Entry(name, fileContent)]);
    assert ParseUrlReply("/convert/" + t, name, fileContent, addExtension) == ArchiveReply(name, archive, addExtension);
    DecodeEncode(ZipCompressorTypes[t], [Entry(name, fileContent)]);
  }

  /**
   * A well-formed upload of one file to `/convert/<type>` with a registered type is answered
   * with 200 and an archive that holds exactly that file, under the name in its header, by
   * the code as written as well as in the intended reading.
   */
  lemma WellFormedUploadIsArchived(delimiter: seq<byte>, headers: seq<byte>, content: seq<byte>,
                                   closing: seq<byte>, trailingCrlf: bool, t: string,
                                   decodeUtf8: seq<byte> -> Option<string>, addExtension: string -> string)
    requires Free(delimiter, CRLF) && Free(closing, CRLF) && closing != [] && NoBlankLine(headers)
    requires decodeUtf8(headers).Some? && FindFileName(decodeUtf8(headers).value).Some?
    requires '/' !in t && t in ZipCompressorTypes
    ensures var body := MultipartBody(delimiter, headers, content, closing, trailingCrlf);
      var r := ServerReply("/convert/" + t, body, decodeUtf8, addExtension);
      var name := FindFileName(decodeUtf8(headers).value).value;
      && r.Answer? && r.status == 200 && r.body.Binary?
      && r.headers == [("Content-Type", "application/zip"), ("Content-Disposition", "attachment;filename=" + addExtension(name))]
      && Decode(r.body.bytes) == Some(Archive(ZipCompressorTypes[t], [Entry(name, content)]))
      && ServerReplyAsWritten("/convert/" + t, body, decodeUtf8, addExtension) == r
  {
    SplitBodyOfMultipartBody(delimiter, headers, content, closing, trailingCrlf);
    ArchiveReplyDecodes(t, decodeUtf8(headers).value, content, addExtension);
  }

  /** As written, the server never sends its "no headers found" answer, whatever the request. */
  lemma AsWrittenNeverSendsNoHeaders(path: string, body: seq<byte>, decodeUtf8: seq<byte> -> Option<string>,
                                     addExtension: string -> string)
    ensures ServerReplyAsWritten(path, body, decodeUtf8, addExtension) != NoHeadersReply
    ensures SplitBody(body).NoHeaders? ==> ServerReplyAsWritten(path, body, decodeUtf8, addExtension) == NoAnswer
  {
    AsWrittenNeverNoHeaders(body);
    match SplitBodyAsWritten(body)
    case Crashed =>
    case NoHeaders =>
    case Parts(headers, fileContent) =>
      match decodeUtf8(headers)
      case None =>
      case Some(text) =>
        forall t ensures NoHeadersReply != Answer(400, [], Text(BadTypeText(t))) {
          NoHeadersNotBadType(t);
        }
        NoHeadersReplyDistinct();
  }

  /**
   * A part without an empty line: the intended server answers 400 "no headers found", while
   * the server as written raises and sends nothing.
   */
  lemma NoHeadersAnswered(path: string, body: seq<byte>, decodeUtf8: seq<byte> -> Option<string>,
                          addExtension: string -> string)
    requires PartLines(body).Some? && [] !in PartLines(body).value
    ensures ServerReply(path, body, decodeUtf8, addExtension) == NoHeadersReply
    ensures ServerReplyAsWritten(path, body, decodeUtf8, addExtension) == NoAnswer
  {
    PartWithoutBlankLine(body);
  }

  /** The body `--b CRLF A CRLF --b--` is such a part. */
  lemma NoHeadersExample(path: string, decodeUtf8: seq<byte> -> Option<string>, addExtension: string -> string)
    ensures ServerReply(path, [45, 45, 98, 13, 10, 65, 13, 10, 45, 45, 98, 45, 45], decodeUtf8, addExtension) == NoHeadersReply
    ensures ServerReplyAsWritten(path, [45, 45, 98, 13, 10, 65, 13, 10, 45, 45, 98, 45, 45], decodeUtf8, addExtension) == NoAnswer
  {
    NoBlankLineExample();
  }

  // ---------------------------------------------------------------- the request handler

  /** One request handler: the path of the request and the response written so far. */
  class CompressionRequestHandler {
    const path: string
    /** The status sent with send_response, if any. */
    var status: Option<int>
    /** The headers sent with send_header, in order. */
    var headerLines: seq<(string, string)>
    /** What was written to the output stream. */
    var body: Body
    /** How many compressors this handler has created. */
    ghost var compressorsCreated: nat

    /** Nothing has been sent yet. */
    predicate Unanswered()
      reads this
    {
      status.None? && headerLines == [] && body == Binary([])
    }

    /** The reply as the client sees it. */
    function Sent(): Reply
      reads this
    {
      match status
      case None => NoAnswer
      case Some(code) => Answer(code, headerLines, body)
    }

    constructor (path: string)
      ensures this.path == path && Unanswered() && compressorsCreated == 0
    {
      this.path := path;
      status := None;
      headerLines := [];
      body := Binary([]);
      compressorsCreated := 0;
    }

    method SendResponse(code: int)
      requires status.None?
      modifies this
      ensures status == Some(code) && headerLines == old(headerLines) && body == old(body)
      ensures compressorsCreated == old(compressorsCreated)
    {
      status := Some(code);
    }

    method SendHeader(keyword: string, value: string)
      modifies this
      ensures headerLines == old(headerLines) + [(keyword, value)] && status == old(status) && body == old(body)
      ensures compressorsCreated == old(compressorsCreated)
    {
      headerLines := headerLines + [(keyword, value)];
    }

    /** Each answer writes its body in one call. */
    method Write(data: Body)
      modifies this
      ensures body == data && status == old(status) && headerLines == old(headerLines)
      ensures compressorsCreated == old(compressorsCreated)
    {
      body := data;
    }

    method AnswerNoHeadersFound()
      requires Unanswered()
      modifies this
      ensures Sent() == NoHeadersReply && compressorsCreated == old(compressorsCreated)
    {
      SendResponse(400);
      Write(Text(NoHeadersText));
    }

    method AnswerNoFilenameFound()
      requires Unanswered()
      modifies this
      ensures Sent() == NoFilenameReply && compressorsCreated == old(compressorsCreated)
    {
      SendResponse(400);
      Write(Text(NoFilenameText));
    }

    method AnswerBadPostPath()
      requires Unanswered()
      modifies this
      ensures Sent() == BadPathReply && compressorsCreated == old(compressorsCreated)
    {
      SendResponse(404);
      Write(Text(BadPathText));
    }

    method AnswerBadPostOutputType(outputType: string)
      requires Unanswered()
      modifies this
      ensures Sent() == Answer(400, [], Text(BadTypeText(outputType))) && compressorsCreated == old(compressorsCreated)
    {
      SendResponse(400);
      Write(Text(BadTypeText(outputType)));
    }

    method AnswerArchiveBytes(archiveName: string, archiveBytes: seq<byte>)
      requires Unanswered()
      modifies this
      ensures Sent() == Answer(200, [("Content-Type", "application/zip"), ("Content-Disposition", "attachment;filename=" + archiveName)],
                               Binary(archiveBytes))
      ensures compressorsCreated == old(compressorsCreated)
    {
      SendResponse(200);
      SendHeader("Content-Type", "application/zip");
      SendHeader("Content-Disposition", "attachment;filename=" + archiveName);
      Write(Binary(archiveBytes));
    }

    /** A fresh compressor creates the archive, takes the one file and hands back the bytes. */
    method CreateArchive(compressor: ZipCompressor, fileName: string, fileContent: seq<byte>, addExtension: string -> string)
      requires Unanswered() && compressor.Valid() && !compressor.IsOpen()
      modifies this, compressor
      ensures Sent() == ArchiveReply(fileName, Encode(compressor.compressionType, [Entry(fileName, fileContent)]), addExtension)
      ensures compressorsCreated == old(compressorsCreated)
    {
      compressor.CreateArchive();
      var put := compressor.Put(fileName, fileContent);
      assert compressor.entries == [Entry(fileName, fileContent)];
      var archiveBytes := compressor.GetArchiveBytes();
      var archiveName := addExtension(fileName);
      AnswerArchiveBytes(archiveName, archiveBytes.value);
    }

    method ParseUrl(fileName: string, fileContent: seq<byte>, addExtension: string -> string)
      requires Unanswered()
      modifies this
      ensures Sent() == ParseUrlReply(path, fileName, fileContent, addExtension)
      ensures compressorsCreated == old(compressorsCreated) + (if Sent().status == 200 then 1 else 0)
    {
      var splitPath := Split(path, "/");
      if |splitPath| != 3 {
        AnswerBadPostPath();
        return;
      }
      if splitPath[0] != "" || splitPath[1] != "convert" {
        AnswerBadPostPath();
        return;
      }
      var outputType := splitPath[2];
      if outputType !in ZipCompressorTypes {
        AnswerBadPostOutputType(outputType);
        return;
      }
      var compressor := new ZipCompressor(ZipCompressorTypes[outputType]);
      compressorsCreated := compressorsCreated + 1;
      CreateArchive(compressor, fileName, fileContent, addExtension);
    }

    method ParseSplitBody(headers: string, fileContent: seq<byte>, addExtension: string -> string)
      requires Unanswered()
      modifies this
      ensures Sent() == ParseSplitBodyReply(path, headers, fileContent, addExtension)
      ensures compressorsCreated == old(compressorsCreated) + (if Sent().status == 200 then 1 else 0)
    {
      var foundName := FindFileName(headers);
      if foundName.None? {
        AnswerNoFilenameFound();
        return;
      }
      ParseUrl(foundName.value, fileContent, addExtension);
    }

    /**
     * do_POST as written: cuts the body, decodes the header block and hands both on. An
     * exception sends nothing, and that includes `list.index` finding no empty line, so the
     * "no headers found" answer is never reached from here.
     */
    method DoPost(requestBody: seq<byte>, decodeUtf8: seq<byte> -> Option<string>, addExtension: string -> string)
      requires Unanswered()
      modifies this
      ensures Sent() == ServerReplyAsWritten(path, requestBody, decodeUtf8, addExtension)
      ensures Sent() != NoHeadersReply
      ensures compressorsCreated == old(compressorsCreated) + (if Sent().Answer? && Sent().status == 200 then 1 else 0)
    {
      AsWrittenNeverSendsNoHeaders(path, requestBody, decodeUtf8, addExtension);
      var lines := PartLines(requestBody);
      if lines.None? {
        return;
      }
      var headersEnd := IndexOf(lines.value, []);
      if headersEnd.None? {
        // ValueError from `list.index`: the check for -1 after it never runs.
        return;
      }
      var k := headersEnd.value;
      var headers := decodeUtf8(Join(lines.value[..k], CRLF));
      if headers.None? {
        return;
      }
      var fileContent := Join(lines.value[k + 1..], CRLF);
      ParseSplitBody(headers.value, fileContent, addExtension);
    }
  }
}

/**
 * The Flask front end: `POST /convert/<output_type>` with exactly one uploaded file is answered
 * with a ZIP archive holding that file under the name of its form field.
 *
 * The uploaded files are a map from form field name to the files sent under that name, as a
 * multi-valued form dictionary holds them; the number of fields is the number of keys.
 */
module FlaskServer {
  import opened Wrappers
  import opened Sequences
  import opened ZipContainer
  import opened Compressors

  /** One uploaded file: the name the client gave it and its bytes. */
  datatype Upload = Upload(fileName: string, content: seq<byte>)

  /** A plain response with a status and a message, or the archive sent as an attachment. */
  datatype FlaskResponse = Plain(status: int, text: string) | Attachment(data: seq<byte>, attachmentName: string)

  const FormatNotSupported: string := "BAD_REQUEST: " + "Format not supported"
  const SingleFileOnly: string := "BAD_REQUEST: " + "Single file should be sent"

  /** The one key of a map with exactly one key. */
  function OnlyKey<V>(m: map<string, V>): (k: string)
    requires |m| == 1
    ensures k in m && m.Keys == {k}
  {
    assert forall a, b :: a in m && b in m ==> a == b by {
      forall a, b | a in m && b in m ensures a == b {
        if a != b {
          assert {a, b} <= m.Keys;
          assert |{a, b}| == 2;
          SubsetCardinality({a, b}, m.Keys);
        }
      }
    }
    var k :| k in m; k
  }

  lemma SubsetCardinality<T>(a: set<T>, b: set<T>)
    requires a <= b
    ensures |a| <= |b|
  {
    assert b == a + (b - a);
  }

  /** handle_request: the output type is checked first, then the number of fields, then the number of files in the field. */
  function FlaskReply(outputType: string, files: map<string, seq<Upload>>, addExtension: string -> string): FlaskResponse {
    if outputType !in ZipCompressorTypes then Plain(400, FormatNotSupported)
    else if |files| != 1 then Plain(400, SingleFileOnly)
    else
      var fileKey := OnlyKey(files);
      if |files[fileKey]| != 1 then Plain(400, SingleFileOnly)
      else
        var file := files[fileKey][0];
        Attachment(Encode(ZipCompressorTypes[outputType], [Entry(fileKey, file.content)]), addExtension(fileKey))
  }

  /** An unregistered output type is refused whatever was uploaded. */
  lemma FormatCheckedFirst(outputType: string, files: map<string, seq<Upload>>, others: map<string, seq<Upload>>,
                           addExtension: string -> string)
    requires outputType !in ZipCompressorTypes
    ensures FlaskReply(outputType, files, addExtension) == Plain(400, FormatNotSupported)
    ensures FlaskReply(outputType, files, addExtension) == FlaskReply(outputType, others, addExtension)
  {
  }

  /**
   * The archive is sent exactly when the type is registered and the request holds one field
   * with one file in it. Every refusal is a 400: "Format not supported" exactly when the type
   * is not registered, and "Single file should be sent" for a registered type with any other
   * upload.
   */
  lemma FlaskReplyCases(outputType: string, files: map<string, seq<Upload>>, addExtension: string -> string)
    ensures var r := FlaskReply(outputType, files, addExtension);
      && (r.Attachment? <==> outputType in ZipCompressorTypes && exists k :: files.Keys == {k} && |files[k]| == 1)
      && (r.Plain? ==> r.status == 400 && (r.text == FormatNotSupported || r.text == SingleFileOnly))
      && (outputType !in ZipCompressorTypes ==> r == Plain(400, FormatNotSupported))
      && (outputType in ZipCompressorTypes && r.Plain? ==> r == Plain(400, SingleFileOnly))
  {
    var r := FlaskReply(outputType, files, addExtension);
    if exists k :: files.Keys == {k} && |files[k]| == 1 {
      var k :| files.Keys == {k} && |files[k]| == 1;
      assert |files| == |files.Keys| == 1;
      assert OnlyKey(files) == k;
    }
  }

  /**
   * The archive holds the one file under its form field name, not under the name the client
   * gave the file, and the attachment is named after the field.
   */
  lemma ArchiveHoldsFieldName(outputType: string, fileKey: string, upload: Upload, addExtension: string -> string)
    requires outputType in ZipCompressorTypes
    ensures var r := FlaskReply(outputType, map[fileKey := [upload]], addExtension);
      && r.Attachment? && r.attachmentName == addExtension(fileKey)
      && Decode(r.data) == Some(Archive(ZipCompressorTypes[outputType], [Entry(fileKey, upload.content)]))
  {
    var files := map[fileKey := [upload]];
    assert files.Keys == {fileKey};
    assert OnlyKey(files) == fileKey;
    DecodeEncode(ZipCompressorTypes[outputType], [Entry(fileKey, upload.content)]);
  }

  /** Uploads that differ only in the names the client gave the files get the same response. */
  lemma UploadNamesIgnored(outputType: string, files: map<string, seq<Upload>>, renamed: map<string, seq<Upload>>,
                           addExtension: string -> string)
    requires files.Keys == renamed.Keys
    requires forall k :: k in files ==> |files[k]| == |renamed[k]|
    requires forall k, i :: k in files && 0 <= i < |files[k]| ==> files[k][i].content == renamed[k][i].content
    ensures FlaskReply(outputType, files, addExtension) == FlaskReply(outputType, renamed, addExtension)
  {
    if outputType in ZipCompressorTypes && |files| == 1 {
      assert |renamed| == |renamed.Keys| == |files.Keys| == 1;
      var k := OnlyKey(files);
      assert OnlyKey(renamed) == k;
    }
  }

  /**
   * The route itself: the guards return before any compressor exists; past them one fresh
   * compressor goes once through create_archive, put and get_archive_bytes.
   */
  method HandleRequest(outputType: string, files: map<string, seq<Upload>>, addExtension: string -> string)
    returns (response: FlaskResponse, ghost compressorsCreated: nat)
    ensures response == FlaskReply(outputType, files, addExtension)
    ensures compressorsCreated == (if response.Attachment? then 1 else 0)
  {
    compressorsCreated := 0;
    if !(outputType in ZipCompressorTypes) {
      var error := "Format not supported";
      return Plain(400, "BAD_REQUEST: " + error), compressorsCreated;
    }
    if |files| != 1 {
      var error := "Single file should be sent";
      return Plain(400, "BAD_REQUEST: " + error), compressorsCreated;
    }
    var fileKey := OnlyKey(files);
    if |files[fileKey]| != 1 {
      var error := "Single file should be sent";
      return Plain(400, "BAD_REQUEST: " + error), compressorsCreated;
    }
    var file := files[fileKey][0];

    var compressor := new ZipCompressor(ZipCompressorTypes[outputType]);
    compressorsCreated := compressorsCreated + 1;
    compressor.CreateArchive();
    var put := compressor.Put(fileKey, file.content);
    assert compressor.entries == [Entry(fileKey, file.content)];
    var archiveContent := compressor.GetArchiveBytes();
    var archiveName := addExtension(fileKey);
    response := Attachment(archiveContent.value, archiveName);
  }
}

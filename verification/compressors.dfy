/**
 * The archive builder: a ZipCompressor wraps one in-memory buffer and one zip writer bound to
 * it, and goes through create_archive, put and get_archive_bytes. Also the registry that maps
 * the user-facing format names to compression methods.
 */
module Compressors {
  import opened Wrappers
  import opened Sequences
  import opened ZipContainer

  /** The registry of format names the servers accept, and the method each one selects. */
  const ZipCompressorTypes: map<string, CompressionType> :=
    map["zipStored" := Stored, "zipDeflate" := Deflated, "zipBzip2" := Bzip2, "zipLzma" := Lzma]

  /** Exactly four names, each selecting its own method, with the ZIP method values 0, 8, 12 and 14. */
  lemma RegistryContents()
    ensures ZipCompressorTypes.Keys == {"zipStored", "zipDeflate", "zipBzip2", "zipLzma"}
    ensures ZipCompressorTypes.Values == {Stored, Deflated, Bzip2, Lzma}
    ensures forall a, b :: a in ZipCompressorTypes && b in ZipCompressorTypes && a != b ==>
      MethodId(ZipCompressorTypes[a]) != MethodId(ZipCompressorTypes[b])
    ensures MethodId(ZipCompressorTypes["zipStored"]) == 0 && MethodId(ZipCompressorTypes["zipDeflate"]) == 8
    ensures MethodId(ZipCompressorTypes["zipBzip2"]) == 12 && MethodId(ZipCompressorTypes["zipLzma"]) == 14
  {
    assert ZipCompressorTypes.Values == {Stored, Deflated, Bzip2, Lzma} by {
      assert ZipCompressorTypes["zipStored"] == Stored && ZipCompressorTypes["zipDeflate"] == Deflated;
      assert ZipCompressorTypes["zipBzip2"] == Bzip2 && ZipCompressorTypes["zipLzma"] == Lzma;
    }
  }

  /** The registry names in the order they are declared. */
  const RegistryNames: seq<string> := ["zipStored", "zipDeflate", "zipBzip2", "zipLzma"]

  /** The declared order lists every registered name exactly once. */
  lemma RegistryNamesListKeys()
    ensures forall k :: k in ZipCompressorTypes <==> k in RegistryNames
    ensures forall i, j :: 0 <= i < j < |RegistryNames| ==> RegistryNames[i] != RegistryNames[j]
  {
    RegistryContents();
  }

  /** What Python raises when a compressor with no open archive is used: the fields are None. */
  datatype LifecycleError = NoOpenArchive

  /** The state of the zipfile writer that matters here: its method and how many members it has written. */
  datatype ZipWriter = ZipWriter(compression: CompressionType, written: nat)

  class ZipCompressor {
    const compressionType: CompressionType
    /** The BytesIO buffer, None before create_archive and after get_archive_bytes. */
    var inMemoryFile: Option<seq<byte>>
    /** The ZipFile writer bound to the buffer, None exactly when the buffer is. */
    var zipFileAdapter: Option<ZipWriter>
    /** The entries put since the archive was created. */
    ghost var entries: seq<Entry>

    ghost predicate Valid()
      reads this
    {
      && (inMemoryFile.Some? <==> zipFileAdapter.Some?)
      && (zipFileAdapter.Some? ==>
            && zipFileAdapter.value == ZipWriter(compressionType, |entries|)
            && inMemoryFile.value == [MethodId(compressionType)] + Records(entries))
      && (zipFileAdapter.None? ==> entries == [])
    }

    /** An archive has been created and its bytes not yet taken. */
    predicate IsOpen()
      reads this
    {
      zipFileAdapter.Some?
    }

    /** A fresh compressor has neither buffer nor writer. */
    constructor (compressionType: CompressionType)
      ensures Valid() && !IsOpen() && entries == []
      ensures this.compressionType == compressionType
    {
      this.compressionType := compressionType;
      inMemoryFile := None;
      zipFileAdapter := None;
      entries := [];
    }

    /** Starts an empty archive; whatever was open before is dropped without a check. */
    method CreateArchive()
      requires Valid()
      modifies this
      ensures Valid() && IsOpen() && entries == []
    {
      inMemoryFile := Some([MethodId(compressionType)]);
      zipFileAdapter := Some(ZipWriter(compressionType, 0));
      entries := [];
    }

    /** Appends one entry at the end of the open archive; names are not checked for duplicates. */
    method Put(fileName: string, fileContent: seq<byte>) returns (r: Outcome<LifecycleError>)
      requires Valid()
      modifies this
      ensures Valid() && IsOpen() == old(IsOpen())
      ensures r.Pass? <==> old(IsOpen())
      ensures r.Fail? ==> r.error == NoOpenArchive && unchanged(this)
      ensures r.Pass? ==> entries == old(entries) + [Entry(fileName, fileContent)]
    {
      match zipFileAdapter
      case None =>
        r := Fail(NoOpenArchive);
      case Some(writer) =>
        var e := Entry(fileName, fileContent);
        RecordsAppend(entries, e);
        inMemoryFile := Some(inMemoryFile.value + [LocalTag] + EncodeEntry(e));
        zipFileAdapter := Some(ZipWriter(writer.compression, writer.written + 1));
        entries := entries + [e];
        r := Pass;
    }

    /** Closes the writer, returns the whole buffer and releases both; the compressor is then inert. */
    method GetArchiveBytes() returns (r: Result<seq<byte>, LifecycleError>)
      requires Valid()
      modifies this
      ensures Valid() && !IsOpen() && entries == []
      ensures r.Success? <==> old(IsOpen())
      ensures r.Failure? ==> r.error == NoOpenArchive && unchanged(this)
      ensures r.Success? ==> r.value == Encode(compressionType, old(entries))
      ensures r.Success? ==> Decode(r.value) == Some(Archive(compressionType, old(entries)))
    {
      match zipFileAdapter
      case None =>
        r := Failure(NoOpenArchive);
      case Some(writer) =>
        DecodeEncode(compressionType, entries);
        inMemoryFile := Some(inMemoryFile.value + EndRecord(writer.written));
        var archiveBytes := inMemoryFile.value;
        inMemoryFile := None;
        zipFileAdapter := None;
        entries := [];
        r := Success(archiveBytes);
    }
  }

  /** A fresh compressor taken once through create_archive, put and get_archive_bytes. */
  method ArchiveOneFile(compressionType: CompressionType, fileName: string, fileContent: seq<byte>)
    returns (archive: seq<byte>)
    ensures archive == Encode(compressionType, [Entry(fileName, fileContent)])
    ensures Decode(archive) == Some(Archive(compressionType, [Entry(fileName, fileContent)]))
  {
    var compressor := new ZipCompressor(compressionType);
    compressor.CreateArchive();
    var put := compressor.Put(fileName, fileContent);
    assert compressor.entries == [Entry(fileName, fileContent)];
    var result := compressor.GetArchiveBytes();
    archive := result.value;
  }

  /** Once the archive bytes are taken, a further put fails. */
  method PutAfterArchiveBytes(compressionType: CompressionType, fileName: string, fileContent: seq<byte>)
    returns (archive: Result<seq<byte>, LifecycleError>, late: Outcome<LifecycleError>)
    ensures archive.Success? && late == Fail(NoOpenArchive)
  {
    var compressor := new ZipCompressor(compressionType);
    compressor.CreateArchive();
    var put := compressor.Put(fileName, fileContent);
    archive := compressor.GetArchiveBytes();
    late := compressor.Put(fileName + "1", fileContent);
  }

  /** The archive bytes can be taken once: the second request fails. */
  method ArchiveBytesTwice(compressionType: CompressionType, fileName: string, fileContent: seq<byte>)
    returns (first: Result<seq<byte>, LifecycleError>, second: Result<seq<byte>, LifecycleError>)
    ensures first.Success? && Decode(first.value) == Some(Archive(compressionType, [Entry(fileName, fileContent)]))
    ensures second == Failure(NoOpenArchive)
  {
    var compressor := new ZipCompressor(compressionType);
    compressor.CreateArchive();
    var put := compressor.Put(fileName, fileContent);
    assert compressor.entries == [Entry(fileName, fileContent)];
    first := compressor.GetArchiveBytes();
    second := compressor.GetArchiveBytes();
  }

  /** Before create_archive neither put nor get_archive_bytes can succeed. */
  method UseBeforeCreate(compressionType: CompressionType, fileName: string, fileContent: seq<byte>)
    returns (put: Outcome<LifecycleError>, archive: Result<seq<byte>, LifecycleError>)
    ensures put == Fail(NoOpenArchive) && archive == Failure(NoOpenArchive)
  {
    var compressor := new ZipCompressor(compressionType);
    put := compressor.Put(fileName, fileContent);
    archive := compressor.GetArchiveBytes();
  }

  /** Creating the archive a second time discards what was put before. */
  method CreateArchiveAgain(compressionType: CompressionType, earlier: Entry, later: Entry)
    returns (archive: Result<seq<byte>, LifecycleError>)
    ensures archive.Success? && Decode(archive.value) == Some(Archive(compressionType, [later]))
  {
    var compressor := new ZipCompressor(compressionType);
    compressor.CreateArchive();
    var first := compressor.Put(earlier.name, earlier.content);
    compressor.CreateArchive();
    var second := compressor.Put(later.name, later.content);
    assert compressor.entries == [later];
    archive := compressor.GetArchiveBytes();
  }

  /** Two entries with the same name are both kept, in the order put. */
  method DuplicateNames(compressionType: CompressionType, fileName: string, first: seq<byte>, second: seq<byte>)
    returns (archive: Result<seq<byte>, LifecycleError>)
    ensures archive.Success?
    ensures Decode(archive.value) == Some(Archive(compressionType, [Entry(fileName, first), Entry(fileName, second)]))
  {
    var compressor := new ZipCompressor(compressionType);
    compressor.CreateArchive();
    var put1 := compressor.Put(fileName, first);
    assert compressor.entries == [Entry(fileName, first)];
    var put2 := compressor.Put(fileName, second);
    assert compressor.entries == [Entry(fileName, first), Entry(fileName, second)];
    archive := compressor.GetArchiveBytes();
  }
}

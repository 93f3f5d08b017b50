/**
 * The archive a ZipCompressor writes: an ordered list of named byte entries under one
 * compression method, and the bytes that hold it.
 *
 * The real container is written by Python's zipfile library and is not part of this model.
 * It is replaced by a small byte layout with the same shape: a byte that carries the
 * compression method value of the ZIP specification (APPNOTE.TXT, section 4.4.5), one
 * record per entry in the order written (a tag standing for the local file header
 * signature, the entry name and the entry content, both length-prefixed), and a closing
 * record (a tag standing for the end of central directory signature) that carries the
 * number of entries. Entry content is stored as is: the compression algorithms themselves
 * are not modelled. What matters, and what is proved, is that decoding the bytes gives
 * back exactly the compression method and the entries, in order.
 */
module ZipContainer {
  import opened Wrappers
  import opened Sequences

  /** The compression methods of the zipfile module that the server offers. */
  datatype CompressionType = Stored | Deflated | Bzip2 | Lzma

  /** One archive member: its name and its uncompressed content. */
  datatype Entry = Entry(name: string, content: seq<byte>)

  /** What a reader finds in an archive. */
  datatype Archive = Archive(compression: CompressionType, entries: seq<Entry>)

  /** The compression method field value of each method (APPNOTE.TXT, section 4.4.5). */
  function MethodId(t: CompressionType): byte {
    match t
    case Stored => 0
    case Deflated => 8
    case Bzip2 => 12
    case Lzma => 14
  }

  function MethodFromId(id: byte): (r: Option<CompressionType>)
    ensures r.Some? ==> MethodId(r.value) == id
    ensures r.None? ==> id !in {0, 8, 12, 14}
  {
    if id == 0 then Some(Stored)
    else if id == 8 then Some(Deflated)
    else if id == 12 then Some(Bzip2)
    else if id == 14 then Some(Lzma)
    else None
  }

  /** Each method has its own identifier, and reading it back gives the method. */
  lemma MethodIdRoundTrip(t: CompressionType)
    ensures MethodFromId(MethodId(t)) == Some(t)
  {
  }

  const LocalTag: byte := 3
  const EndTag: byte := 5

  /** A natural number in base 128, least significant group first; the high bit marks a continuation. */
  function EncodeNat(n: nat): (r: seq<byte>)
    decreases n
  {
    if n < 128 then [n as byte] else [(128 + n % 128) as byte] + EncodeNat(n / 128)
  }

  /** Reads one number written by EncodeNat and returns it with the bytes that follow it. */
  function DecodeNat(s: seq<byte>): (r: Option<(nat, seq<byte>)>)
    ensures r.Some? ==> |r.value.1| < |s| && r.value.1 == s[|s| - |r.value.1|..]
  {
    if |s| == 0 then None
    else if s[0] < 128 then Some((s[0] as nat, s[1..]))
    else match DecodeNat(s[1..])
      case None => None
      case Some((m, rest)) => Some(((s[0] as nat - 128) + 128 * m, rest))
  }

  lemma {:induction false} DecodeEncodeNat(n: nat, tail: seq<byte>)
    ensures DecodeNat(EncodeNat(n) + tail) == Some((n, tail))
    decreases n
  {
    if n >= 128 {
      var s := EncodeNat(n) + tail;
      assert s[1..] == EncodeNat(n / 128) + tail;
      DecodeEncodeNat(n / 128, tail);
    }
  }

  /** Each character as the number of its code point. */
  function EncodeChars(name: string): seq<byte> {
    if |name| == 0 then [] else EncodeNat(name[0] as nat) + EncodeChars(name[1..])
  }

  predicate IsScalarValue(n: nat) {
    n < 0xD800 || (0xE000 <= n < 0x11_0000)
  }

  /** Reads `count` characters written by EncodeChars. */
  function DecodeChars(count: nat, s: seq<byte>): (r: Option<(string, seq<byte>)>)
    ensures r.Some? ==> |r.value.1| <= |s| && r.value.1 == s[|s| - |r.value.1|..]
  {
    if count == 0 then Some(([], s))
    else match DecodeNat(s)
      case None => None
      case Some((code, rest)) =>
        if !IsScalarValue(code) then None
        else match DecodeChars(count - 1, rest)
          case None => None
          case Some((chars, after)) => Some(([code as char] + chars, after))
  }

  /** One step of DecodeChars: a code point that is a character, then the remaining characters. */
  lemma DecodeCharsStep(count: nat, s: seq<byte>, code: nat, rest: seq<byte>, chars: string, after: seq<byte>)
    requires count > 0 && DecodeNat(s) == Some((code, rest)) && IsScalarValue(code)
    requires DecodeChars(count - 1, rest) == Some((chars, after))
    ensures DecodeChars(count, s) == Some(([code as char] + chars, after))
  {
  }

  lemma {:induction false} DecodeEncodeChars(name: string, tail: seq<byte>)
    ensures DecodeChars(|name|, EncodeChars(name) + tail) == Some((name, tail))
  {
    if |name| > 0 {
      var code := name[0] as nat;
      var rest := EncodeChars(name[1..]) + tail;
      EncodeCharsCons(name, tail);
      DecodeEncodeNat(code, rest);
      DecodeEncodeChars(name[1..], tail);
      CharCode(name[0]);
      DecodeCharsStep(|name|, EncodeChars(name) + tail, code, rest, name[1..], tail);
      HeadTail(name);
    }
  }

  /** The bytes of a non-empty name are those of its first character, then those of the rest. */
  lemma EncodeCharsCons(name: string, tail: seq<byte>)
    requires |name| > 0
    ensures EncodeChars(name) + tail == EncodeNat(name[0] as nat) + (EncodeChars(name[1..]) + tail)
  {
    Associative(EncodeNat(name[0] as nat), EncodeChars(name[1..]), tail);
  }

  /** A character's code point is a scalar value, and converts back to the character. */
  lemma CharCode(c: char)
    ensures IsScalarValue(c as nat) && (c as nat) as char == c
  {
  }

  /** The bytes of one entry record after its tag. */
  function EncodeEntry(e: Entry): seq<byte> {
    EncodeNat(|e.name|) + EncodeChars(e.name) + EncodeNat(|e.content|) + e.content
  }

  function DecodeEntry(s: seq<byte>): (r: Option<(Entry, seq<byte>)>)
    ensures r.Some? ==> |r.value.1| < |s|
  {
    match DecodeNat(s)
    case None => None
    case Some((nameLength, s1)) =>
      match DecodeChars(nameLength, s1)
      case None => None
      case Some((name, s2)) =>
        match DecodeNat(s2)
        case None => None
        case Some((size, s3)) =>
          if size <= |s3| then Some((Entry(name, s3[..size]), s3[size..])) else None
  }

  lemma DecodeEncodeEntry(e: Entry, tail: seq<byte>)
    ensures DecodeEntry(EncodeEntry(e) + tail) == Some((e, tail))
  {
    var c := e.content;
    var s3 := c + tail;
    var s2 := EncodeNat(|c|) + s3;
    var s1 := EncodeChars(e.name) + s2;
    EncodeEntryShape(e, tail);
    DecodeEncodeNat(|e.name|, s1);
    DecodeEncodeChars(e.name, s2);
    DecodeEncodeNat(|c|, s3);
    assert s3[..|c|] == c && s3[|c|..] == tail;
    DecodeEntryStep(EncodeEntry(e) + tail, |e.name|, s1, e.name, s2, |c|, s3);
  }

  /** An entry record is its name length, its name, its size and its content, in that order. */
  lemma EncodeEntryShape(e: Entry, tail: seq<byte>)
    ensures EncodeEntry(e) + tail
         == EncodeNat(|e.name|) + (EncodeChars(e.name) + (EncodeNat(|e.content|) + (e.content + tail)))
  {
    var a, b, c, d := EncodeNat(|e.name|), EncodeChars(e.name), EncodeNat(|e.content|), e.content;
    Associative(a + b + c, d, tail);
    Associative(a + b, c, d + tail);
    Associative(a, b, c + (d + tail));
  }

  /** DecodeEntry reads a name length, that many characters, a size and that many bytes. */
  lemma DecodeEntryStep(s: seq<byte>, nameLength: nat, s1: seq<byte>, name: string, s2: seq<byte>,
                        size: nat, s3: seq<byte>)
    requires DecodeNat(s) == Some((nameLength, s1)) && DecodeChars(nameLength, s1) == Some((name, s2))
    requires DecodeNat(s2) == Some((size, s3)) && size <= |s3|
    ensures DecodeEntry(s) == Some((Entry(name, s3[..size]), s3[size..]))
  {
  }

  /** The entry records, tag included, in the order the entries were written. */
  function Records(entries: seq<Entry>): seq<byte> {
    if |entries| == 0 then [] else [LocalTag] + EncodeEntry(entries[0]) + Records(entries[1..])
  }

  /** Appending an entry appends its record: earlier records are never rewritten. */
  lemma {:induction false} RecordsAppend(entries: seq<Entry>, e: Entry)
    ensures Records(entries + [e]) == Records(entries) + [LocalTag] + EncodeEntry(e)
  {
    if |entries| == 0 {
      assert entries + [e] == [e];
    } else {
      assert (entries + [e])[1..] == entries[1..] + [e];
      RecordsAppend(entries[1..], e);
    }
  }

  /** Reads entry records up to and including the closing tag. */
  function DecodeRecords(s: seq<byte>): Option<(seq<Entry>, seq<byte>)>
    decreases |s|
  {
    if |s| == 0 then None
    else if s[0] == EndTag then Some(([], s[1..]))
    else if s[0] != LocalTag then None
    else match DecodeEntry(s[1..])
      case None => None
      case Some((e, rest)) =>
        match DecodeRecords(rest)
        case None => None
        case Some((es, after)) => Some(([e] + es, after))
  }

  lemma DecodeRecordsStep(s: seq<byte>, e: Entry, rest: seq<byte>, es: seq<Entry>, after: seq<byte>)
    requires |s| > 0 && s[0] == LocalTag && DecodeEntry(s[1..]) == Some((e, rest))
    requires DecodeRecords(rest) == Some((es, after))
    ensures DecodeRecords(s) == Some(([e] + es, after))
  {
  }

  lemma RecordsShape(entries: seq<Entry>, tail: seq<byte>)
    requires |entries| > 0
    ensures var s := Records(entries) + [EndTag] + tail;
      |s| > 0 && s[0] == LocalTag && s[1..] == EncodeEntry(entries[0]) + (Records(entries[1..]) + [EndTag] + tail)
  {
    assert Records(entries) == [LocalTag] + EncodeEntry(entries[0]) + Records(entries[1..]);
    ConsSlices(LocalTag, EncodeEntry(entries[0]), Records(entries[1..]), [EndTag], tail);
  }

  lemma {:induction false} DecodeRecordsOfRecords(entries: seq<Entry>, tail: seq<byte>)
    ensures DecodeRecords(Records(entries) + [EndTag] + tail) == Some((entries, tail))
    decreases |entries|
  {
    if |entries| == 0 {
      assert Records(entries) + [EndTag] + tail == [EndTag] + tail;
    } else {
      var rest := Records(entries[1..]) + [EndTag] + tail;
      RecordsShape(entries, tail);
      DecodeEncodeEntry(entries[0], rest);
      DecodeRecordsOfRecords(entries[1..], tail);
      DecodeRecordsStep(Records(entries) + [EndTag] + tail, entries[0], rest, entries[1..], tail);
      HeadTail(entries);
    }
  }

  /** The closing record: the tag and the number of entries. */
  function EndRecord(count: nat): seq<byte> {
    [EndTag] + EncodeNat(count)
  }

  /** The complete archive bytes for `entries` written under method `t`. */
  function Encode(t: CompressionType, entries: seq<Entry>): seq<byte> {
    [MethodId(t)] + Records(entries) + EndRecord(|entries|)
  }

  /** Reads archive bytes; `None` when they are not a well-formed archive. */
  function Decode(s: seq<byte>): Option<Archive> {
    if |s| == 0 then None
    else match MethodFromId(s[0])
      case None => None
      case Some(t) =>
        match DecodeRecords(s[1..])
        case None => None
        case Some((entries, rest)) =>
          match DecodeNat(rest)
          case Some((count, after)) =>
            if after == [] && count == |entries| then Some(Archive(t, entries)) else None
          case None => None
  }

  lemma DecodeStep(s: seq<byte>, t: CompressionType, entries: seq<Entry>, rest: seq<byte>)
    requires |s| > 0 && MethodFromId(s[0]) == Some(t)
    requires DecodeRecords(s[1..]) == Some((entries, rest))
    requires DecodeNat(rest) == Some((|entries|, []))
    ensures Decode(s) == Some(Archive(t, entries))
  {
  }

  /** Reading back the bytes written for a list of entries gives the method and exactly those entries, in order. */
  lemma DecodeEncode(t: CompressionType, entries: seq<Entry>)
    ensures Decode(Encode(t, entries)) == Some(Archive(t, entries))
  {
    var s := Encode(t, entries);
    var count := EncodeNat(|entries|);
    assert s[1..] == Records(entries) + [EndTag] + count;
    DecodeRecordsOfRecords(entries, count);
    DecodeEncodeNat(|entries|, []);
    assert count + [] == count;
    MethodIdRoundTrip(t);
    DecodeStep(s, t, entries, count);
  }
}

/**
 * The hand-written multipart/form-data handling of the raw server: stripping an HTTP head
 * from a reply, cutting a request body into the header block and the content of its first
 * part, and taking the file name out of the header block with the pattern `filename="(.+)"`.
 */
module Multipart {
  import opened Wrappers
  import opened Sequences

  const CRLF: seq<byte> := [13, 10]
  /** The blank line that ends an HTTP head. */
  const HeaderEnd: seq<byte> := [13, 10, 13, 10]

  lemma CrlfUnbordered()
    ensures Unbordered(CRLF)
  {
    assert CRLF[..1] != CRLF[1..] by {
      assert CRLF[..1][0] == 13 && CRLF[1..][0] == 10;
    }
  }

  // ---------------------------------------------------------------- strip_http_headers

  /** Everything after the first blank line, or the whole reply when it has none. */
  function StripHttpHeaders(reply: seq<byte>): (r: seq<byte>)
    ensures Free(reply, HeaderEnd) ==> r == reply
    ensures forall p: nat :: IsFirst(reply, HeaderEnd, p) ==> r == reply[p + |HeaderEnd|..]
  {
    assert forall p: nat :: IsFirst(reply, HeaderEnd, p) ==> Find(reply, HeaderEnd, 0) == Some(p);
    match Find(reply, HeaderEnd, 0)
    case None => reply
    case Some(p) => reply[p + |HeaderEnd|..]
  }

  /** A head in which the blank line cannot start early is removed, and exactly the payload remains. */
  lemma StripHttpHeadersOfReply(head: seq<byte>, payload: seq<byte>)
    requires Free(head + [13, 10, 13], HeaderEnd)
    ensures StripHttpHeaders(head + HeaderEnd + payload) == payload
  {
    var s := head + HeaderEnd + payload;
    var early := head + [13, 10, 13];
    forall i: nat | i < |head| ensures !ContainsAt(s, HeaderEnd, i) {
      assert !ContainsAt(early, HeaderEnd, i);
      assert s[i..i + 4] == early[i..i + 4];
    }
    assert s[|head|..|head| + 4] == HeaderEnd;
    assert IsFirst(s, HeaderEnd, |head|);
    assert s[|head| + 4..] == payload;
  }

  // ---------------------------------------------------------------- _split_body

  /**
   * The lines of the body's first part: the body split on CRLF, without the first line (the
   * opening delimiter), without the last line if it is empty, and without the line that is
   * then last (the closing delimiter). `None` where Python's `body_lines[-1]` raises
   * IndexError, which happens when the body holds no CRLF at all.
   */
  function PartLines(body: seq<byte>): (r: Option<seq<seq<byte>>>)
    ensures r.None? <==> Free(body, CRLF)
  {
    FindNone(body, CRLF);
    TrimLines(Split(body, CRLF)[1..])
  }

  /** The lines after the first one, without a final empty line and then without the closing line. */
  function TrimLines(lines: seq<seq<byte>>): (r: Option<seq<seq<byte>>>)
    ensures r.None? <==> |lines| == 0
    ensures r.Some? ==> r.value <= lines && |lines| - 2 <= |r.value| < |lines|
  {
    if |lines| == 0 then None
    else
      var trimmed := if lines[|lines| - 1] == [] then lines[..|lines| - 1] else lines;
      Some(if |trimmed| == 0 then [] else trimmed[..|trimmed| - 1])
  }

  /** What cutting a body gives: the header block and the content, no blank line, or an exception. */
  datatype SplitOutcome = Parts(headers: seq<byte>, content: seq<byte>) | NoHeaders | Crashed

  /**
   * The header block is the lines before the first empty line and the content the lines
   * after it, each rejoined with CRLF. A part with no empty line yields NoHeaders, which is
   * what the code's check for -1 evidently intends.
   */
  function SplitBody(body: seq<byte>): SplitOutcome {
    match PartLines(body)
    case None => Crashed
    case Some(lines) =>
      match IndexOf(lines, [])
      case None => NoHeaders
      case Some(k) => Parts(Join(lines[..k], CRLF), Join(lines[k + 1..], CRLF))
  }

  /** The code as written: `list.index` raises ValueError instead of returning -1. */
  function SplitBodyAsWritten(body: seq<byte>): SplitOutcome {
    var r := SplitBody(body);
    if r.NoHeaders? then Crashed else r
  }

  /** The closing delimiter line, with or without the CRLF after it. */
  function ClosingLine(closing: seq<byte>, trailingCrlf: bool): seq<byte> {
    closing + (if trailingCrlf then CRLF else [])
  }

  /** A body `delimiter CRLF headers CRLF CRLF content CRLF closing [CRLF]`. */
  function MultipartBody(delimiter: seq<byte>, headers: seq<byte>, content: seq<byte>,
                         closing: seq<byte>, trailingCrlf: bool): seq<byte>
  {
    delimiter + CRLF + (headers + CRLF + (CRLF + (content + CRLF + ClosingLine(closing, trailingCrlf))))
  }

  /** The header block has at least one line and none of its lines is empty. */
  ghost predicate NoBlankLine(headers: seq<byte>) {
    forall k :: 0 <= k < |Split(headers, CRLF)| ==> Split(headers, CRLF)[k] != []
  }

  lemma SplitOfEmpty()
    ensures Split([], CRLF) == [[]]
  {
    assert Find([], CRLF, 0) == None;
  }

  /** The lines the closing delimiter line splits into: the delimiter, then an empty line after a final CRLF. */
  lemma SplitClosingLine(closing: seq<byte>, trailingCrlf: bool)
    requires Free(closing, CRLF)
    ensures Split(ClosingLine(closing, trailingCrlf), CRLF) == [closing] + (if trailingCrlf then [[]] else [])
  {
    SplitFree(closing, CRLF);
    if trailingCrlf {
      CrlfUnbordered();
      SplitOfEmpty();
      assert ClosingLine(closing, trailingCrlf) == closing + CRLF + [];
      SplitAppend(closing, CRLF, []);
    } else {
      assert ClosingLine(closing, trailingCrlf) == closing;
    }
  }

  /** The lines of a well-formed body, found by splitting it at each CRLF it was built with. */
  lemma LinesOfMultipartBody(delimiter: seq<byte>, headers: seq<byte>, content: seq<byte>,
                             closing: seq<byte>, trailingCrlf: bool)
    requires Free(delimiter, CRLF) && Free(closing, CRLF)
    ensures Split(MultipartBody(delimiter, headers, content, closing, trailingCrlf), CRLF)
         == [delimiter] + (Split(headers, CRLF) + ([[]] + (Split(content, CRLF)
            + ([closing] + (if trailingCrlf then [[]] else [])))))
  {
    CrlfUnbordered();
    SplitOfEmpty();
    SplitFree(delimiter, CRLF);
    SplitClosingLine(closing, trailingCrlf);
    var x3 := content + CRLF + ClosingLine(closing, trailingCrlf);
    var x1 := headers + CRLF + (CRLF + x3);
    SplitAppend(delimiter, CRLF, x1);
    SplitAppend(headers, CRLF, CRLF + x3);
    assert CRLF + x3 == [] + CRLF + x3;
    SplitAppend([], CRLF, x3);
    SplitAppend(content, CRLF, ClosingLine(closing, trailingCrlf));
  }

  /** Trimming keeps exactly what lies before a non-empty closing line, final empty line or not. */
  lemma TrimClosing(part: seq<seq<byte>>, closing: seq<byte>, trailingCrlf: bool)
    requires closing != []
    ensures TrimLines(part + [closing] + (if trailingCrlf then [[]] else [])) == Some(part)
  {
    var lines := part + [closing] + (if trailingCrlf then [[]] else []);
    var trimmed := part + [closing];
    if trailingCrlf {
      assert lines[|lines| - 1] == [] && lines[..|lines| - 1] == trimmed;
    } else {
      assert lines == trimmed;
    }
    assert trimmed[..|trimmed| - 1] == part;
  }

  // AppendEmpty, DropFirstOfAppend and DropFirstLine only restate facts of sequence
  // concatenation and slicing; stated apart, they keep the proofs about the lines small.

  lemma AppendEmpty<T>(s: seq<T>)
    ensures s + [] == s
  {
  }

  lemma DropFirstOfAppend<T>(all: seq<T>, x: T)
    requires |all| > 0
    ensures (all + [x])[1..] == all[1..] + [x]
  {
  }

  lemma DropFirstLine(first: seq<byte>, hs: seq<seq<byte>>, cs: seq<seq<byte>>, closing: seq<byte>, tail: seq<seq<byte>>)
    ensures ([first] + (hs + ([[]] + (cs + ([closing] + tail)))))[1..] == hs + [[]] + cs + [closing] + tail
  {
  }

  /** The lines of the first part of a well-formed body: the header lines, an empty line, the content lines. */
  lemma PartLinesOfMultipartBody(delimiter: seq<byte>, headers: seq<byte>, content: seq<byte>,
                                 closing: seq<byte>, trailingCrlf: bool)
    requires Free(delimiter, CRLF) && Free(closing, CRLF) && closing != []
    ensures PartLines(MultipartBody(delimiter, headers, content, closing, trailingCrlf))
         == Some(Split(headers, CRLF) + [[]] + Split(content, CRLF))
  {
    var body := MultipartBody(delimiter, headers, content, closing, trailingCrlf);
    var hs, cs := Split(headers, CRLF), Split(content, CRLF);
    var part := hs + [[]] + cs;
    var tail: seq<seq<byte>> := if trailingCrlf then [[]] else [];
    LinesOfMultipartBody(delimiter, headers, content, closing, trailingCrlf);
    DropFirstLine(delimiter, hs, cs, closing, tail);
    TrimClosing(part, closing, trailingCrlf);
  }

  /**
   * For a body `delimiter CRLF headers CRLF CRLF content CRLF closing [CRLF]` whose header
   * block has no empty line, the split gives back exactly the header block and the content,
   * whatever the content holds (nothing, CRLFs, blank lines), with or without the final CRLF.
   */
  lemma SplitBodyOfMultipartBody(delimiter: seq<byte>, headers: seq<byte>, content: seq<byte>,
                                 closing: seq<byte>, trailingCrlf: bool)
    requires Free(delimiter, CRLF) && Free(closing, CRLF) && closing != []
    requires NoBlankLine(headers)
    ensures SplitBody(MultipartBody(delimiter, headers, content, closing, trailingCrlf)) == Parts(headers, content)
    ensures SplitBodyAsWritten(MultipartBody(delimiter, headers, content, closing, trailingCrlf)) == Parts(headers, content)
  {
    PartLinesOfMultipartBody(delimiter, headers, content, closing, trailingCrlf);
    var hs := Split(headers, CRLF);
    var cs := Split(content, CRLF);
    var part := hs + [[]] + cs;
    var k := |hs|;
    assert part[k] == [];
    assert part[..k] == hs && part[k + 1..] == cs;
    assert [] !in part[..k];
    assert IndexOf(part, []) == Some(k);
    JoinSplit(headers, CRLF);
    JoinSplit(content, CRLF);
  }

  /** Without the final CRLF the part lines are the same, as long as the closing line is not empty. */
  lemma TrailingCrlfTolerated(body: seq<byte>)
    requires Find(body, CRLF, 0).Some?
    requires Split(body, CRLF)[|Split(body, CRLF)| - 1] != []
    ensures PartLines(body + CRLF) == PartLines(body)
  {
    var all := Split(body, CRLF);
    var p := Find(body, CRLF, 0).value;
    assert IsFirst(body, CRLF, p);
    SplitAt(body, CRLF, p);
    assert |all| > 1;
    CrlfUnbordered();
    SplitOfEmpty();
    AppendEmpty(body + CRLF);
    SplitAppend(body, CRLF, []);
    DropFirstOfAppend(all, []);
    TrimTrailingEmpty(all[1..]);
  }

  /** A final empty line is dropped when the line before it is not empty. */
  lemma TrimTrailingEmpty(lines: seq<seq<byte>>)
    requires |lines| > 0 && lines[|lines| - 1] != []
    ensures TrimLines(lines + [[]]) == TrimLines(lines)
  {
    assert (lines + [[]])[..|lines|] == lines;
  }

  /** A body with no CRLF makes `body_lines[-1]` raise. */
  lemma SingleLineBodyCrashes(body: seq<byte>)
    requires Free(body, CRLF)
    ensures PartLines(body) == None && SplitBody(body) == Crashed
  {
    SplitFree(body, CRLF);
  }

  /**
   * A part with no empty line: the intended reading reports NoHeaders, while the code as
   * written raises, so its "no headers found" answer can never be sent.
   */
  lemma PartWithoutBlankLine(body: seq<byte>)
    requires PartLines(body).Some? && [] !in PartLines(body).value
    ensures SplitBody(body) == NoHeaders
    ensures SplitBodyAsWritten(body) == Crashed
  {
  }

  /** The code as written never reports NoHeaders, whatever the body. */
  lemma AsWrittenNeverNoHeaders(body: seq<byte>)
    ensures SplitBodyAsWritten(body) != NoHeaders
    ensures SplitBody(body).NoHeaders? ==> SplitBodyAsWritten(body) == Crashed
    ensures !SplitBody(body).NoHeaders? ==> SplitBodyAsWritten(body) == SplitBody(body)
  {
  }

  lemma FreeWithoutCr(x: seq<byte>)
    requires 13 !in x
    ensures Free(x, CRLF)
  {
    forall i: nat ensures !ContainsAt(x, CRLF, i) {
      if i + 2 <= |x| {
        assert x[i..i + 2][0] == x[i];
      }
    }
  }

  /** The three-line body `--b CRLF A CRLF --b--`, whose only part line is not empty. */
  lemma NoBlankLineExample()
    ensures SplitBody([45, 45, 98, 13, 10, 65, 13, 10, 45, 45, 98, 45, 45]) == NoHeaders
    ensures SplitBodyAsWritten([45, 45, 98, 13, 10, 65, 13, 10, 45, 45, 98, 45, 45]) == Crashed
  {
    var body: seq<byte> := [45, 45, 98, 13, 10, 65, 13, 10, 45, 45, 98, 45, 45];
    ExampleLines();
    assert Split(body, CRLF)[1..] == [[65], [45, 45, 98, 45, 45]];
    PartWithoutBlankLine(body);
  }

  /** The lines of `--b CRLF A CRLF --b--`. */
  lemma ExampleLines()
    ensures Split([45, 45, 98, 13, 10, 65, 13, 10, 45, 45, 98, 45, 45], CRLF) == [[45, 45, 98], [65], [45, 45, 98, 45, 45]]
  {
    var d: seq<byte> := [45, 45, 98];
    var a: seq<byte> := [65];
    var c: seq<byte> := [45, 45, 98, 45, 45];
    CrlfUnbordered();
    FreeWithoutCr(d);
    FreeWithoutCr(a);
    FreeWithoutCr(c);
    var tail := a + CRLF + c;
    assert tail == [65, 13, 10, 45, 45, 98, 45, 45];
    assert d + CRLF + tail == [45, 45, 98, 13, 10, 65, 13, 10, 45, 45, 98, 45, 45];
    SplitFree(c, CRLF);
    SplitCons(a, CRLF, c);
    SplitCons(d, CRLF, tail);
  }

  // ---------------------------------------------------------------- filename="(.+)"

  const FileNamePrefix: string := "filename=\""

  /** The index of the first newline at or after `from`, or the end of `s`. */
  function LineEnd(s: string, from: nat): (e: nat)
    requires from <= |s|
    decreases |s| - from
    ensures from <= e <= |s| && (e < |s| ==> s[e] == '\n')
    ensures forall k :: from <= k < e ==> s[k] != '\n'
  {
    if from == |s| || s[from] == '\n' then from else LineEnd(s, from + 1)
  }

  /** The largest index in [lo, hi) that holds a double quote. */
  function LastQuote(s: string, lo: nat, hi: nat): (r: Option<nat>)
    requires hi <= |s|
    decreases hi
    ensures r.Some? ==> lo <= r.value < hi && s[r.value] == '"'
    ensures r.Some? ==> forall k :: r.value < k < hi ==> s[k] != '"'
    ensures r.None? ==> forall k :: lo <= k < hi ==> s[k] != '"'
  {
    if hi <= lo then None
    else if s[hi - 1] == '"' then Some(hi - 1)
    else LastQuote(s, lo, hi - 1)
  }

  /**
   * The pattern `filename="(.+)"` matches at `i` capturing `name`: the literal, then at least
   * one character other than a newline, then a double quote after which the rest of the line
   * holds no double quote (the greedy `.+` runs to the last one on the line).
   */
  ghost predicate IsMatchAt(s: string, i: nat, name: string) {
    var start := i + |FileNamePrefix|;
    var q := start + |name|;
    && q < |s|
    && s[i..start] == FileNamePrefix
    && s[start..q] == name
    && name != []
    && '\n' !in name
    && s[q] == '"'
    && '"' !in s[q + 1..LineEnd(s, q + 1)]
  }

  /** What the pattern captures when it is tried at index `i`. */
  function MatchAt(s: string, i: nat): Option<string> {
    var start := i + |FileNamePrefix|;
    if start <= |s| && s[i..start] == FileNamePrefix then
      match LastQuote(s, start + 1, LineEnd(s, start))
      case None => None
      case Some(q) => Some(s[start..q])
    else None
  }

  lemma LineEndWithin(s: string, from: nat, m: nat)
    requires from <= |s| && from <= m <= LineEnd(s, from)
    ensures LineEnd(s, m) == LineEnd(s, from)
  {
  }

  lemma MatchAtSound(s: string, i: nat)
    requires MatchAt(s, i).Some?
    ensures IsMatchAt(s, i, MatchAt(s, i).value)
  {
    var start := i + |FileNamePrefix|;
    var e := LineEnd(s, start);
    var q := LastQuote(s, start + 1, e).value;
    var name := s[start..q];
    assert start + |name| == q;
    LineEndWithin(s, start, q + 1);
    assert '\n' !in name by {
      forall k | 0 <= k < |name| ensures name[k] != '\n' {
        assert name[k] == s[start + k];
      }
    }
    var rest := s[q + 1..e];
    assert '"' !in rest by {
      forall k | 0 <= k < |rest| ensures rest[k] != '"' {
        assert rest[k] == s[q + 1 + k];
      }
    }
  }

  lemma MatchAtComplete(s: string, i: nat, name: string)
    requires IsMatchAt(s, i, name)
    ensures MatchAt(s, i) == Some(name)
  {
    var start := i + |FileNamePrefix|;
    var q := start + |name|;
    var e := LineEnd(s, start);
    forall k | start <= k < q ensures s[k] != '\n' {
      assert s[k] == name[k - start];
    }
    assert q < e;
    LineEndWithin(s, start, q + 1);
    var r := LastQuote(s, start + 1, e);
    assert r.Some?;
    assert r.value == q;
  }

  /** At any index the pattern captures at most one name. */
  lemma MatchUnique(s: string, i: nat, a: string, b: string)
    requires IsMatchAt(s, i, a) && IsMatchAt(s, i, b)
    ensures a == b
  {
    MatchAtComplete(s, i, a);
    MatchAtComplete(s, i, b);
  }

  /** The leftmost match at or after `from`. */
  function FindFileNameFrom(s: string, from: nat): (r: Option<string>)
    decreases |s| - from
    ensures r.Some? ==> exists i: nat :: (from <= i && IsMatchAt(s, i, r.value) &&
                                          forall j: nat, n :: from <= j < i ==> !IsMatchAt(s, j, n))
    ensures r.None? ==> forall j: nat, n :: from <= j ==> !IsMatchAt(s, j, n)
  {
    if from + |FileNamePrefix| > |s| then None
    else match MatchAt(s, from)
      case Some(name) =>
        MatchAtSound(s, from);
        Some(name)
      case None =>
        assert forall n :: !IsMatchAt(s, from, n) by {
          forall n | IsMatchAt(s, from, n) ensures false {
            MatchAtComplete(s, from, n);
          }
        }
        FindFileNameFrom(s, from + 1)
  }

  /**
   * `re.findall('filename="(.+)"', headers)[0]`: the name captured by the leftmost match,
   * `None` when the list would be empty.
   */
  function FindFileName(headers: string): (r: Option<string>)
    ensures r.Some? ==> r.value != [] && '\n' !in r.value
    ensures r.Some? ==> exists i: nat :: (IsMatchAt(headers, i, r.value) &&
                                          forall j: nat, n :: j < i ==> !IsMatchAt(headers, j, n))
    ensures r.None? <==> forall i: nat, n :: !IsMatchAt(headers, i, n)
  {
    FindFileNameFrom(headers, 0)
  }

  /**
   * A header block `pre filename="name" post`, where no `filename="` starts inside `pre` and
   * the rest of the line after the closing quote holds no quote, yields exactly `name`.
   */
  lemma FileNameOfHeader(pre: string, name: string, post: string)
    requires name != [] && '\n' !in name
    requires '"' !in post[..LineEnd(post, 0)]
    requires forall j: nat :: j < |pre| ==> !ContainsAt(pre + FileNamePrefix + name + "\"" + post, FileNamePrefix, j)
    ensures FindFileName(pre + FileNamePrefix + name + "\"" + post) == Some(name)
  {
    var s := pre + FileNamePrefix + name + "\"" + post;
    var i := |pre|;
    var q := i + |FileNamePrefix| + |name|;
    assert s[i..i + |FileNamePrefix|] == FileNamePrefix;
    assert s[i + |FileNamePrefix|..q] == name;
    assert s[q] == '"';
    assert s[q + 1..] == post;
    var e := q + 1 + LineEnd(post, 0);
    assert LineEnd(s, q + 1) == e by {
      forall k | q + 1 <= k < e ensures s[k] != '\n' {
        assert s[k] == post[k - (q + 1)];
      }
      if e < |s| {
        assert s[e] == post[LineEnd(post, 0)];
      }
    }
    assert s[q + 1..e] == post[..LineEnd(post, 0)];
    assert IsMatchAt(s, i, name);
    var r := FindFileName(s);
    var m: nat :| IsMatchAt(s, m, r.value) && forall j: nat, n :: j < m ==> !IsMatchAt(s, j, n);
    if m < i {
      assert ContainsAt(s, FileNamePrefix, m);
      assert false;
    }
    assert m == i;
    MatchUnique(s, i, r.value, name);
  }

  /** The greedy `.+` runs to the last quote of the line, past any earlier closing quote. */
  lemma FileNameIsGreedy()
    ensures FindFileName("filename=\"a.txt\"; size=\"3\"") == Some("a.txt\"; size=\"3")
  {
    var name := "a.txt\"; size=\"3";
    assert "filename=\"a.txt\"; size=\"3\"" == [] + FileNamePrefix + name + "\"" + [];
    FileNameOfHeader([], name, []);
  }
}

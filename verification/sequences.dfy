/**
 * Python's sequence primitives that the server relies on, over Dafny sequences:
 * `find`, `split` with a separator, `join` and `list.index`.
 */
module Sequences {
  import opened Wrappers

  /** A Python `bytes` element. */
  newtype byte = b: int | 0 <= b < 256

  /** `sep` occurs in `s` starting at index `i`. */
  predicate ContainsAt<T(==)>(s: seq<T>, sep: seq<T>, i: nat) {
    i + |sep| <= |s| && s[i..i + |sep|] == sep
  }

  /** `p` is the leftmost occurrence of `sep` in `s`. */
  ghost predicate IsFirst<T>(s: seq<T>, sep: seq<T>, p: nat) {
    ContainsAt(s, sep, p) && forall i: nat :: i < p ==> !ContainsAt(s, sep, i)
  }

  /** `sep` occurs nowhere in `s`. */
  ghost predicate Free<T>(s: seq<T>, sep: seq<T>) {
    forall i: nat :: !ContainsAt(s, sep, i)
  }

  /** No proper prefix of `sep` is also a suffix of it, so occurrences of `sep` never overlap. */
  ghost predicate Unbordered<T>(sep: seq<T>) {
    forall k :: 0 < k < |sep| ==> sep[..k] != sep[|sep| - k..]
  }

  /** `s.find(sep, from)`, with `None` for Python's -1. */
  function Find<T(==)>(s: seq<T>, sep: seq<T>, from: nat): (r: Option<nat>)
    decreases |s| - from
    ensures r.Some? ==> from <= r.value && ContainsAt(s, sep, r.value)
    ensures r.Some? ==> forall i: nat :: from <= i < r.value ==> !ContainsAt(s, sep, i)
    ensures r.None? ==> forall i: nat :: from <= i ==> !ContainsAt(s, sep, i)
  {
    if from + |sep| > |s| then None
    else if s[from..from + |sep|] == sep then Some(from)
    else Find(s, sep, from + 1)
  }

  lemma FindFirst<T>(s: seq<T>, sep: seq<T>, p: nat)
    requires IsFirst(s, sep, p)
    ensures Find(s, sep, 0) == Some(p)
  {
  }

  lemma FindNone<T>(s: seq<T>, sep: seq<T>)
    ensures Free(s, sep) <==> Find(s, sep, 0) == None
  {
  }

  // The next four lemmas only restate facts of sequence concatenation and slicing. Stating
  // them apart keeps the proofs that use them small and quick for the solver.

  lemma Associative<T>(a: seq<T>, b: seq<T>, c: seq<T>)
    ensures a + b + c == a + (b + c)
  {
  }

  lemma Regroup<T>(x: seq<T>, sep: seq<T>, r: seq<T>, b: seq<T>)
    ensures x + sep + r + sep + b == x + sep + (r + sep + b)
  {
  }

  /** The head and the tail of `[x] + a + b + c + d`. */
  lemma ConsSlices<T>(x: T, a: seq<T>, b: seq<T>, c: seq<T>, d: seq<T>)
    ensures var s := [x] + a + b + c + d; |s| > 0 && s[0] == x && s[1..] == a + (b + c + d)
  {
  }

  lemma HeadTail<T>(xs: seq<T>)
    requires |xs| > 0
    ensures [xs[0]] + xs[1..] == xs
  {
  }

  /** `s.split(sep)`: the pieces between the non-overlapping occurrences of `sep`, left to right. */
  function Split<T(==)>(s: seq<T>, sep: seq<T>): (r: seq<seq<T>>)
    requires |sep| > 0
    decreases |s|
    ensures |r| > 0
  {
    match Find(s, sep, 0)
    case None => [s]
    case Some(p) => [s[..p]] + Split(s[p + |sep|..], sep)
  }

  /** The part of `s` before the first occurrence of `sep` does not contain `sep`. */
  lemma PrefixFree<T>(s: seq<T>, sep: seq<T>, p: nat)
    requires |sep| > 0 && Find(s, sep, 0) == Some(p)
    ensures Free(s[..p], sep)
  {
    forall i: nat ensures !ContainsAt(s[..p], sep, i) {
      if i + |sep| <= p {
        assert s[..p][i..i + |sep|] == s[i..i + |sep|];
        assert !ContainsAt(s, sep, i);
      }
    }
  }

  /** No piece of a split contains the separator. */
  lemma {:induction false} SplitPiecesFree<T>(s: seq<T>, sep: seq<T>)
    requires |sep| > 0
    ensures forall k :: 0 <= k < |Split(s, sep)| ==> Free(Split(s, sep)[k], sep)
    decreases |s|
  {
    match Find(s, sep, 0)
    case None =>
      FindNone(s, sep);
    case Some(p) =>
      PrefixFree(s, sep, p);
      SplitPiecesFree(s[p + |sep|..], sep);
  }

  /** `sep.join(parts)`. */
  function Join<T>(parts: seq<seq<T>>, sep: seq<T>): seq<T> {
    if |parts| == 0 then []
    else if |parts| == 1 then parts[0]
    else parts[0] + sep + Join(parts[1..], sep)
  }

  lemma JoinCons<T>(x: seq<T>, parts: seq<seq<T>>, sep: seq<T>)
    requires |parts| > 0
    ensures Join([x] + parts, sep) == x + sep + Join(parts, sep)
  {
    assert ([x] + parts)[1..] == parts;
  }

  /** Joining the pieces of a split restores the original sequence. */
  lemma {:induction false} JoinSplit<T>(s: seq<T>, sep: seq<T>)
    requires |sep| > 0
    ensures Join(Split(s, sep), sep) == s
    decreases |s|
  {
    match Find(s, sep, 0)
    case None =>
    case Some(p) =>
      var rest := s[p + |sep|..];
      JoinSplit(rest, sep);
      JoinCons(s[..p], Split(rest, sep), sep);
      assert s == s[..p] + s[p..p + |sep|] + rest;
  }

  /** Every part occurs in the join of the parts. */
  lemma {:induction false} JoinHasPart<T>(parts: seq<seq<T>>, sep: seq<T>, k: nat)
    requires k < |parts|
    ensures exists p: nat :: ContainsAt(Join(parts, sep), parts[k], p)
    decreases k
  {
    var j := Join(parts, sep);
    if k == 0 {
      assert j[..|parts[0]|] == parts[0];
      assert ContainsAt(j, parts[0], 0);
    } else {
      JoinHasPart(parts[1..], sep, k - 1);
      var rest := Join(parts[1..], sep);
      var p: nat :| ContainsAt(rest, parts[1..][k - 1], p);
      var offset := |parts[0]| + |sep|;
      assert j == parts[0] + sep + rest;
      assert j[offset + p..offset + p + |parts[k]|] == rest[p..p + |parts[k]|];
      assert ContainsAt(j, parts[k], offset + p);
    }
  }

  /** An occurrence in `b` is an occurrence in `a + b + c`, moved by the length of `a`. */
  lemma ContainsAtShift<T>(a: seq<T>, b: seq<T>, c: seq<T>, x: seq<T>, p: nat)
    requires ContainsAt(b, x, p)
    ensures ContainsAt(a + b + c, x, |a| + p)
  {
    assert (a + b + c)[|a| + p..|a| + p + |x|] == b[p..p + |x|];
  }

  /** Indexing `a + b` below `|a|` indexes `a`. */
  lemma IndexInPrefix<T>(a: seq<T>, b: seq<T>, i: nat)
    requires i < |a|
    ensures (a + b)[i] == a[i]
  {
  }

  /** `x` occurs at the end of `a + x`. */
  lemma ContainsAtEnd<T>(a: seq<T>, x: seq<T>)
    ensures ContainsAt(a + x, x, |a|)
  {
    assert (a + x)[|a|..|a| + |x|] == x;
  }

  /** An occurrence in `a` is an occurrence in `a + b`. */
  lemma ContainsAtPrefix<T>(a: seq<T>, b: seq<T>, x: seq<T>, p: nat)
    requires ContainsAt(a, x, p)
    ensures ContainsAt(a + b, x, p)
  {
    assert (a + b)[p..p + |x|] == a[p..p + |x|];
  }

  /** A piece that does not contain the separator splits into itself. */
  lemma SplitFree<T>(s: seq<T>, sep: seq<T>)
    requires |sep| > 0 && Free(s, sep)
    ensures Split(s, sep) == [s]
  {
    FindNone(s, sep);
  }

  /** An occurrence of `sep` in `a + sep + b` that starts inside `a` and runs past it is a border of `sep`. */
  lemma Straddle<T>(a: seq<T>, sep: seq<T>, b: seq<T>, i: nat)
    requires i < |a| < i + |sep| && ContainsAt(a + sep + b, sep, i)
    ensures var m := |sep| - (|a| - i); sep[..m] == sep[|sep| - m..]
  {
    var s := a + sep + b;
    var k := |a| - i;
    var m := |sep| - k;
    forall j | 0 <= j < m ensures sep[..m][j] == sep[|sep| - m..][j] {
      calc {
        sep[|sep| - m..][j];
        s[i..i + |sep|][k + j];
        s[|a| + j];
        sep[..m][j];
      }
    }
  }

  /** With an unbordered separator, an occurrence in `a + sep + b` starting inside `a` lies wholly inside `a`. */
  lemma NoStraddle<T>(a: seq<T>, sep: seq<T>, b: seq<T>, i: nat)
    requires Unbordered(sep) && i < |a| && ContainsAt(a + sep + b, sep, i)
    ensures ContainsAt(a, sep, i)
  {
    if i + |sep| > |a| {
      Straddle(a, sep, b, i);
      assert false;
    }
    assert a[i..i + |sep|] == (a + sep + b)[i..i + |sep|];
  }

  /** When `a` has no occurrence, the first one in `a + sep + b` is the appended separator. */
  lemma FindAfterFree<T>(a: seq<T>, sep: seq<T>, b: seq<T>)
    requires Unbordered(sep) && Find(a, sep, 0).None?
    ensures IsFirst(a + sep + b, sep, |a|)
    ensures Find(a + sep + b, sep, 0) == Some(|a|)
  {
    var s := a + sep + b;
    assert s[|a|..|a| + |sep|] == sep;
    forall i: nat | i < |a| ensures !ContainsAt(s, sep, i) {
      if ContainsAt(s, sep, i) {
        NoStraddle(a, sep, b, i);
      }
    }
    FindFirst(s, sep, |a|);
  }

  /**
   * The first piece of a split is everything before the leftmost occurrence of the separator,
   * and the other pieces are the split of what follows that occurrence.
   */
  lemma SplitAt<T>(s: seq<T>, sep: seq<T>, p: nat)
    requires |sep| > 0 && IsFirst(s, sep, p)
    ensures Split(s, sep) == [s[..p]] + Split(s[p + |sep|..], sep)
  {
    FindFirst(s, sep, p);
    SplitStep(s, sep, p);
  }

  lemma SplitStep<T>(s: seq<T>, sep: seq<T>, p: nat)
    requires |sep| > 0 && Find(s, sep, 0) == Some(p)
    ensures p + |sep| <= |s| && Split(s, sep) == [s[..p]] + Split(s[p + |sep|..], sep)
  {
    match Find(s, sep, 0)
    case Some(q) =>
      assert q == p;
  }

  /** A sequence is its part before an occurrence, the occurrence and its part after. */
  lemma Decompose<T>(s: seq<T>, sep: seq<T>, p: nat)
    requires ContainsAt(s, sep, p)
    ensures s == s[..p] + sep + s[p + |sep|..]
  {
  }

  /** A separator-free piece, a separator and a rest split into the piece and the pieces of the rest. */
  lemma SplitCons<T>(x: seq<T>, sep: seq<T>, y: seq<T>)
    requires |sep| > 0 && Unbordered(sep) && Free(x, sep)
    ensures Split(x + sep + y, sep) == [x] + Split(y, sep)
  {
    var s := x + sep + y;
    FindNone(x, sep);
    FindAfterFree(x, sep, y);
    SplitAt(s, sep, |x|);
    assert s[..|x|] == x;
    assert s[|x| + |sep|..] == y;
  }

  /** Splitting at an occurrence of an unbordered separator splits the two sides independently. */
  lemma {:induction false} SplitAppend<T>(a: seq<T>, sep: seq<T>, b: seq<T>)
    requires |sep| > 0 && Unbordered(sep)
    ensures Split(a + sep + b, sep) == Split(a, sep) + Split(b, sep)
    decreases |a|
  {
    match Find(a, sep, 0)
    case None =>
      FindNone(a, sep);
      SplitCons(a, sep, b);
      SplitFree(a, sep);
    case Some(p) =>
      var x, r := a[..p], a[p + |sep|..];
      Decompose(a, sep, p);
      PrefixFree(a, sep, p);
      SplitCons(x, sep, r);
      Regroup(x, sep, r, b);
      SplitCons(x, sep, r + sep + b);
      SplitAppend(r, sep, b);
      Associative([x], Split(r, sep), Split(b, sep));
  }

  /** Splitting a join of separator-free pieces gives the pieces back. */
  lemma {:induction false} SplitJoin<T>(parts: seq<seq<T>>, sep: seq<T>)
    requires |sep| > 0 && Unbordered(sep) && |parts| > 0
    requires forall k :: 0 <= k < |parts| ==> Free(parts[k], sep)
    ensures Split(Join(parts, sep), sep) == parts
    decreases |parts|
  {
    if |parts| == 1 {
      SplitFree(parts[0], sep);
    } else {
      var rest := parts[1..];
      SplitJoin(rest, sep);
      assert Join(parts, sep) == parts[0] + sep + Join(rest, sep);
      SplitCons(parts[0], sep, Join(rest, sep));
      HeadTail(parts);
    }
  }

  /** `xs.index(x)`, with `None` where Python raises ValueError. */
  function IndexOf<T(==)>(xs: seq<T>, x: T): (r: Option<nat>)
    ensures r.Some? ==> r.value < |xs| && xs[r.value] == x && x !in xs[..r.value]
    ensures r.None? <==> x !in xs
  {
    if |xs| == 0 then None
    else if xs[0] == x then Some(0)
    else match IndexOf(xs[1..], x)
      case None => None
      case Some(k) =>
        assert xs[..k + 1] == [xs[0]] + xs[1..][..k];
        Some(k + 1)
  }
}

/**
 * Record bodies: all records of a batch but the last share one buffer, the last
 * one owns the rest of the response (batch/v1.go and batch/v2.go: slicing,
 * sliceReader; record.go: readStream).
 */
module Bodies {
  import opened Text
  import opened Headers

  /** io.EOF: the error of a stream that has ended as it should. */
  const EOF := "EOF"

  /** io.ErrUnexpectedEOF. */
  const UNEXPECTED_EOF := "unexpected EOF"

  function Min(a: nat, b: nat): nat {
    if a < b then a else b
  }

  /** What a response body will still give: its bytes, and the error that every later read returns. */
  datatype Stream = Stream(data: bytes, end: string)

  /** A body that arrives whole. */
  function Whole(data: bytes): Stream {
    Stream(data, EOF)
  }

  /** What io.ReadFull returns when the stream is short of what was asked for. */
  function ShortRead(s: Stream): string {
    if s.end == EOF && s.data != [] then UNEXPECTED_EOF else s.end
  }

  /** The response body: a stream that may deliver fewer bytes than asked for, and may break off. */
  class ResponseBody {
    var data: bytes
    const end: string

    constructor (data: bytes, end: string)
      ensures this.data == data && this.end == end
    {
      this.data := data;
      this.end := end;
    }

    function Left(): Stream
      reads this
    {
      Stream(data, end)
    }

    method Read(p: array<bv8>, from: nat) returns (n: nat, err: Option<string>)
      requires from <= p.Length
      modifies this, p
      ensures n <= Min(|old(data)|, p.Length - from)
      ensures old(data) != [] && from < p.Length ==> n > 0
      ensures err == if old(data) == [] then Some(end) else None
      ensures data == old(data)[n..]
      ensures p[..] == old(p[..from]) + old(data)[..n] + old(p[from + n..])
    {
      err := if data == [] then Some(end) else None;
      var limit := Min(|data|, p.Length - from);
      n := 0;
      if limit > 0 {
        n :| 0 < n <= limit;
      }
      Copy(data, n, p, from);
      data := data[n..];
    }
  }

  /** Go's `copy` of the first `n` bytes of `src` into `p[from:]`. */
  method Copy(src: bytes, n: nat, p: array<bv8>, from: nat)
    requires n <= |src| && from + n <= p.Length
    modifies p
    ensures p[..] == old(p[..from]) + src[..n] + old(p[from + n..])
  {
    for k := 0 to n
      invariant forall j :: 0 <= j < p.Length ==> p[j] == if from <= j < from + k then src[j - from] else old(p[j])
    {
      p[from + k] := src[k];
    }
  }

  /** An io.Writer that may accept only part of what it is given. */
  class Sink {
    var got: bytes

    constructor ()
      ensures got == []
    {
      got := [];
    }

    method Write(data: bytes) returns (n: nat, failed: bool)
      modifies this
      ensures n <= |data| && (n < |data| ==> failed)
      ensures got == old(got) + data[..n]
    {
      n :| 0 <= n <= |data|;
      failed := n < |data|;
      got := got + data[..n];
    }
  }

  /** sliceReader: the window `buf[lo:hi]` of the shared buffer, shrinking from the left. */
  class SliceReader {
    const buf: array<bv8>
    var lo: nat
    var hi: nat

    ghost predicate Valid()
      reads this
    {
      lo <= hi <= buf.Length
    }

    ghost function Remaining(): bytes
      requires Valid()
      reads this, buf
    {
      buf[lo..hi]
    }

    constructor (buf: array<bv8>, lo: nat, hi: nat)
      requires lo <= hi <= buf.Length
      ensures Valid() && this.buf == buf && this.lo == lo && this.hi == hi
    {
      this.buf := buf;
      this.lo := lo;
      this.hi := hi;
    }

    method Read(p: array<bv8>, from: nat) returns (n: nat, err: Option<string>)
      requires Valid() && from <= p.Length && p != buf
      modifies this`lo, p
      ensures Valid() && hi == old(hi)
      ensures n == Min(|old(Remaining())|, p.Length - from)
      ensures err == if old(Remaining()) == [] then Some(EOF) else None
      ensures Remaining() == old(Remaining())[n..]
      ensures p[..] == old(p[..from]) + old(Remaining())[..n] + old(p[from + n..])
    {
      if lo == hi {
        return 0, Some(EOF);
      }
      n := Min(hi - lo, p.Length - from);
      Copy(buf[lo..hi], n, p, from);
      lo := lo + n;
      err := None;
    }

    method WriteTo(w: Sink) returns (n: nat, failed: bool)
      requires Valid()
      modifies this`lo, w
      ensures Valid() && hi == old(hi)
      ensures n <= |old(Remaining())|
      ensures n < |old(Remaining())| ==> failed
      ensures w.got == old(w.got) + old(Remaining())[..n]
      ensures Remaining() == old(Remaining())[n..]
    {
      if lo == hi {
        return 0, false;
      }
      n, failed := w.Write(buf[lo..hi]);
      lo := lo + n;
    }
  }

  /** The three bodies a record can have. */
  datatype Body = Slice(reader: SliceReader) | Response(response: ResponseBody) | Empty {

    ghost predicate Valid()
      reads Reads()
    {
      Slice? ==> reader.Valid()
    }

    /** The objects a read may change. */
    ghost function Owned(): set<object> {
      match this
      case Slice(reader) => {reader}
      case Response(response) => {response}
      case Empty => {}
    }

    /** The objects the content lives in. */
    ghost function Reads(): (objects: set<object>)
      ensures Slice? ==> reader in objects
    {
      match this
      case Slice(reader) => {reader, reader.buf}
      case Response(response) => {response}
      case Empty => {}
    }

    ghost function Remaining(): bytes
      requires Valid()
      reads Reads()
    {
      match this
      case Slice(reader) => reader.Remaining()
      case Response(response) => response.data
      case Empty => []
    }

    /** The error that a read returns once everything is delivered. */
    function End(): string {
      match this
      case Response(response) => response.end
      case _ => EOF
    }

    method Read(p: array<bv8>, from: nat) returns (n: nat, err: Option<string>)
      requires Valid() && from <= p.Length && p !in Reads()
      modifies Owned(), p
      ensures Valid()
      ensures n <= Min(|old(Remaining())|, p.Length - from)
      ensures old(Remaining()) != [] && from < p.Length ==> n > 0
      ensures err == if old(Remaining()) == [] then Some(End()) else None
      ensures Remaining() == old(Remaining())[n..]
      ensures p[..] == old(p[..from]) + old(Remaining())[..n] + old(p[from + n..])
    {
      match this
      case Slice(reader) => n, err := reader.Read(p, from);
      case Response(response) => n, err := response.Read(p, from);
      case Empty => n, err := 0, Some(EOF);
    }

    /** The WriteTo that a window of the buffer offers, and no other body. */
    method WriteTo(w: Sink) returns (n: nat, failed: bool)
      requires Valid() && Slice? && w !in Reads()
      modifies Owned(), w
      ensures Valid()
      ensures n <= |old(Remaining())| && (n < |old(Remaining())| ==> failed)
      ensures w.got == old(w.got) + old(Remaining())[..n]
      ensures Remaining() == old(Remaining())[n..]
    {
      n, failed := reader.WriteTo(w);
    }
  }

  /** The first `n` of all the bytes lie in front of `p`, and the body holds the others. */
  ghost predicate Landed(body: Body, p: array<bv8>, all: bytes, n: nat)
    reads body.Reads(), p
  {
    body.Valid() && n <= p.Length && n <= |all| && body.Remaining() == all[n..] && p[..n] == all[..n]
  }

  /** One read of io.ReadFull. */
  method ReadMore(body: Body, p: array<bv8>, n: nat, ghost all: bytes) returns (k: nat, err: Option<string>)
    requires Landed(body, p, all, n) && p !in body.Reads()
    modifies body.Owned(), p
    ensures Landed(body, p, all, n + k)
    ensures err == if n == |all| then Some(body.End()) else None
    ensures err.None? && n < p.Length ==> k > 0
  {
    ghost var before := p[..];
    k, err := body.Read(p, n);
    assert p[..][..n + k] == p[..n + k] && before[..n] == old(p[..n]) && before[n + k..] == old(p[n + k..]);
    PieceLands(all, before, p[..], n, k);
  }

  lemma PieceLands(all: bytes, before: bytes, after: bytes, n: nat, k: nat)
    requires n + k <= |all| && n + k <= |before| && before[..n] == all[..n]
    requires after == before[..n] + all[n..][..k] + before[n + k..]
    ensures after[..n + k] == all[..n + k] && all[n..][k..] == all[n + k..]
  {
    assert after[..n + k] == all[..n] + all[n..][..k];
  }

  lemma LandedFromStart(body: Body, p: array<bv8>)
    requires body.Valid()
    ensures Landed(body, p, body.Remaining(), 0)
  {}

  lemma LandedIs(body: Body, p: array<bv8>, all: bytes, n: nat)
    requires Landed(body, p, all, n) && (n == p.Length || n == |all|)
    ensures body.Valid() && n == Min(|all|, p.Length) && n <= p.Length
    ensures p[..n] == all[..n] && body.Remaining() == all[n..]
  {}

  /** The loop of io.ReadFull. */
  method ReadUntilFull(body: Body, p: array<bv8>, ghost all: bytes) returns (n: nat, err: Option<string>)
    requires Landed(body, p, all, 0) && p !in body.Reads()
    modifies body.Owned(), p
    ensures Landed(body, p, all, n)
    ensures err.None? ==> n == p.Length
    ensures err.Some? ==> n == |all| && n < p.Length && err == Some(body.End())
  {
    hide *;
    n, err := 0, None;
    while n < p.Length
      invariant Landed(body, p, all, n) && n <= p.Length
    {
      var k;
      k, err := ReadMore(body, p, n, all);
      LandedBounds(body, p, all, n + k);
      if err.Some? {
        return n, err;
      }
      n := n + k;
    }
    err := None;
  }

  /** io.ReadFull: fills `p` from the body, or says how far it came and why it stopped. */
  method ReadFull(body: Body, p: array<bv8>) returns (n: nat, err: Option<string>)
    requires body.Valid() && p !in body.Reads()
    modifies body.Owned(), p
    ensures body.Valid()
    ensures n == Min(|old(body.Remaining())|, p.Length)
    ensures p[..n] == old(body.Remaining())[..n]
    ensures body.Remaining() == old(body.Remaining())[n..]
    ensures err == if n == p.Length then None else Some(ShortRead(Stream(old(body.Remaining()), body.End())))
  {
    ghost var all := body.Remaining();
    LandedFromStart(body, p);
    hide Landed, Body.Remaining, Body.Valid, Body.End, Body.Reads, Body.Owned;
    n, err := ReadUntilFull(body, p, all);
    LandedIs(body, p, all, n);
    if err.Some? && err.value == EOF && n > 0 {
      err := Some(UNEXPECTED_EOF);
    }
  }

  lemma LandedBounds(body: Body, p: array<bv8>, all: bytes, n: nat)
    requires Landed(body, p, all, n)
    ensures n <= p.Length && n <= |all|
  {}

  /**
   * readStream: the first min(size, available) bytes, or everything when no size
   * is known. A stream that ends early is no error, one that breaks is.
   */
  method ReadStream(body: Body, size: int) returns (r: Result<bytes>)
    requires body.Valid()
    modifies body.Owned()
    ensures body.Valid()
    ensures size <= 0 ==>
              r == if body.End() == EOF then Ok(old(body.Remaining())) else Err(body.End())
    ensures size > 0 ==>
              r == if size <= |old(body.Remaining())| || body.End() == EOF || body.End() == UNEXPECTED_EOF
                   then Ok(old(body.Remaining())[..Min(|old(body.Remaining())|, size)]) else Err(body.End())
    ensures body.Remaining() == if size <= 0 then [] else old(body.Remaining())[Min(|old(body.Remaining())|, size)..]
  {
    if size <= 0 {
      var data, err := ReadAll(body);
      r := if err.None? then Ok(data) else Err(err.value);
    } else {
      var buffer := new bv8[size];
      var n, err := ReadFull(body, buffer);
      if err.Some? && err.value != EOF && err.value != UNEXPECTED_EOF {
        return Err(err.value);
      }
      r := Ok(buffer[..n]);
    }
  }

  /** One read into the front of a buffer. */
  method ReadFront(body: Body, p: array<bv8>) returns (n: nat, err: Option<string>)
    requires body.Valid() && p !in body.Reads()
    modifies body.Owned(), p
    ensures body.Valid()
    ensures n <= Min(|old(body.Remaining())|, p.Length) && (old(body.Remaining()) != [] && p.Length > 0 ==> n > 0)
    ensures p[..n] == old(body.Remaining())[..n]
    ensures body.Remaining() == old(body.Remaining())[n..]
    ensures err == if old(body.Remaining()) == [] then Some(body.End()) else None
  {
    ghost var before := body.Remaining();
    n, err := body.Read(p, 0);
    assert p[..][..n] == p[..n] && before[0..] == before;
  }

  /** One read of io.ReadAll into a fresh chunk. */
  method ReadChunk(body: Body) returns (piece: bytes, err: Option<string>)
    requires body.Valid()
    modifies body.Owned()
    ensures body.Valid()
    ensures |piece| <= |old(body.Remaining())| && piece == old(body.Remaining())[..|piece|]
    ensures body.Remaining() == old(body.Remaining())[|piece|..]
    ensures err == if old(body.Remaining()) == [] then Some(body.End()) else None
    ensures err.None? ==> piece != []
  {
    var chunk := new bv8[512];
    var n;
    n, err := ReadFront(body, chunk);
    piece := chunk[..n];
  }

  lemma AppendPiece(all: bytes, k: nat, piece: bytes)
    requires k <= |all| && |piece| <= |all| - k && piece == all[k..][..|piece|]
    ensures all[..k] + piece == all[..k + |piece|]
    ensures all[k..][|piece|..] == all[k + |piece|..]
  {}

  /** io.ReadAll: reads chunk after chunk until the end. */
  method ReadAll(body: Body) returns (data: bytes, err: Option<string>)
    requires body.Valid()
    modifies body.Owned()
    ensures body.Valid()
    ensures data == old(body.Remaining()) && body.Remaining() == []
    ensures err == if body.End() == EOF then None else Some(body.End())
  {
    ghost var all := body.Remaining();
    hide *;
    data, err := [], None;
    while err.None?
      invariant body.Valid()
      invariant |data| <= |all| && data == all[..|data|]
      invariant body.Remaining() == all[|data|..]
      invariant err.Some? ==> |data| == |all| && err == Some(body.End())
      decreases |all| - |data|, err.None?
    {
      var piece;
      ghost var k := |data|;
      piece, err := ReadChunk(body);
      AppendPiece(all, k, piece);
      data := data + piece;
    }
    if err.value == EOF {
      err := None;
    }
  }

  // ---- the partition of the buffer ----------------------------------------------------

  /** The sum of the positive sizes of all records but the last. */
  function BufferedSize(sizes: seq<int>): nat {
    if |sizes| <= 1 then 0
    else (if sizes[0] > 0 then sizes[0] else 0) + BufferedSize(sizes[1..])
  }

  function Sum(sizes: seq<nat>): nat {
    if sizes == [] then 0 else Sum(sizes[..|sizes| - 1]) + sizes[|sizes| - 1]
  }

  /** Where the body of record `i` starts. */
  function Offset(sizes: seq<nat>, i: nat): nat
    requires i <= |sizes|
  {
    Sum(sizes[..i])
  }

  lemma OffsetStep(sizes: seq<nat>, i: nat)
    requires i < |sizes|
    ensures Offset(sizes, i + 1) == Offset(sizes, i) + sizes[i]
  {
    assert sizes[..i + 1][..i] == sizes[..i];
  }

  lemma {:induction false} OffsetMonotone(sizes: seq<nat>, i: nat, j: nat)
    requires i <= j <= |sizes|
    ensures Offset(sizes, i) <= Offset(sizes, j)
    decreases j - i
  {
    if i < j {
      OffsetStep(sizes, j - 1);
      OffsetMonotone(sizes, i, j - 1);
    }
  }

  /** The window of record `i`: the last record owns what no other record has. */
  function Window(sizes: seq<nat>, body: bytes, i: nat): bytes
    requires i < |sizes| && Offset(sizes, |sizes| - 1) <= |body|
  {
    OffsetMonotone(sizes, i, |sizes| - 1);
    if i == |sizes| - 1 then body[Offset(sizes, i)..]
    else
      OffsetMonotone(sizes, i + 1, |sizes| - 1);
      OffsetStep(sizes, i);
      body[Offset(sizes, i)..Offset(sizes, i + 1)]
  }

  function Concat(parts: seq<bytes>): bytes {
    if parts == [] then [] else Concat(parts[..|parts| - 1]) + parts[|parts| - 1]
  }

  function Windows(sizes: seq<nat>, body: bytes): (ws: seq<bytes>)
    requires sizes != [] && Offset(sizes, |sizes| - 1) <= |body|
    ensures |ws| == |sizes|
    ensures forall i :: 0 <= i < |sizes| ==> ws[i] == Window(sizes, body, i)
  {
    seq(|sizes|, i requires 0 <= i < |sizes| => Window(sizes, body, i))
  }

  lemma {:induction false} WindowsPrefix(sizes: seq<nat>, body: bytes, n: nat)
    requires sizes != [] && Offset(sizes, |sizes| - 1) <= |body| && n < |sizes|
    ensures Offset(sizes, n) <= |body|
    ensures Concat(Windows(sizes, body)[..n]) == body[..Offset(sizes, n)]
  {
    OffsetMonotone(sizes, n, |sizes| - 1);
    if n > 0 {
      hide Offset;
      WindowsPrefix(sizes, body, n - 1);
      WindowIs(sizes, body, n - 1);
      ConcatSnoc(Windows(sizes, body), n - 1);
      FrontAndWindow(body, Offset(sizes, n - 1), Offset(sizes, n));
    }
  }

  lemma WindowIs(sizes: seq<nat>, body: bytes, i: nat)
    requires sizes != [] && Offset(sizes, |sizes| - 1) <= |body| && i < |sizes| - 1
    ensures Offset(sizes, i) <= Offset(sizes, i + 1) <= |body|
    ensures Window(sizes, body, i) == body[Offset(sizes, i)..Offset(sizes, i + 1)]
  {
    hide Offset;
    OffsetMonotone(sizes, i, i + 1);
    OffsetMonotone(sizes, i + 1, |sizes| - 1);
  }

  lemma ConcatSnoc(parts: seq<bytes>, n: nat)
    requires n < |parts|
    ensures Concat(parts[..n + 1]) == Concat(parts[..n]) + parts[n]
  {
    assert parts[..n + 1][..n] == parts[..n];
  }

  lemma FrontAndWindow(body: bytes, lo: nat, hi: nat)
    requires lo <= hi <= |body|
    ensures body[..lo] + body[lo..hi] == body[..hi]
  {}

  /** The windows are contiguous and cover the body: put together they give it back. */
  lemma WindowsCover(sizes: seq<nat>, body: bytes)
    requires sizes != [] && Offset(sizes, |sizes| - 1) <= |body|
    ensures Concat(Windows(sizes, body)) == body
  {
    var ws, last := Windows(sizes, body), |sizes| - 1;
    WindowsPrefix(sizes, body, last);
    assert ws[..|ws| - 1] == ws[..last];
    assert ws[last] == body[Offset(sizes, last)..];
  }

  function Lengths(parts: seq<bytes>): (ns: seq<nat>)
    ensures |ns| == |parts|
    ensures forall i :: 0 <= i < |parts| ==> ns[i] == |parts[i]|
  {
    seq(|parts|, i requires 0 <= i < |parts| => |parts[i]|)
  }

  lemma {:induction false} ConcatPrefix(parts: seq<bytes>, n: nat)
    requires n <= |parts|
    ensures Offset(Lengths(parts), n) == |Concat(parts[..n])| <= |Concat(parts)|
    ensures Concat(parts)[..Offset(Lengths(parts), n)] == Concat(parts[..n])
    decreases |parts|
  {
    if n < |parts| {
      var init := parts[..|parts| - 1];
      ConcatPrefix(init, n);
      assert init[..n] == parts[..n] && Lengths(init)[..n] == Lengths(parts)[..n];
    } else {
      assert parts[..n] == parts;
      if n > 0 {
        ConcatPrefix(parts[..n - 1], n - 1);
        assert parts[..n - 1][..n - 1] == parts[..n - 1];
        OffsetStep(Lengths(parts), n - 1);
        assert Lengths(parts[..n - 1])[..n - 1] == Lengths(parts)[..n - 1];
      }
    }
  }

  /** Of a body put together from parts, every record's window is its own part. */
  lemma {:induction false} WindowOfConcat(parts: seq<bytes>, i: nat)
    requires i < |parts|
    ensures Offset(Lengths(parts), |parts| - 1) <= |Concat(parts)|
    ensures Window(Lengths(parts), Concat(parts), i) == parts[i]
  {
    hide Offset;
    ConcatPrefix(parts, i);
    ConcatPrefix(parts, i + 1);
    ConcatPrefix(parts, |parts| - 1);
    ConcatPrefix(parts, |parts|);
    assert parts[..|parts|] == parts && parts[..i + 1][..i] == parts[..i];
    assert Concat(parts[..i + 1]) == Concat(parts[..i]) + parts[i];
    var body, lo, hi := Concat(parts), Offset(Lengths(parts), i), Offset(Lengths(parts), i + 1);
    assert body[lo..hi] == body[..hi][lo..] == parts[i];
    if i == |parts| - 1 {
      assert hi == |body|;
    }
  }

  lemma {:induction false} BufferedIsOffset(sizes: seq<nat>)
    requires sizes != []
    ensures BufferedSize(sizes) == Offset(sizes, |sizes| - 1)
  {
    if |sizes| > 1 {
      BufferedIsOffset(sizes[1..]);
      SumHead(sizes[..|sizes| - 1]);
      assert sizes[..|sizes| - 1][1..] == sizes[1..][..|sizes| - 2];
    }
  }

  lemma {:induction false} SumHead(sizes: seq<nat>)
    requires sizes != []
    ensures Sum(sizes) == sizes[0] + Sum(sizes[1..])
  {
    if |sizes| > 1 {
      SumHead(sizes[..|sizes| - 1]);
      assert sizes[..|sizes| - 1][1..] == sizes[1..][..|sizes| - 2];
    }
  }

  // ---- cutting the buffer ----------------------------------------------------------------

  /** The body of record `i`: nothing, a window of the shared buffer, or the stream for the last one. */
  ghost predicate CutAt(body: Body, buffered: array<bv8>, sizes: seq<nat>, response: ResponseBody, head: bool, i: nat)
    requires i < |sizes|
    reads if body.Slice? then {body.reader} else {}
  {
    if head then body == Empty
    else if i == |sizes| - 1 then body == Response(response)
    else body.Slice? && body.reader.Valid() && body.reader.buf == buffered
         && body.reader.lo == Offset(sizes, i) && body.reader.hi == Offset(sizes, i + 1)
  }

  ghost predicate DistinctReaders(bodies: seq<Body>) {
    forall i, j :: 0 <= i < j < |bodies| && bodies[i].Slice? && bodies[j].Slice? ==>
      bodies[i].reader != bodies[j].reader
  }

  /** One turn of the slicing loop. */
  method CutBody(buffered: array<bv8>, sizes: seq<nat>, response: ResponseBody, head: bool, i: nat, offset: nat)
    returns (body: Body, next: nat)
    requires i < |sizes|
    requires !head ==> Offset(sizes, |sizes| - 1) <= buffered.Length && offset == Offset(sizes, i)
    ensures CutAt(body, buffered, sizes, response, head, i)
    ensures body.Slice? ==> fresh(body.reader)
    ensures !head && i < |sizes| - 1 ==> next == Offset(sizes, i + 1)
  {
    next := offset;
    if head {
      body := Empty;
    } else if i == |sizes| - 1 {
      body := Response(response);
    } else {
      OffsetStep(sizes, i);
      OffsetMonotone(sizes, i + 1, |sizes| - 1);
      var reader := new SliceReader(buffered, offset, offset + sizes[i]);
      next := offset + sizes[i];
      body := Slice(reader);
    }
  }

  /** The slicing loop of both readers: `buffered[offset:offset+size]`, then the response itself. */
  method CutBodies(buffered: array<bv8>, sizes: seq<nat>, response: ResponseBody, head: bool)
    returns (bodies: seq<Body>)
    requires sizes != []
    requires !head ==> Offset(sizes, |sizes| - 1) <= buffered.Length
    ensures |bodies| == |sizes|
    ensures forall i :: 0 <= i < |bodies| ==> CutAt(bodies[i], buffered, sizes, response, head, i)
    ensures forall i :: 0 <= i < |bodies| && bodies[i].Slice? ==> fresh(bodies[i].reader)
    ensures DistinctReaders(bodies)
  {
    bodies := [];
    var offset := 0;
    for i := 0 to |sizes|
      invariant |bodies| == i
      invariant !head && i < |sizes| ==> offset == Offset(sizes, i)
      invariant forall k :: 0 <= k < i && bodies[k].Slice? ==> fresh(bodies[k].reader)
      invariant DistinctReaders(bodies)
      invariant forall k :: 0 <= k < i ==> CutAt(bodies[k], buffered, sizes, response, head, k)
    {
      var body;
      body, offset := CutBody(buffered, sizes, response, head, i, offset);
      bodies := bodies + [body];
    }
  }

  // ---- any interleaving of reads and writes ----------------------------------------------

  /** One consumer action: up to `want` bytes of record `i` leave its body, by a Read or by a WriteTo. */
  datatype Take = Take(i: nat, want: nat)

  /** What every record has delivered so far, and what it still holds. */
  datatype Progress = Progress(out: bytes, rest: bytes)

  function TakeStep(ps: seq<Progress>, t: Take): (qs: seq<Progress>)
    ensures |qs| == |ps|
  {
    if t.i < |ps| then
      var p := ps[t.i];
      var n := Min(t.want, |p.rest|);
      ps[t.i := Progress(p.out + p.rest[..n], p.rest[n..])]
    else ps
  }

  function TakeAll(ps: seq<Progress>, ts: seq<Take>): (qs: seq<Progress>)
    ensures |qs| == |ps|
  {
    if ts == [] then ps else TakeStep(TakeAll(ps, ts[..|ts| - 1]), ts[|ts| - 1])
  }

  function Start(contents: seq<bytes>): (ps: seq<Progress>)
    ensures |ps| == |contents|
  {
    seq(|contents|, i requires 0 <= i < |contents| => Progress([], contents[i]))
  }

  function Wanted(ts: seq<Take>, i: nat): nat {
    if ts == [] then 0
    else Wanted(ts[..|ts| - 1], i) + if ts[|ts| - 1].i == i then ts[|ts| - 1].want else 0
  }

  /**
   * Taking from the records in any order and in any pieces gives each record
   * exactly its own bytes, as many as were asked of it.
   */
  lemma {:induction false} TakesAreIndependent(contents: seq<bytes>, ts: seq<Take>, i: nat)
    requires i < |contents|
    ensures var p := TakeAll(Start(contents), ts)[i];
            && p.out + p.rest == contents[i]
            && |p.out| == Min(Wanted(ts, i), |contents[i]|)
  {
    if ts != [] {
      TakesAreIndependent(contents, ts[..|ts| - 1], i);
      var t, p := ts[|ts| - 1], TakeAll(Start(contents), ts[..|ts| - 1])[i];
      if t.i == i {
        var n := Min(t.want, |p.rest|);
        assert p.out + p.rest[..n] + p.rest[n..] == p.out + p.rest;
      }
    }
  }

  // ---- the same on real bodies -----------------------------------------------------------

  ghost function AllReads(bodies: seq<Body>): set<object> {
    set i, o | 0 <= i < |bodies| && o in bodies[i].Reads() :: o
  }

  ghost function AllOwned(bodies: seq<Body>): set<object> {
    set i, o | 0 <= i < |bodies| && o in bodies[i].Owned() :: o
  }

  ghost predicate AllValid(bodies: seq<Body>)
    reads AllReads(bodies)
  {
    forall i :: 0 <= i < |bodies| ==> bodies[i].Valid()
  }

  /** No use of one record moves the position of another. */
  ghost predicate Independent(bodies: seq<Body>) {
    forall i, j :: 0 <= i < |bodies| && 0 <= j < |bodies| && i != j ==> bodies[i].Owned() !! bodies[j].Owned()
  }

  ghost function Contents(bodies: seq<Body>): (contents: seq<bytes>)
    requires AllValid(bodies)
    reads AllReads(bodies)
    ensures |contents| == |bodies|
    ensures forall i :: 0 <= i < |bodies| ==> contents[i] == bodies[i].Remaining()
  {
    seq(|bodies|, i requires 0 <= i < |bodies| && AllValid(bodies) reads AllReads(bodies) => ContentAt(bodies, i))
  }

  ghost function ContentAt(bodies: seq<Body>, i: nat): bytes
    requires i < |bodies| && AllValid(bodies)
    reads AllReads(bodies)
  {
    ReadsAt(bodies, i);
    bodies[i].Remaining()
  }

  lemma ReadsAt(bodies: seq<Body>, i: nat)
    requires i < |bodies|
    ensures bodies[i].Reads() <= AllReads(bodies) && bodies[i].Owned() <= AllOwned(bodies)
  {}

  /** The bodies hold what the abstract consumer still has to get. */
  ghost predicate Hold(bodies: seq<Body>, ps: seq<Progress>)
    requires AllValid(bodies)
    reads AllReads(bodies)
  {
    |ps| == |bodies| && forall i :: 0 <= i < |bodies| ==> bodies[i].Remaining() == ps[i].rest
  }

  /** What CutBodies returns shares no position, although the records share one buffer. */
  lemma CutBodiesAreIndependent(bodies: seq<Body>, buffered: array<bv8>, sizes: seq<nat>, response: ResponseBody,
                                head: bool)
    requires |bodies| == |sizes| && DistinctReaders(bodies)
    requires forall i :: 0 <= i < |bodies| ==> CutAt(bodies[i], buffered, sizes, response, head, i)
    ensures Independent(bodies) && AllValid(bodies)
  {
    forall i, j | 0 <= i < |bodies| && 0 <= j < |bodies| && i != j ensures bodies[i].Owned() !! bodies[j].Owned() {
      var lo, hi := if i < j then i else j, if i < j then j else i;
      assert CutAt(bodies[lo], buffered, sizes, response, head, lo) && CutAt(bodies[hi], buffered, sizes, response, head, hi);
    }
  }

  lemma TakeStepIs(ps: seq<Progress>, i: nat, n: nat)
    requires i < |ps| && n <= |ps[i].rest|
    ensures TakeStep(ps, Take(i, n))[i] == Progress(ps[i].out + ps[i].rest[..n], ps[i].rest[n..])
    ensures forall j :: 0 <= j < |ps| && j != i ==> TakeStep(ps, Take(i, n))[j] == ps[j]
  {}

  /** A read of one record is one step of the abstract consumer: the others keep what they hold. */
  method ReadOne(bodies: seq<Body>, i: nat, p: array<bv8>, ghost ps: seq<Progress>) returns (n: nat)
    requires i < |bodies| && AllValid(bodies) && Independent(bodies) && p !in AllReads(bodies) && Hold(bodies, ps)
    modifies bodies[i].Owned(), p
    ensures AllValid(bodies) && Hold(bodies, TakeStep(ps, Take(i, n)))
    ensures n <= p.Length && (p.Length > 0 && ps[i].rest != [] ==> n > 0)
    ensures TakeStep(ps, Take(i, n))[i].out == ps[i].out + p[..n]
  {
    hide TakeStep;
    var err;
    n, err := ReadAlone(bodies, i, p);
    TakeStepIs(ps, i, n);
  }

  /** A read changes the position of its own record only. */
  method ReadAlone(bodies: seq<Body>, i: nat, p: array<bv8>) returns (n: nat, err: Option<string>)
    requires i < |bodies| && AllValid(bodies) && Independent(bodies) && p !in AllReads(bodies)
    modifies bodies[i].Owned(), p
    ensures AllValid(bodies)
    ensures n <= Min(|old(bodies[i].Remaining())|, p.Length) && (old(bodies[i].Remaining()) != [] && p.Length > 0 ==> n > 0)
    ensures p[..n] == old(bodies[i].Remaining())[..n]
    ensures bodies[i].Remaining() == old(bodies[i].Remaining())[n..]
    ensures forall j :: 0 <= j < |bodies| && j != i ==> bodies[j].Remaining() == old(bodies[j].Remaining())
  {
    assert forall j :: 0 <= j < |bodies| ==> bodies[j].Reads() <= AllReads(bodies);
    n, err := ReadFront(bodies[i], p);
  }

  /** A WriteTo of one record, however much the writer accepts, is such a step too. */
  method WriteOne(bodies: seq<Body>, i: nat, w: Sink, ghost ps: seq<Progress>) returns (n: nat, failed: bool)
    requires i < |bodies| && bodies[i].Slice? && AllValid(bodies) && Independent(bodies) && w !in AllReads(bodies)
    requires Hold(bodies, ps)
    modifies bodies[i].Owned(), w
    ensures AllValid(bodies) && Hold(bodies, TakeStep(ps, Take(i, n)))
    ensures n <= |ps[i].rest| && (n < |ps[i].rest| ==> failed)
    ensures w.got == old(w.got) + ps[i].rest[..n]
    ensures TakeStep(ps, Take(i, n))[i].out == ps[i].out + ps[i].rest[..n]
  {
    hide TakeStep;
    n, failed := WriteAlone(bodies, i, w);
    TakeStepIs(ps, i, n);
  }

  /** A write changes the position of its own record only. */
  method WriteAlone(bodies: seq<Body>, i: nat, w: Sink) returns (n: nat, failed: bool)
    requires i < |bodies| && bodies[i].Slice? && AllValid(bodies) && Independent(bodies) && w !in AllReads(bodies)
    modifies bodies[i].Owned(), w
    ensures AllValid(bodies)
    ensures n <= |old(bodies[i].Remaining())| && (n < |old(bodies[i].Remaining())| ==> failed)
    ensures w.got == old(w.got) + old(bodies[i].Remaining())[..n]
    ensures bodies[i].Remaining() == old(bodies[i].Remaining())[n..]
    ensures forall j :: 0 <= j < |bodies| && j != i ==> bodies[j].Remaining() == old(bodies[j].Remaining())
  {
    assert forall j :: 0 <= j < |bodies| ==> bodies[j].Reads() <= AllReads(bodies);
    n, failed := bodies[i].WriteTo(w);
  }

  /** What a consumer does next: read record `i` into a buffer of some size, or write it to a writer. */
  datatype Use = Reading(i: nat, size: nat) | Writing(i: nat)

  /** A use of a record of the batch; only a window of the buffer can be written. */
  predicate Allowed(use: Use, bodies: seq<Body>) {
    use.i < |bodies| && (use.Writing? ==> bodies[use.i].Slice?)
  }

  /** What such a use takes is from its own record, and no more than the buffer holds. */
  predicate Fits(take: Take, use: Use) {
    take.i == use.i && (use.Reading? ==> take.want <= use.size)
  }

  /** One use of a record and the bytes it gives. */
  method UseOne(bodies: seq<Body>, use: Use, ghost ps: seq<Progress>) returns (piece: bytes)
    requires Allowed(use, bodies) && AllValid(bodies) && Independent(bodies) && Hold(bodies, ps)
    modifies bodies[use.i].Owned()
    ensures AllValid(bodies) && Hold(bodies, TakeStep(ps, Take(use.i, |piece|)))
    ensures use.Reading? ==> |piece| <= use.size
    ensures TakeStep(ps, Take(use.i, |piece|))[use.i].out == ps[use.i].out + piece
  {
    hide TakeStep, Independent;
    if use.Reading? {
      var p := new bv8[use.size];
      var n := ReadOne(bodies, use.i, p, ps);
      piece := p[..n];
    } else {
      var w := new Sink();
      var n, failed := WriteOne(bodies, use.i, w, ps);
      piece := w.got;
    }
  }

  /** What the consumer has got is what the abstract consumer has got. */
  ghost predicate Got(outs: seq<bytes>, ps: seq<Progress>) {
    |outs| == |ps| && forall i :: 0 <= i < |outs| ==> outs[i] == ps[i].out
  }

  lemma {:induction false} GotStep(outs: seq<bytes>, contents: seq<bytes>, ts: seq<Take>, i: nat, piece: bytes)
    requires i < |contents| && Got(outs, TakeAll(Start(contents), ts))
    requires var ps := TakeAll(Start(contents), ts);
             TakeStep(ps, Take(i, |piece|))[i].out == ps[i].out + piece
    ensures TakeAll(Start(contents), ts + [Take(i, |piece|)]) == TakeStep(TakeAll(Start(contents), ts), Take(i, |piece|))
    ensures Got(outs[i := outs[i] + piece], TakeAll(Start(contents), ts + [Take(i, |piece|)]))
  {
    assert (ts + [Take(i, |piece|)])[..|ts|] == ts;
  }

  /** The real consumer is where the abstract one is. */
  ghost predicate Follows(bodies: seq<Body>, outs: seq<bytes>, contents: seq<bytes>, takes: seq<Take>)
    reads AllReads(bodies)
  {
    && AllValid(bodies) && |contents| == |bodies|
    && Got(outs, TakeAll(Start(contents), takes)) && Hold(bodies, TakeAll(Start(contents), takes))
  }

  lemma FollowsFromStart(bodies: seq<Body>, outs: seq<bytes>)
    requires AllValid(bodies) && |outs| == |bodies| && forall i :: 0 <= i < |outs| ==> outs[i] == []
    ensures Follows(bodies, outs, Contents(bodies), [])
  {}

  lemma FollowsGivesOwn(bodies: seq<Body>, outs: seq<bytes>, contents: seq<bytes>, takes: seq<Take>)
    requires Follows(bodies, outs, contents, takes)
    ensures AllValid(bodies) && |outs| == |bodies| == |contents|
    ensures forall i :: 0 <= i < |bodies| ==> outs[i] + bodies[i].Remaining() == contents[i]
  {
    hide TakeAll;
    forall i | 0 <= i < |bodies| ensures outs[i] + bodies[i].Remaining() == contents[i] {
      TakesAreIndependent(contents, takes, i);
    }
  }

  /** One turn of the consumer's loop. */
  method UseNext(bodies: seq<Body>, use: Use, outs: seq<bytes>, ghost contents: seq<bytes>, ghost takes: seq<Take>)
    returns (more: seq<bytes>, ghost take: Take)
    requires Allowed(use, bodies) && Independent(bodies) && Follows(bodies, outs, contents, takes)
    modifies bodies[use.i].Owned()
    ensures Fits(take, use) && Follows(bodies, more, contents, takes + [take])
  {
    hide TakeStep, TakeAll, Start, Independent, AllValid, Hold;
    var piece := UseOne(bodies, use, TakeAll(Start(contents), takes));
    GotStep(outs, contents, takes, use.i, piece);
    more, take := outs[use.i := outs[use.i] + piece], Take(use.i, |piece|);
  }

  lemma FitsSnoc(takes: seq<Take>, uses: seq<Use>, take: Take)
    requires |takes| < |uses| && (forall j :: 0 <= j < |takes| ==> Fits(takes[j], uses[j])) && Fits(take, uses[|takes|])
    ensures forall j :: 0 <= j < |takes + [take]| ==> Fits((takes + [take])[j], uses[j])
  {}

  /** The consumer's loop. */
  method UseInTurn(bodies: seq<Body>, uses: seq<Use>, ghost contents: seq<bytes>)
    returns (outs: seq<bytes>, ghost takes: seq<Take>)
    requires Independent(bodies) && Follows(bodies, seq(|bodies|, i => []), contents, [])
    requires forall k :: 0 <= k < |uses| ==> Allowed(uses[k], bodies)
    modifies AllOwned(bodies)
    ensures |takes| == |uses| && forall k :: 0 <= k < |uses| ==> Fits(takes[k], uses[k])
    ensures Follows(bodies, outs, contents, takes)
  {
    hide *;
    takes, outs := [], seq(|bodies|, i => []);
    for k := 0 to |uses|
      invariant Follows(bodies, outs, contents, takes) && |takes| == k
      invariant forall j :: 0 <= j < |takes| ==> Fits(takes[j], uses[j])
    {
      AllowedAt(bodies, uses, k);
      ReadsAt(bodies, uses[k].i);
      ghost var take;
      outs, take := UseNext(bodies, uses[k], outs, contents, takes);
      FitsSnoc(takes, uses, take);
      takes := takes + [take];
    }
  }

  lemma AllowedAt(bodies: seq<Body>, uses: seq<Use>, k: nat)
    requires k < |uses| && forall k :: 0 <= k < |uses| ==> Allowed(uses[k], bodies)
    ensures Allowed(uses[k], bodies) && uses[k].i < |bodies|
  {}

  /**
   * Any schedule of reads and partial writes over the records of a batch: every
   * record gives its own bytes in order, and what it has not given it still holds.
   */
  method UseAll(bodies: seq<Body>, uses: seq<Use>) returns (outs: seq<bytes>, ghost takes: seq<Take>)
    requires AllValid(bodies) && Independent(bodies)
    requires forall k :: 0 <= k < |uses| ==> Allowed(uses[k], bodies)
    modifies AllOwned(bodies)
    ensures |takes| == |uses| && forall k :: 0 <= k < |uses| ==> Fits(takes[k], uses[k])
    ensures Follows(bodies, outs, old(Contents(bodies)), takes)
    ensures AllValid(bodies) && |outs| == |bodies|
    ensures forall i :: 0 <= i < |bodies| ==> outs[i] + bodies[i].Remaining() == old(bodies[i].Remaining())
  {
    ghost var contents := Contents(bodies);
    FollowsFromStart(bodies, seq(|bodies|, i => []));
    outs, takes := UseInTurn(bodies, uses, contents);
    FollowsGivesOwn(bodies, outs, contents, takes);
  }
}

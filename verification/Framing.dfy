/**
 * The supervisor's wire protocol: four bytes of big-endian length, then that many bytes of JSON.
 * Values of type J travel through a codec: `stringify` is JSON.stringify in UTF-8, `parse` JSON.parse.
 */
module Framing {
  import opened Text
  import opened Sequences

  type Byte = b: int | 0 <= b < 256
  type Bytes = seq<Byte>

  const MAX_FRAME_BYTES: nat := 64 * 1024
  const MAX_RESPONSE_BYTES: nat := 256 * 1024

  datatype Codec<!J> = Codec(stringify: J -> Bytes, parse: Bytes -> Option<J>)

  /** Parsing undoes printing. */
  ghost predicate CodecOk<J(!new)>(c: Codec<J>) {
    forall v :: c.parse(c.stringify(v)) == Some(v)
  }

  // ---- headers ----

  function U32(n: nat): (h: Bytes)
    requires n < 0x1_0000_0000
    ensures |h| == 4
  {
    [n / 0x100_0000, n / 0x1_0000 % 256, n / 256 % 256, n % 256]
  }

  function ReadU32(b: Bytes): nat
    requires |b| >= 4
  {
    ((b[0] as int * 256 + b[1] as int) * 256 + b[2] as int) * 256 + b[3] as int
  }

  lemma ReadBackU32(n: nat, rest: Bytes)
    requires n < 0x1_0000_0000
    ensures ReadU32(U32(n) + rest) == n
  {
    var q1 := n / 256;
    var q2 := q1 / 256;
    var q3 := q2 / 256;
    assert n / 0x1_0000 == q2 && n / 0x100_0000 == q3;
    var h := U32(n) + rest;
    assert h[0] == q3 && h[1] == q2 % 256 && h[2] == q1 % 256 && h[3] == n % 256;
  }

  // ---- encoding ----

  /** encodeFrame: None stands for the exception on oversized bodies. */
  function EncodeFrame<J>(c: Codec<J>, v: J): Option<Bytes> {
    var body := c.stringify(v);
    if |body| > MAX_FRAME_BYTES then None else Some(U32(|body|) + body)
  }

  /** The second size check of the handler never fires. */
  lemma EncodedIsSmall<J>(c: Codec<J>, v: J)
    ensures EncodeFrame(c, v).Some? ==> |EncodeFrame(c, v).value| <= MAX_FRAME_BYTES + 4 < MAX_RESPONSE_BYTES
  {
  }

  method WriteFrame<J>(c: Codec<J>, v: J) returns (r: Option<Bytes>)
    ensures r == EncodeFrame(c, v)
  {
    var body := c.stringify(v);
    if |body| > MAX_FRAME_BYTES {
      return None;
    }
    var header := new Byte[4];
    var rest := |body|;
    var at := 4;
    while at > 0
      invariant 0 <= at <= 4 && 0 <= rest
      invariant at == 4 ==> rest == |body|
      invariant at == 3 ==> rest == |body| / 256
      invariant at == 2 ==> rest == |body| / 256 / 256
      invariant at == 1 ==> rest == |body| / 256 / 256 / 256
      invariant at < 4 ==> header[3] == |body| % 256
      invariant at < 3 ==> header[2] == |body| / 256 % 256
      invariant at < 2 ==> header[1] == |body| / 256 / 256 % 256
      invariant at < 1 ==> header[0] == |body| / 256 / 256 / 256 % 256
    {
      at := at - 1;
      header[at] := rest % 256;
      rest := rest / 256;
    }
    var n := |body|;
    assert n / 256 / 256 == n / 0x1_0000 && n / 256 / 256 / 256 == n / 0x100_0000 < 256;
    assert header[..] == U32(n);
    return Some(header[..] + body);
  }

  // ---- decoding ----

  datatype FrameError = FrameTooLarge | MalformedFrame

  datatype Decoded<+J> = Decoded(frames: seq<J>, rest: Bytes, error: Option<FrameError>)

  function Decode<J>(c: Codec<J>, b: Bytes): (d: Decoded<J>)
    ensures d.error.None? ==> |d.rest| < MAX_FRAME_BYTES + 4
    ensures |d.rest| <= |b|
    decreases |b|
  {
    if |b| < 4 then Decoded([], b, None)
    else
      var declared := ReadU32(b);
      if declared > MAX_FRAME_BYTES then Decoded([], [], Some(FrameTooLarge))
      else if |b| < 4 + declared then Decoded([], b, None)
      else match c.parse(b[4..4 + declared])
        case None => Decoded([], [], Some(MalformedFrame))
        case Some(v) => Before([v], Decode(c, b[4 + declared..]))
  }

  function Before<J>(frames: seq<J>, d: Decoded<J>): Decoded<J> {
    d.(frames := frames + d.frames)
  }

  method DecodeFrames<J>(c: Codec<J>, buffer: Bytes) returns (d: Decoded<J>)
    ensures d == Decode(c, buffer)
  {
    var frames: seq<J>, rest := [], buffer;
    while true
      invariant Decode(c, buffer) == Before(frames, Decode(c, rest))
      decreases |rest|
    {
      if |rest| < 4 {
        return Decoded(frames, rest, None);
      }
      var declared := ReadU32(rest);
      if declared > MAX_FRAME_BYTES {
        return Decoded(frames, [], Some(FrameTooLarge));
      }
      if |rest| < 4 + declared {
        return Decoded(frames, rest, None);
      }
      var body := rest[4..4 + declared];
      rest := rest[4 + declared..];
      match c.parse(body) {
        case None => return Decoded(frames, [], Some(MalformedFrame));
        case Some(v) =>
          assert frames + ([v] + Decode(c, rest).frames) == (frames + [v]) + Decode(c, rest).frames;
          frames := frames + [v];
      }
    }
  }

  /** Decoding in two pieces: what is left of the first goes in front of the second. */
  function Resume<J>(c: Codec<J>, d: Decoded<J>, more: Bytes): Decoded<J> {
    if d.error.Some? then d else Before(d.frames, Decode(c, d.rest + more))
  }

  lemma HeaderOfPrefix(a: Bytes, b: Bytes)
    requires |a| >= 4
    ensures ReadU32(a + b) == ReadU32(a)
  {
  }

  /** The buffer begins with a whole frame of an admissible size. */
  predicate HasFrame(b: Bytes) { |b| >= 4 && ReadU32(b) <= MAX_FRAME_BYTES && |b| >= 4 + ReadU32(b) }

  lemma DecodeStep<J>(c: Codec<J>, b: Bytes)
    ensures Decode(c, b) ==
      if |b| < 4 then Decoded([], b, None)
      else if ReadU32(b) > MAX_FRAME_BYTES then Decoded([], [], Some(FrameTooLarge))
      else if !HasFrame(b) then Decoded([], b, None)
      else match c.parse(b[4..4 + ReadU32(b)])
        case None => Decoded([], [], Some(MalformedFrame))
        case Some(v) => Before([v], Decode(c, b[4 + ReadU32(b)..]))
  {
  }

  lemma {:induction false} DecodeInPieces<J>(c: Codec<J>, a: Bytes, b: Bytes)
    ensures Decode(c, a + b) == Resume(c, Decode(c, a), b)
    decreases |a|
  {
    hide ReadU32, Decode;
    DecodeStep(c, a);
    if |a| < 4 || (!HasFrame(a) && ReadU32(a) <= MAX_FRAME_BYTES) {
      assert [] + Decode(c, a + b).frames == Decode(c, a + b).frames;
    } else {
      var declared := ReadU32(a);
      HeaderOfPrefix(a, b);
      DecodeStep(c, a + b);
      if declared <= MAX_FRAME_BYTES {
        var tail := a[4 + declared..];
        assert (a + b)[4..4 + declared] == a[4..4 + declared];
        assert (a + b)[4 + declared..] == tail + b;
        DecodeInPieces(c, tail, b);
        var v := c.parse(a[4..4 + declared]);
        if v.Some? {
          ResumeBefore(c, v, Decode(c, tail), b);
        }
      }
    }
  }

  lemma ResumeBefore<J>(c: Codec<J>, v: Option<J>, d: Decoded<J>, b: Bytes)
    requires v.Some?
    ensures Resume(c, Before([v.value], d), b) == Before([v.value], Resume(c, d, b))
  {
    hide Decode;
    assert [v.value] + (d.frames + Decode(c, d.rest + b).frames) == ([v.value] + d.frames) + Decode(c, d.rest + b).frames;
  }

  // ---- a stream of encoded values ----

  /** How the next frame of a buffer is dealt with, from its declared length on. */
  lemma NextFrame<J>(c: Codec<J>, n: nat, rest: Bytes)
    requires n < 0x1_0000_0000
    ensures var d := Decode(c, U32(n) + rest);
            if n > 64 * 1024 then d == Decoded([], [], Some(FrameTooLarge))
            else if |rest| < n then d == Decoded([], U32(n) + rest, None)
            else if c.parse(rest[..n]).None? then d == Decoded([], [], Some(MalformedFrame))
            else
              var more := Decode(c, rest[n..]);
              d == Decoded([c.parse(rest[..n]).value] + more.frames, more.rest, more.error)
  {
    hide Decode, U32, ReadU32;
    ReadBackU32(n, rest);
    var b := U32(n) + rest;
    DecodeStep(c, b);
    if n <= |rest| {
      assert b[4..4 + n] == rest[..n] && b[4 + n..] == rest[n..];
    }
  }

  predicate Encodable<J>(c: Codec<J>, vs: seq<J>) {
    forall i | 0 <= i < |vs| :: EncodeFrame(c, vs[i]).Some?
  }

  function Stream<J>(c: Codec<J>, vs: seq<J>): Bytes
    requires Encodable(c, vs)
  {
    if vs == [] then [] else EncodeFrame(c, vs[0]).value + Stream(c, vs[1..])
  }

  /** Decoding a stream of encoded values gives back exactly these values and nothing is left. */
  lemma {:induction false} StreamRoundTrip<J(!new)>(c: Codec<J>, vs: seq<J>)
    requires CodecOk(c) && Encodable(c, vs)
    ensures Decode(c, Stream(c, vs)) == Decoded(vs, [], None)
  {
    if vs == [] {
    } else {
      hide Decode, U32;
      var body := c.stringify(vs[0]);
      var tail := Stream(c, vs[1..]);
      var s := Stream(c, vs);
      assert s == U32(|body|) + (body + tail);
      NextFrame(c, |body|, body + tail);
      assert (body + tail)[..|body|] == body && (body + tail)[|body|..] == tail;
      StreamRoundTrip(c, vs[1..]);
      assert [vs[0]] + vs[1..] == vs;
    }
  }

  // ---- the connection ----

  /** One client connection: the bytes not yet decoded and the requests answered so far. */
  datatype Conn<+J> = Conn(alive: bool, pending: Bytes, answered: seq<J>)

  /** The "data" handler. A protocol violation drops even the frames decoded before it in the same call. */
  function Receive<J>(c: Codec<J>, conn: Conn<J>, chunk: Bytes): Conn<J> {
    if !conn.alive then conn
    else
      var pending := conn.pending + chunk;
      if |pending| > MAX_FRAME_BYTES + 4 then Conn(false, pending, conn.answered)
      else
        var d := Decode(c, pending);
        if d.error.Some? then Conn(false, pending, conn.answered)
        else Conn(true, d.rest, conn.answered + d.frames)
  }

  /** A chunk is taken exactly when what is pending stays within a frame and its header and decodes. */
  lemma ReceiveExactly<J>(c: Codec<J>, conn: Conn<J>, chunk: Bytes)
    requires conn.alive
    ensures var d, after := Decode(c, conn.pending + chunk), Receive(c, conn, chunk);
            && (after.alive <==> |conn.pending + chunk| <= 65540 && d.error.None?)
            && (after.alive ==> after.answered == conn.answered + d.frames && after.pending == d.rest)
            && (!after.alive ==> after.answered == conn.answered)
  {
    hide Decode;
  }

  function Feed<J>(c: Codec<J>, conn: Conn<J>, chunks: seq<Bytes>): Conn<J>
    decreases |chunks|
  {
    if chunks == [] then conn else Feed(c, Receive(c, conn, chunks[0]), chunks[1..])
  }

  /** No chunk lifts the pending buffer over the limit. */
  predicate Fits<J>(c: Codec<J>, pending: Bytes, chunks: seq<Bytes>)
    decreases |chunks|
  {
    chunks == []
    || (|pending + chunks[0]| <= MAX_FRAME_BYTES + 4
        && Fits(c, Decode(c, pending + chunks[0]).rest, chunks[1..]))
  }

  lemma {:induction false} DeadStaysDead<J>(c: Codec<J>, conn: Conn<J>, chunks: seq<Bytes>)
    requires !conn.alive
    ensures Feed(c, conn, chunks) == conn
    decreases |chunks|
  {
    if chunks == [] {
    } else {
      DeadStaysDead(c, conn, chunks[1..]);
    }
  }

  /**
   * However the bytes are cut into chunks, a connection survives exactly when the whole stream
   * decodes without error and no chunk overflows the pending buffer; then it has answered exactly
   * the frames of the stream, in order, and holds its undecoded rest.
   */
  lemma {:induction false} FeedIsDecode<J>(c: Codec<J>, conn: Conn<J>, chunks: seq<Bytes>)
    requires conn.alive && Decode(c, conn.pending) == Decoded([], conn.pending, None)
    ensures var d := Decode(c, conn.pending + Concat(chunks));
            var end := Feed(c, conn, chunks);
            && (end.alive <==> d.error.None? && Fits(c, conn.pending, chunks))
            && (end.alive ==> end == Conn(true, d.rest, conn.answered + d.frames))
            && (!end.alive ==> conn.answered <= end.answered <= conn.answered + d.frames)
    decreases |chunks|
  {
    hide Decode;
    if chunks == [] {
      assert conn.pending + [] == conn.pending;
      assert conn.answered + [] == conn.answered;
    } else {
      var first, rest := chunks[0], Concat(chunks[1..]);
      ConcatFirst(chunks);
      var p := conn.pending + first;
      var d := Decode(c, p);
      assert conn.pending + Concat(chunks) == p + rest;
      DecodeInPieces(c, p, rest);
      var next := Receive(c, conn, first);
      if !next.alive {
        DeadStaysDead(c, next, chunks[1..]);
      } else {
        RestIsStuck(c, p);
        FeedIsDecode(c, next, chunks[1..]);
        var e := Decode(c, d.rest + rest);
        assert conn.answered + (d.frames + e.frames) == (conn.answered + d.frames) + e.frames;
      }
    }
  }

  /** What decoding leaves behind holds no complete frame. */
  lemma {:induction false} RestIsStuck<J>(c: Codec<J>, b: Bytes)
    requires Decode(c, b).error.None?
    ensures Decode(c, Decode(c, b).rest) == Decoded([], Decode(c, b).rest, None)
    decreases |b|
  {
    if |b| >= 4 && |b| >= 4 + ReadU32(b) {
      RestIsStuck(c, b[4 + ReadU32(b)..]);
    }
  }

  /** Any chunking of encoded requests that fits the buffer delivers exactly these requests. */
  lemma ChunkedRequestsArrive<J(!new)>(c: Codec<J>, vs: seq<J>, chunks: seq<Bytes>)
    requires CodecOk(c) && Encodable(c, vs) && Concat(chunks) == Stream(c, vs)
    ensures var end := Feed(c, Conn(true, [], []), chunks);
            && (end.alive <==> Fits(c, [], chunks))
            && (end.alive ==> end == Conn(true, [], vs))
  {
    FeedIsDecode(c, Conn(true, [], []), chunks);
    StreamRoundTrip(c, vs);
    assert [] + Concat(chunks) == Stream(c, vs);
    assert [] + vs == vs;
  }

  function Frames<J>(c: Codec<J>, vs: seq<J>): seq<Bytes>
    requires Encodable(c, vs)
  {
    if vs == [] then [] else [EncodeFrame(c, vs[0]).value] + Frames(c, vs[1..])
  }

  lemma OneFrame<J(!new)>(c: Codec<J>, v: J)
    requires CodecOk(c) && EncodeFrame(c, v).Some?
    ensures Decode(c, EncodeFrame(c, v).value) == Decoded([v], [], None)
  {
    hide EncodeFrame, Decode;
    StreamRoundTrip(c, [v]);
    assert [v][1..] == [];
    assert EncodeFrame(c, v).value + [] == EncodeFrame(c, v).value;
  }

  /** An encodable request sent in one chunk of its own always fits, whatever came before it. */
  lemma {:induction false} FrameByFrameFits<J(!new)>(c: Codec<J>, vs: seq<J>)
    requires CodecOk(c) && Encodable(c, vs)
    ensures Fits(c, [], Frames(c, vs))
    decreases |vs|
  {
    hide Decode, EncodeFrame, CodecOk;
    if vs == [] {
    } else {
      var chunks := Frames(c, vs);
      EncodedIsSmall(c, vs[0]);
      OneFrame(c, vs[0]);
      assert [] + chunks[0] == chunks[0] && chunks[1..] == Frames(c, vs[1..]);
      FrameByFrameFits(c, vs[1..]);
    }
  }

  // ---- which frames a connection answers before it dies ----

  /** What is left of a connection's promise when its bytes contain an error or overflow the buffer. */
  predicate Survives<J>(c: Codec<J>, pending: Bytes, chunks: seq<Bytes>) {
    Decode(c, pending + Concat(chunks)).error.None? && Fits(c, pending, chunks)
  }

  /** Chunk k is the first that ends the connection. */
  predicate EndsAt<J>(c: Codec<J>, pending: Bytes, chunks: seq<Bytes>, k: nat) {
    k < |chunks| && Survives(c, pending, chunks[..k]) && !Survives(c, pending, chunks[..k + 1])
  }

  lemma {:induction false} SomeChunkEnds<J>(c: Codec<J>, pending: Bytes, chunks: seq<Bytes>, n: nat)
    requires Decode(c, pending).error.None? && n <= |chunks| && !Survives(c, pending, chunks[..n])
    ensures exists k | 0 <= k < n :: EndsAt(c, pending, chunks, k)
  {
    hide Decode, Fits;
    if n == 0 {
      assert pending + [] == pending && chunks[..0] == [];
      NothingFits(c, pending);
      assert false;
    } else if Survives(c, pending, chunks[..n - 1]) {
      assert EndsAt(c, pending, chunks, n - 1);
    } else {
      SomeChunkEnds(c, pending, chunks, n - 1);
    }
  }

  lemma NothingFits<J>(c: Codec<J>, pending: Bytes)
    ensures Fits(c, pending, [])
  {
  }

  lemma {:induction false} FeedAppend<J>(c: Codec<J>, conn: Conn<J>, a: seq<Bytes>, b: seq<Bytes>)
    ensures Feed(c, conn, a + b) == Feed(c, Feed(c, conn, a), b)
    decreases |a|
  {
    hide Receive;
    if a == [] {
      assert a + b == b;
    } else {
      assert (a + b)[1..] == a[1..] + b;
      FeedAppend(c, Receive(c, conn, a[0]), a[1..], b);
    }
  }

  lemma FeedOne<J>(c: Codec<J>, conn: Conn<J>, chunk: Bytes)
    ensures Feed(c, conn, [chunk]) == Receive(c, conn, chunk)
  {
    hide Receive;
    assert [chunk][1..] == [];
  }

  lemma DeathKeepsAnswers<J>(c: Codec<J>, conn: Conn<J>, chunk: Bytes)
    ensures !Receive(c, conn, chunk).alive ==> Receive(c, conn, chunk).answered == conn.answered
  {
    hide Decode;
  }

  lemma AnsweredUpTo<J>(c: Codec<J>, conn: Conn<J>, chunks: seq<Bytes>, k: nat)
    requires conn.alive && Decode(c, conn.pending) == Decoded([], conn.pending, None)
    requires EndsAt(c, conn.pending, chunks, k)
    ensures !Feed(c, conn, chunks).alive
    ensures Feed(c, conn, chunks).answered == conn.answered + Decode(c, conn.pending + Concat(chunks[..k])).frames
  {
    hide Decode, Feed, Receive, Fits, Concat;
    var before, dead := Feed(c, conn, chunks[..k]), Feed(c, conn, chunks[..k + 1]);
    FeedIsDecode(c, conn, chunks[..k]);
    FeedIsDecode(c, conn, chunks[..k + 1]);
    assert chunks[..k + 1] == chunks[..k] + [chunks[k]] && chunks == chunks[..k + 1] + chunks[k + 1..];
    FeedAppend(c, conn, chunks[..k], [chunks[k]]);
    FeedOne(c, before, chunks[k]);
    DeathKeepsAnswers(c, before, chunks[k]);
    FeedAppend(c, conn, chunks[..k + 1], chunks[k + 1..]);
    DeadStaysDead(c, dead, chunks[k + 1..]);
  }

  /**
   * A connection that does not survive has answered exactly the frames completed before the first
   * chunk that ends it: the good frames decoded from that chunk are dropped with the broken one.
   */
  lemma AnsweredExactly<J>(c: Codec<J>, conn: Conn<J>, chunks: seq<Bytes>)
    requires conn.alive && Decode(c, conn.pending) == Decoded([], conn.pending, None)
    ensures !Feed(c, conn, chunks).alive <==> exists k | 0 <= k < |chunks| :: EndsAt(c, conn.pending, chunks, k)
    ensures forall k: nat | k < |chunks| && EndsAt(c, conn.pending, chunks, k) ::
              Feed(c, conn, chunks).answered == conn.answered + Decode(c, conn.pending + Concat(chunks[..k])).frames
  {
    hide Decode, Feed, EndsAt, Fits, Concat;
    forall k: nat | k < |chunks| && EndsAt(c, conn.pending, chunks, k)
      ensures !Feed(c, conn, chunks).alive
      ensures Feed(c, conn, chunks).answered == conn.answered + Decode(c, conn.pending + Concat(chunks[..k])).frames
    {
      AnsweredUpTo(c, conn, chunks, k);
    }
    if !Feed(c, conn, chunks).alive {
      FeedIsDecode(c, conn, chunks);
      assert chunks[..|chunks|] == chunks;
      SomeChunkEnds(c, conn.pending, chunks, |chunks|);
    }
  }

  /** So a good frame in front of a broken one is answered exactly when the cut falls between them. */
  lemma BrokenFrameDropsNeighbours<J(!new)>(c: Codec<J>, v: J, bad: Bytes)
    requires CodecOk(c) && EncodeFrame(c, v).Some? && Decode(c, bad).error.Some?
    requires |EncodeFrame(c, v).value + bad| <= MAX_FRAME_BYTES + 4
    ensures var good := EncodeFrame(c, v).value;
            && Feed(c, Conn(true, [], []), [good + bad]).answered == []
            && Feed(c, Conn(true, [], []), [good, bad]).answered == [v]
  {
    hide Decode, EncodeFrame, Feed, CodecOk;
    var good := EncodeFrame(c, v).value;
    var start := Conn(true, [], []);
    OneFrame(c, v);
    DecodeInPieces(c, good, bad);
    assert [] + bad == bad && [] + (good + bad) == good + bad && [] + good == good;
    FeedOne(c, start, good + bad);
    FeedOne(c, start, good);
    FeedOne(c, Receive(c, start, good), bad);
    assert [good, bad] == [good] + [bad];
    FeedAppend(c, start, [good], [bad]);
  }

  // ---- the handler as it runs ----

  /** The supervisor's answer to one request; `tooLarge` is the bounded error it falls back to. */
  function Respond<J>(c: Codec<J>, dispatch: J -> J, tooLarge: Bytes, v: J): Bytes {
    var encoded := EncodeFrame(c, dispatch(v));
    if encoded.None? then tooLarge else encoded.value
  }

  function Responses<J>(c: Codec<J>, dispatch: J -> J, tooLarge: Bytes, vs: seq<J>): Bytes {
    if vs == [] then []
    else Responses(c, dispatch, tooLarge, vs[..|vs| - 1]) + Respond(c, dispatch, tooLarge, vs[|vs| - 1])
  }

  /**
   * The bytes of a frame: the length of the body as a big-endian number, then the body; there is
   * none for a body over the limit.
   */
  lemma FrameBytes<J>(c: Codec<J>, v: J)
    ensures EncodeFrame(c, v).Some? <==> |c.stringify(v)| <= 64 * 1024
    ensures EncodeFrame(c, v).Some? ==>
              var f := EncodeFrame(c, v).value;
              && |f| == 4 + |c.stringify(v)| && f[4..] == c.stringify(v)
              && f[0] as int * 0x100_0000 + f[1] as int * 0x1_0000 + f[2] as int * 0x100 + f[3] as int == |c.stringify(v)|
  {
    var n := |c.stringify(v)|;
    if n <= MAX_FRAME_BYTES {
      ReadBackU32(n, []);
      assert U32(n) + [] == U32(n);
    }
  }

  /**
   * What a client reads back from the responses: for each request the dispatched answer, or the
   * bounded error in place of one that is too large, in order and with nothing left over.
   */
  lemma {:induction false} RepliesDecode<J(!new)>(c: Codec<J>, dispatch: J -> J, tooLarge: Bytes, error: J, vs: seq<J>)
    requires CodecOk(c) && EncodeFrame(c, error) == Some(tooLarge)
    ensures var d := Decode(c, Responses(c, dispatch, tooLarge, vs));
            && d.error.None? && d.rest == [] && |d.frames| == |vs|
            && forall i | 0 <= i < |vs| ::
                 d.frames[i] == if |c.stringify(dispatch(vs[i]))| <= 64 * 1024 then dispatch(vs[i]) else error
  {
    hide Decode, EncodeFrame;
    if vs == [] {
      NothingDecodes(c);
    } else {
      var n := |vs| - 1;
      RepliesDecode(c, dispatch, tooLarge, error, vs[..n]);
      var before, last := Responses(c, dispatch, tooLarge, vs[..n]), Respond(c, dispatch, tooLarge, vs[n]);
      DecodeInPieces(c, before, last);
      FrameBytes(c, dispatch(vs[n]));
      OneFrame(c, if EncodeFrame(c, dispatch(vs[n])).Some? then dispatch(vs[n]) else error);
      assert [] + last == last;
    }
  }

  lemma NothingDecodes<J>(c: Codec<J>)
    ensures Decode(c, []) == Decoded([], [], None)
  {
  }

  class Server {
    /** Set only while a request is being dispatched, across all connections. */
    var busy: bool

    constructor ()
      ensures !busy
    {
      busy := false;
    }
  }

  class Connection<!J> {
    const codec: Codec<J>
    const dispatch: J -> J
    const tooLarge: Bytes
    var alive: bool
    var pending: Bytes
    var written: Bytes
    ghost var answered: seq<J>

    constructor (codec: Codec<J>, dispatch: J -> J, tooLarge: Bytes)
      ensures Valid() && this.codec == codec && this.dispatch == dispatch && this.tooLarge == tooLarge
      ensures Now() == Conn(true, [], [])
    {
      this.codec, this.dispatch, this.tooLarge := codec, dispatch, tooLarge;
      alive, pending, written, answered := true, [], [], [];
    }

    /** Every request counted as answered has had its response written, in order. */
    ghost predicate Valid()
      reads this
    {
      written == Responses(codec, dispatch, tooLarge, answered)
    }

    ghost function Now(): Conn<J>
      reads this
    {
      Conn(alive, pending, answered)
    }

    /** One request: dispatched, encoded and written. */
    method AnswerFrame(frame: J)
      requires Valid()
      modifies this`written, this`answered
      ensures Valid() && answered == old(answered) + [frame]
    {
      hide EncodeFrame;
      var body := dispatch(frame);
      var encoded := WriteFrame(codec, body);
      EncodedIsSmall(codec, body);
      var response := if encoded.None? || |encoded.value| > MAX_RESPONSE_BYTES then tooLarge else encoded.value;
      written := written + response;
      answered := answered + [frame];
      assert answered[..|answered| - 1] == old(answered);
    }

    method OnData(server: Server, chunk: Bytes)
      requires Valid() && alive && !server.busy
      modifies this, server
      ensures Valid() && !server.busy
      ensures Now() == Receive(codec, old(Now()), chunk)
    {
      hide Decode, Responses;
      pending := pending + chunk;
      if |pending| > MAX_FRAME_BYTES + 4 {
        alive := false;
        return;
      }
      var decoded := DecodeFrames(codec, pending);
      if decoded.error.Some? {
        alive := false;
        return;
      }
      pending := decoded.rest;
      ghost var before := answered;
      for k := 0 to |decoded.frames|
        invariant alive && !server.busy && Valid() && pending == decoded.rest
        invariant answered == before + decoded.frames[..k]
      {
        if server.busy {
          assert false;  // handlers do not interleave, so the "busy" answer is never sent
        }
        server.busy := true;
        AnswerFrame(decoded.frames[k]);
        assert decoded.frames[..k + 1] == decoded.frames[..k] + [decoded.frames[k]];
        server.busy := false;
      }
      assert decoded.frames[..|decoded.frames|] == decoded.frames;
    }
  }
}

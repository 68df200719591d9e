/** Length-prefixed frames of pkg/control/stream.go over a byte stream. */
module FrameCodec {
  import opened Common

  type Byte = x: int | 0 <= x < 256

  const MAX_FRAME: nat := 0x10_0000 // 1 MiB
  const HEADER_SIZE: nat := 4

  function PutUint32(n: nat): (h: seq<Byte>)
    requires n < 0x1_0000_0000
    ensures |h| == HEADER_SIZE
  {
    [n / 0x100_0000, n / 0x1_0000 % 256, n / 0x100 % 256, n % 256]
  }

  function ReadUint32(h: seq<Byte>): nat
    requires |h| == HEADER_SIZE
  {
    var b0: int, b1: int, b2: int, b3: int := h[0], h[1], h[2], h[3];
    0x100_0000 * b0 + 0x1_0000 * b1 + 0x100 * b2 + b3
  }

  function Encode(data: seq<Byte>): seq<Byte>
    requires |data| < 0x1_0000_0000
  {
    PutUint32(|data|) + data
  }

  datatype ReceiveError =
    | Eof            // nothing left
    | TornHeader     // the stream ended inside a header,
    | MissingPayload // right behind one,
    | TornPayload    // or inside a payload
    | TooLong(length: nat)

  /** io.ReadFull reports io.EOF whenever it got no byte at all, so on a stream its peer has closed the code
      cannot tell an end between two frames from one behind a header. */
  predicate ReportsEof(e: ReceiveError) {
    e.Eof? || e.MissingPayload?
  }

  datatype Received = Frame(payload: seq<Byte>) | Failed(error: ReceiveError)

  /** What one receive makes of the bytes still to come, and what it leaves. */
  function Decode(bytes: seq<Byte>): (Received, seq<Byte>) {
    if |bytes| < HEADER_SIZE then (Failed(if bytes == [] then Eof else TornHeader), [])
    else
      var length := ReadUint32(bytes[..HEADER_SIZE]);
      var rest := bytes[HEADER_SIZE..];
      if length > MAX_FRAME then (Failed(TooLong(length)), rest)
      else if |rest| < length then (Failed(if rest == [] then MissingPayload else TornPayload), [])
      else (Frame(rest[..length]), rest[length..])
  }

  // ---- The stream ----

  /** The sending half: it takes `room` more bytes, then fails. */
  class Writer {
    var sent: seq<Byte>
    var room: nat

    method Write(data: seq<Byte>) returns (ok: bool)
      modifies this
      ensures ok == (|data| <= old(room))
      ensures var n := if ok then |data| else old(room); sent == old(sent) + data[..n] && room == old(room) - n
    {
      ok := |data| <= room;
      var n := if ok then |data| else room;
      sent := sent + data[..n];
      room := room - n;
    }
  }

  /** The whole of `bytes`, or as much of it as there is room for. */
  function Cut(bytes: seq<Byte>, room: nat): seq<Byte> {
    if |bytes| <= room then bytes else bytes[..room]
  }

  datatype SendError = FrameTooLarge | WriteFailed

  method SendFrame(stream: Writer, data: seq<Byte>) returns (err: Option<SendError>)
    modifies stream
    ensures |data| > 1_048_576 ==> err == Some(FrameTooLarge) && stream.sent == old(stream.sent)
    ensures |data| <= 1_048_576 ==>
              var wire := Encode(data);
              && err == (if |wire| <= old(stream.room) then None else Some(WriteFailed))
              && stream.sent == old(stream.sent) + Cut(wire, old(stream.room))
    ensures |stream.sent| + stream.room == |old(stream.sent)| + old(stream.room)
  {
    if |data| > MAX_FRAME {
      return Some(FrameTooLarge);
    }
    var header := PutUint32(|data|);
    var ok := stream.Write(header);
    if !ok {
      assert Encode(data)[..old(stream.room)] == header[..old(stream.room)];
      return Some(WriteFailed);
    }
    ok := stream.Write(data);
    if !ok {
      assert Encode(data)[..old(stream.room)] == header + data[..old(stream.room) - HEADER_SIZE];
      return Some(WriteFailed);
    }
    err := None;
  }

  function Flatten(chunks: seq<seq<Byte>>): seq<Byte> {
    if chunks == [] then [] else chunks[0] + Flatten(chunks[1..])
  }

  /** The receiving half: bytes arrive in chunks of any size, empty ones included, then the stream ends. */
  class Reader {
    var pending: seq<seq<Byte>>

    /** One read of at most n bytes, never across a chunk boundary. */
    method Read(n: nat) returns (got: seq<Byte>, eof: bool)
      modifies this
      ensures eof == (old(pending) == [])
      ensures eof ==> got == [] && pending == []
      ensures !eof ==> |got| <= n && got + Flatten(pending) == Flatten(old(pending))
                       && |pending| <= |old(pending)| && (|pending| < |old(pending)| || |got| == n)
    {
      if pending == [] {
        return [], true;
      }
      eof := false;
      var first := pending[0];
      if |first| <= n {
        got := first;
        pending := pending[1..];
      } else {
        got := first[..n];
        pending := [first[n..]] + pending[1..];
        assert got + first[n..] == first;
      }
    }

    /** io.ReadFull: reads again until n bytes are there or the stream ends. */
    method ReadFull(n: nat) returns (data: seq<Byte>, ok: bool)
      modifies this
      ensures var all := Flatten(old(pending));
              && ok == (n <= |all|)
              && data == (if ok then all[..n] else all)
              && Flatten(pending) == (if ok then all[n..] else [])
    {
      data := [];
      while |data| < n
        invariant |data| <= n
        invariant data + Flatten(pending) == Flatten(old(pending))
        decreases |pending|, n - |data|
      {
        var got, eof := Read(n - |data|);
        if eof {
          return data, false;
        }
        data := data + got;
      }
      ok := true;
    }
  }

  /** The outcome depends on the bytes alone, not on how reads chop them up. */
  method ReceiveFrame(stream: Reader) returns (r: Received)
    modifies stream
    ensures (r, Flatten(stream.pending)) == Decode(Flatten(old(stream.pending)))
  {
    var header, ok := stream.ReadFull(HEADER_SIZE);
    if !ok {
      return Failed(if header == [] then Eof else TornHeader);
    }
    var length := ReadUint32(header);
    if length > MAX_FRAME {
      return Failed(TooLong(length));
    }
    var payload;
    payload, ok := stream.ReadFull(length);
    if !ok {
      return Failed(if payload == [] then MissingPayload else TornPayload);
    }
    r := Frame(payload);
  }

  // ---- Sequences of frames ----

  predicate Sendable(frames: seq<seq<Byte>>) {
    forall i | 0 <= i < |frames| :: |frames[i]| <= MAX_FRAME
  }

  function EncodeAll(frames: seq<seq<Byte>>): seq<Byte>
    requires Sendable(frames)
  {
    if frames == [] then [] else Encode(frames[0]) + EncodeAll(frames[1..])
  }

  /** Receiving until the first error. */
  function DecodeAll(bytes: seq<Byte>): (seq<seq<Byte>>, ReceiveError)
    decreases |bytes|
  {
    var (r, rest) := Decode(bytes);
    match r
    case Failed(e) => ([], e)
    case Frame(payload) => var (frames, e) := DecodeAll(rest); ([payload] + frames, e)
  }

  /** A header is the length in four bytes, most significant first. */
  lemma HeaderBytes(n: nat)
    requires n < 0x1_0000_0000
    ensures var h := PutUint32(n);
            |h| == 4 && n == h[0] as int * 16_777_216 + h[1] as int * 65_536 + h[2] as int * 256 + h[3] as int
  {
    HeaderRoundTrip(n);
  }

  /** A frame on the wire is that header and the payload; a payload may have up to 1 MiB. */
  lemma WireFormat(data: seq<Byte>)
    requires |data| < 0x1_0000_0000
    ensures |Encode(data)| == 4 + |data| && Encode(data)[4..] == data
    ensures var wire := Encode(data);
            |data| == wire[0] as int * 16_777_216 + wire[1] as int * 65_536 + wire[2] as int * 256 + wire[3] as int
    ensures Sendable([data]) <==> |data| <= 1_048_576
  {
    HeaderBytes(|data|);
    if Sendable([data]) { assert |[data][0]| <= MAX_FRAME; }
  }

  /** A header that announces more is refused, whatever follows it, and the stream is left behind it. */
  lemma TooLongRefused(bytes: seq<Byte>)
    requires |bytes| >= 4
    ensures var n := bytes[0] as int * 16_777_216 + bytes[1] as int * 65_536 + bytes[2] as int * 256 + bytes[3] as int;
            n > 1_048_576 <==> Decode(bytes) == (Failed(TooLong(n)), bytes[4..])
  {
  }

  lemma HeaderRoundTrip(n: nat)
    requires n < 0x1_0000_0000
    ensures ReadUint32(PutUint32(n)) == n
  {
    assert n / 0x100 / 0x100 == n / 0x1_0000;
    assert n / 0x1_0000 / 0x100 == n / 0x100_0000;
  }

  lemma HeaderIsCanonical(h: seq<Byte>)
    requires |h| == HEADER_SIZE
    ensures PutUint32(ReadUint32(h)) == h
  {
    var n := ReadUint32(h);
    var b0: int, b1: int, b2: int := h[0], h[1], h[2];
    assert n / 0x100 == 0x1_0000 * b0 + 0x100 * b1 + b2;
    assert n / 0x1_0000 == 0x100 * b0 + b1;
  }

  lemma DecodeEncode(data: seq<Byte>, rest: seq<Byte>)
    requires |data| <= MAX_FRAME
    ensures Decode(Encode(data) + rest) == (Frame(data), rest)
  {
    HeaderRoundTrip(|data|);
    var bytes := Encode(data) + rest;
    assert bytes[..HEADER_SIZE] == PutUint32(|data|);
    assert bytes[HEADER_SIZE..] == data + rest;
  }

  /** Whatever is sent is received, in order, then a clean end of stream. */
  lemma {:induction false} RoundTrip(frames: seq<seq<Byte>>)
    requires Sendable(frames)
    ensures DecodeAll(EncodeAll(frames)) == (frames, Eof)
  {
    if frames != [] {
      DecodeEncode(frames[0], EncodeAll(frames[1..]));
      RoundTrip(frames[1..]);
      assert frames == [frames[0]] + frames[1..];
    }
  }

  /** How a stream ends that was cut `into` bytes behind the last whole frame. */
  function CutError(into: nat): ReceiveError {
    if into == 0 then Eof
    else if into < HEADER_SIZE then TornHeader
    else if into == HEADER_SIZE then MissingPayload
    else TornPayload
  }

  lemma TornFrame(data: seq<Byte>, k: nat)
    requires |data| <= MAX_FRAME && k < |Encode(data)|
    ensures Decode(Encode(data)[..k]).0 == Failed(CutError(k))
  {
    HeaderRoundTrip(|data|);
    if k >= HEADER_SIZE {
      assert Encode(data)[..k][..HEADER_SIZE] == PutUint32(|data|);
    }
  }

  /** n frames are complete within the first k bytes, and no more. */
  ghost predicate CompleteWithin(frames: seq<seq<Byte>>, k: nat, n: nat)
    requires Sendable(frames)
  {
    && n <= |frames| && |EncodeAll(frames[..n])| <= k
    && (n < |frames| ==> k < |EncodeAll(frames[..n + 1])|)
  }

  lemma EncodeCons(frames: seq<seq<Byte>>, n: nat)
    requires Sendable(frames) && 0 < n <= |frames|
    ensures EncodeAll(frames[..n]) == Encode(frames[0]) + EncodeAll(frames[1..][..n - 1])
  {
    assert frames[..n][1..] == frames[1..][..n - 1];
  }

  /** The first frame whole, the cut somewhere behind it. */
  lemma CutBehindFirst(frames: seq<seq<Byte>>, k: nat, m: nat)
    requires Sendable(frames) && frames != [] && |Encode(frames[0])| <= k <= |EncodeAll(frames)|
    requires CompleteWithin(frames[1..], k - |Encode(frames[0])|, m)
    ensures CompleteWithin(frames, k, m + 1)
    ensures |EncodeAll(frames[..m + 1])| == |Encode(frames[0])| + |EncodeAll(frames[1..][..m])|
  {
    EncodeCons(frames, m + 1);
    if m + 1 < |frames| { EncodeCons(frames, m + 2); }
  }

  lemma DecodeBehindFirst(frames: seq<seq<Byte>>, k: nat)
    requires Sendable(frames) && frames != [] && |Encode(frames[0])| <= k <= |EncodeAll(frames)|
    ensures Decode(EncodeAll(frames)[..k]) == (Frame(frames[0]), EncodeAll(frames[1..])[..k - |Encode(frames[0])|])
  {
    var first, tail := Encode(frames[0]), EncodeAll(frames[1..]);
    assert EncodeAll(frames)[..k] == first + tail[..k - |first|];
    DecodeEncode(frames[0], tail[..k - |first|]);
  }

  lemma DecodeAllCons(bytes: seq<Byte>, payload: seq<Byte>, rest: seq<Byte>)
    requires Decode(bytes) == (Frame(payload), rest)
    ensures DecodeAll(bytes) == ([payload] + DecodeAll(rest).0, DecodeAll(rest).1)
  {
  }

  /** The cut decodes to n whole frames and the error that tells where behind them it fell. */
  ghost predicate CutAfter(frames: seq<seq<Byte>>, k: nat, n: nat)
    requires Sendable(frames) && k <= |EncodeAll(frames)|
  {
    && CompleteWithin(frames, k, n)
    && var (got, e) := DecodeAll(EncodeAll(frames)[..k]);
       got == frames[..n] && e == CutError(k - |EncodeAll(frames[..n])|)
  }

  lemma CutInFirst(frames: seq<seq<Byte>>, k: nat)
    requires Sendable(frames) && frames != [] && k < |Encode(frames[0])|
    ensures CutAfter(frames, k, 0)
  {
    TornFrame(frames[0], k);
    assert EncodeAll(frames)[..k] == Encode(frames[0])[..k];
    EncodeCons(frames, 1);
  }

  lemma CutLater(frames: seq<seq<Byte>>, k: nat, m: nat)
    requires Sendable(frames) && frames != [] && |Encode(frames[0])| <= k <= |EncodeAll(frames)|
    requires CutAfter(frames[1..], k - |Encode(frames[0])|, m)
    ensures CutAfter(frames, k, m + 1)
  {
    CutBehindFirst(frames, k, m);
    DecodeBehindFirst(frames, k);
    DecodeAllCons(EncodeAll(frames)[..k], frames[0], EncodeAll(frames[1..])[..k - |Encode(frames[0])|]);
    ConsTake(frames, m);
  }

  lemma ConsTake<T>(s: seq<T>, m: nat)
    requires m < |s|
    ensures s[..m + 1] == [s[0]] + s[1..][..m]
  {
  }

  /** A stream cut after k bytes yields exactly the frames that were complete by then, followed by the
      error that belongs to the place of the cut. */
  lemma {:induction false} Truncation(frames: seq<seq<Byte>>, k: nat) returns (n: nat)
    requires Sendable(frames) && k <= |EncodeAll(frames)|
    ensures CutAfter(frames, k, n)
  {
    if frames == [] {
      n := 0;
    } else if k < |Encode(frames[0])| {
      n := 0;
      CutInFirst(frames, k);
    } else {
      var m := Truncation(frames[1..], k - |Encode(frames[0])|);
      n := m + 1;
      CutLater(frames, k, m);
    }
  }

  lemma {:induction false} EncodeAllAppend(xs: seq<seq<Byte>>, ys: seq<seq<Byte>>)
    requires Sendable(xs) && Sendable(ys)
    ensures Sendable(xs + ys) && EncodeAll(xs + ys) == EncodeAll(xs) + EncodeAll(ys)
  {
    if xs == [] {
      assert xs + ys == ys;
    } else {
      var first, rest := Encode(xs[0]), EncodeAll(xs[1..]);
      EncodeAllAppend(xs[1..], ys);
      assert (xs + ys)[0] == xs[0] && (xs + ys)[1..] == xs[1..] + ys;
      assert first + (rest + EncodeAll(ys)) == (first + rest) + EncodeAll(ys);
    }
  }

  lemma EncodePrefix(xs: seq<seq<Byte>>, ys: seq<seq<Byte>>)
    requires Sendable(ys) && xs <= ys
    ensures Sendable(xs) && EncodeAll(xs) <= EncodeAll(ys)
  {
    assert Sendable(xs) by { assert forall k | 0 <= k < |xs| :: xs[k] == ys[k]; }
    assert ys == xs + ys[|xs|..];
    EncodeAllAppend(xs, ys[|xs|..]);
  }

  lemma EncodeSnoc(frames: seq<seq<Byte>>, i: nat)
    requires i < |frames| && Sendable(frames[..i + 1])
    ensures Sendable(frames[..i]) && |frames[i]| <= MAX_FRAME
    ensures EncodeAll(frames[..i + 1]) == EncodeAll(frames[..i]) + Encode(frames[i])
  {
    assert frames[i] == frames[..i + 1][i];
    assert Sendable(frames[..i]) by {
      assert forall k | 0 <= k < i :: frames[..i][k] == frames[..i + 1][k];
    }
    assert frames[..i + 1] == frames[..i] + [frames[i]];
    assert EncodeAll([frames[i]][1..]) == [];
    assert EncodeAll([frames[i]]) == Encode(frames[i]);
    EncodeAllAppend(frames[..i], [frames[i]]);
  }

  lemma CompleteUnique(frames: seq<seq<Byte>>, k: nat, n: nat, m: nat)
    requires Sendable(frames) && CompleteWithin(frames, k, n) && CompleteWithin(frames, k, m)
    ensures n == m
  {
    if n < m {
      EncodePrefix(frames[..n + 1], frames[..m]);
    } else if m < n {
      EncodePrefix(frames[..m + 1], frames[..n]);
    }
  }

  /** With n frames complete, EOF is reported if and only if the cut is right behind a frame or right behind
      a header. */
  lemma EofReportedExactly(frames: seq<seq<Byte>>, k: nat, n: nat)
    requires Sendable(frames) && k <= |EncodeAll(frames)| && CompleteWithin(frames, k, n)
    ensures ReportsEof(DecodeAll(EncodeAll(frames)[..k]).1) <==> k - |EncodeAll(frames[..n])| in {0, HEADER_SIZE}
  {
    var m := Truncation(frames, k);
    CompleteUnique(frames, k, n, m);
  }

  /** For example a frame of one byte whose sender closes between its two writes. */
  lemma HeaderAloneLooksClean()
    ensures var frames: seq<seq<Byte>> := [[7]];
            var (got, e) := DecodeAll(EncodeAll(frames)[..HEADER_SIZE]);
            got == [] && e == MissingPayload && ReportsEof(e)
  {
    var frames: seq<seq<Byte>> := [[7]];
    assert |Encode(frames[0])| == HEADER_SIZE + 1;
    var n := Truncation(frames, HEADER_SIZE);
    assert frames[..1] == frames;
  }

  /** Some number of whole frames ends at k. */
  ghost predicate BetweenFrames(frames: seq<seq<Byte>>, k: nat)
    requires Sendable(frames)
  {
    exists n: nat :: n <= |frames| && |EncodeAll(frames[..n])| == k
  }

  /** Wherever the stream is cut, a reported EOF means that it was cut between frames. */
  ghost predicate EofMeansClean(frames: seq<seq<Byte>>)
    requires Sendable(frames)
  {
    forall k: nat | k <= |EncodeAll(frames)| ::
      ReportsEof(DecodeAll(EncodeAll(frames)[..k]).1) ==> BetweenFrames(frames, k)
  }

  /** That can be relied on if and only if every payload is empty. */
  lemma EofMeansCleanExactly(frames: seq<seq<Byte>>)
    requires Sendable(frames)
    ensures EofMeansClean(frames) <==> forall i | 0 <= i < |frames| :: frames[i] == []
  {
    if i :| 0 <= i < |frames| && frames[i] != [] {
      BehindHeader(frames, i);
    } else {
      forall k: nat | k <= |EncodeAll(frames)| && ReportsEof(DecodeAll(EncodeAll(frames)[..k]).1)
        ensures BetweenFrames(frames, k)
      {
        var n := Truncation(frames, k);
        if n < |frames| {
          EncodeSnoc(frames, n);
          assert frames[n] == [];
        } else {
          assert frames[..n] == frames;
        }
        assert |EncodeAll(frames[..n])| == k;
      }
    }
  }

  /** A cut behind the header of a frame with a payload is reported as EOF and is not between frames. */
  lemma BehindHeader(frames: seq<seq<Byte>>, i: nat)
    requires Sendable(frames) && i < |frames| && frames[i] != []
    ensures !EofMeansClean(frames)
  {
    var k := |EncodeAll(frames[..i])| + HEADER_SIZE;
    EncodeSnoc(frames, i);
    EncodePrefix(frames[..i + 1], frames);
    assert CompleteWithin(frames, k, i);
    EofReportedExactly(frames, k, i);
    if BetweenFrames(frames, k) {
      var n: nat :| n <= |frames| && |EncodeAll(frames[..n])| == k;
      if n <= i {
        EncodePrefix(frames[..n], frames[..i]);
      } else {
        EncodePrefix(frames[..i + 1], frames[..n]);
      }
    }
  }

  lemma DecodeIsCanonical(bytes: seq<Byte>)
    requires Decode(bytes).0.Frame?
    ensures var (r, rest) := Decode(bytes);
            |r.payload| <= MAX_FRAME && bytes == Encode(r.payload) + rest
  {
    HeaderIsCanonical(bytes[..HEADER_SIZE]);
  }

  /** A header announcing a payload, and nothing behind it. */
  predicate LoneHeader(bytes: seq<Byte>) {
    |bytes| == HEADER_SIZE && 0 < ReadUint32(bytes) <= MAX_FRAME
  }

  /** For any bytes at all, the frames received are the encoding the stream starts with. EOF is reported if
      and only if nothing else was there, or one header without any of its payload. */
  lemma {:induction false} NothingInvented(bytes: seq<Byte>)
    ensures var (frames, e) := DecodeAll(bytes);
            && Sendable(frames)
            && EncodeAll(frames) <= bytes
            && (e == Eof <==> EncodeAll(frames) == bytes)
            && (ReportsEof(e) <==> EncodeAll(frames) == bytes || LoneHeader(bytes[|EncodeAll(frames)|..]))
    decreases |bytes|
  {
    var (r, rest) := Decode(bytes);
    if r.Frame? {
      DecodeIsCanonical(bytes);
      NothingInvented(rest);
      var (frames, e) := DecodeAll(rest);
      assert ([r.payload] + frames)[1..] == frames;
      assert bytes[|Encode(r.payload) + EncodeAll(frames)|..] == rest[|EncodeAll(frames)|..];
    } else {
      assert bytes[0..] == bytes;
      if |bytes| == HEADER_SIZE { assert bytes[..HEADER_SIZE] == bytes; }
    }
  }

  // ---- End to end over the streams ----

  /** The frames before the first one that is too large. */
  function Fitting(frames: seq<seq<Byte>>): (r: seq<seq<Byte>>)
    ensures Sendable(r) && r <= frames
  {
    if frames == [] || |frames[0]| > MAX_FRAME then []
    else assert [frames[0]] + frames[1..] == frames; [frames[0]] + Fitting(frames[1..])
  }

  lemma {:induction false} FittingUpTo(frames: seq<seq<Byte>>, n: nat)
    requires n <= |frames| && Sendable(frames[..n]) && (n < |frames| ==> |frames[n]| > MAX_FRAME)
    ensures Fitting(frames) == frames[..n]
  {
    if n > 0 {
      assert frames[0] == frames[..n][0];
      assert frames[1..][..n - 1] == frames[..n][1..];
      FittingUpTo(frames[1..], n - 1);
      assert frames[..n] == [frames[0]] + frames[1..][..n - 1];
    }
  }

  lemma SendableNext(frames: seq<seq<Byte>>, i: nat)
    requires i < |frames| && Sendable(frames[..i]) && |frames[i]| <= MAX_FRAME
    ensures Sendable(frames[..i + 1])
  {
    assert frames[..i + 1] == frames[..i] + [frames[i]];
  }

  lemma {:induction false} FittingAtLeast(frames: seq<seq<Byte>>, n: nat)
    requires n <= |frames| && Sendable(frames[..n])
    ensures frames[..n] <= Fitting(frames)
  {
    if n > 0 {
      assert frames[0] == frames[..n][0];
      assert frames[1..][..n - 1] == frames[..n][1..];
      FittingAtLeast(frames[1..], n - 1);
      assert frames[..n] == [frames[0]] + frames[1..][..n - 1];
    }
  }

  /** The stream ran out of room in frame i: the wire is cut there. */
  lemma StoppedByRoom(frames: seq<seq<Byte>>, i: nat, room: nat)
    requires i < |frames| && Sendable(frames[..i + 1]) && Sendable(frames[..i]) && |frames[i]| <= MAX_FRAME
    requires |EncodeAll(frames[..i])| <= room < |EncodeAll(frames[..i])| + |Encode(frames[i])|
    ensures var wire, sent := EncodeAll(Fitting(frames)), EncodeAll(frames[..i]);
            |wire| > room && Cut(wire, room) == sent + Encode(frames[i])[..room - |sent|]
  {
    EncodeSnoc(frames, i);
    FittingAtLeast(frames, i + 1);
    EncodePrefix(frames[..i + 1], Fitting(frames));
    var wire, part := EncodeAll(Fitting(frames)), EncodeAll(frames[..i + 1]);
    assert wire[..room] == part[..room];
  }

  lemma AllFit(frames: seq<seq<Byte>>)
    requires Sendable(frames[..|frames|])
    ensures frames[..|frames|] == frames && Fitting(frames) == frames
  {
    FittingUpTo(frames, |frames|);
  }

  /** What the stream has taken, and how much more it takes, once the first i frames are sent. */
  ghost predicate SentSoFar(frames: seq<seq<Byte>>, i: nat, room: nat, taken: seq<Byte>, left: nat) {
    i <= |frames| && Sendable(frames[..i]) && taken == EncodeAll(frames[..i]) && |taken| + left == room
  }

  lemma SentOneMore(frames: seq<seq<Byte>>, i: nat, room: nat, taken: seq<Byte>, left: nat)
    requires SentSoFar(frames, i, room, taken, left) && i < |frames| && |frames[i]| <= MAX_FRAME
    ensures |Encode(frames[i])| <= left ==>
              SentSoFar(frames, i + 1, room, taken + Encode(frames[i]), left - |Encode(frames[i])|)
    ensures |Encode(frames[i])| > left ==>
              var wire := EncodeAll(Fitting(frames));
              |wire| > room && Cut(wire, room) == taken + Cut(Encode(frames[i]), left)
  {
    SendableNext(frames, i);
    EncodeSnoc(frames, i);
    if |Encode(frames[i])| > left { StoppedByRoom(frames, i, room); }
  }

  /** Sending until the first error: the wire gets the encoding of the frames that fit the size limit, cut
      where the stream stopped taking bytes. */
  method SendAll(stream: Writer, frames: seq<seq<Byte>>) returns (err: Option<SendError>)
    modifies stream
    ensures var wire := EncodeAll(Fitting(frames));
            && stream.sent == old(stream.sent) + Cut(wire, old(stream.room))
            && (err.None? <==> Fitting(frames) == frames && |wire| <= old(stream.room))
            && (err == Some(WriteFailed) <==> |wire| > old(stream.room))
  {
    var i := 0;
    ghost var taken: seq<Byte> := [];
    while i < |frames|
      invariant i <= |frames| && stream.sent == old(stream.sent) + taken
      invariant SentSoFar(frames, i, old(stream.room), taken, stream.room)
    {
      ghost var left := stream.room;
      err := SendFrame(stream, frames[i]);
      if err == Some(FrameTooLarge) {
        FittingUpTo(frames, i);
        return;
      }
      SentOneMore(frames, i, old(stream.room), taken, left);
      taken := taken + Cut(Encode(frames[i]), left);
      assert stream.sent == old(stream.sent) + taken;
      if err == Some(WriteFailed) {
        return;
      }
      i := i + 1;
    }
    AllFit(frames);
    err := None;
  }

  /** How the read loop ends: at a frame that does not arrive, or at one that is not a control message. */
  datatype LoopEnd = NoFrame(error: ReceiveError) | NoMessage(payload: seq<Byte>)

  /** The frames before the first one that does not decode. */
  function Messages(frames: seq<seq<Byte>>, decodes: seq<Byte> -> bool): (r: seq<seq<Byte>>)
    ensures r <= frames
  {
    if frames == [] || !decodes(frames[0]) then []
    else assert [frames[0]] + frames[1..] == frames; [frames[0]] + Messages(frames[1..], decodes)
  }

  lemma {:induction false} MessagesUpTo(frames: seq<seq<Byte>>, decodes: seq<Byte> -> bool, n: nat)
    requires n <= |frames| && forall i | 0 <= i < n :: decodes(frames[i])
    requires n < |frames| ==> !decodes(frames[n])
    ensures Messages(frames, decodes) == frames[..n]
  {
    if n > 0 {
      MessagesUpTo(frames[1..], decodes, n - 1);
      assert frames[..n] == [frames[0]] + frames[1..][..n - 1];
    }
  }

  /** All that will be received is what was taken as messages and what the remaining bytes hold. */
  ghost predicate ReadSoFar(all: (seq<seq<Byte>>, ReceiveError), messages: seq<seq<Byte>>, bytes: seq<Byte>,
                            decodes: seq<Byte> -> bool)
  {
    && all.0 == messages + DecodeAll(bytes).0 && all.1 == DecodeAll(bytes).1
    && forall i | 0 <= i < |messages| :: decodes(messages[i])
  }

  lemma ReadOneMore(all: (seq<seq<Byte>>, ReceiveError), messages: seq<seq<Byte>>, bytes: seq<Byte>,
                    decodes: seq<Byte> -> bool, payload: seq<Byte>, rest: seq<Byte>)
    requires ReadSoFar(all, messages, bytes, decodes) && Decode(bytes) == (Frame(payload), rest)
    ensures decodes(payload) ==> ReadSoFar(all, messages + [payload], rest, decodes)
    ensures !decodes(payload) ==>
              Messages(all.0, decodes) == messages && |messages| < |all.0| && all.0[|messages|] == payload
  {
    DecodeAllCons(bytes, payload, rest);
    if !decodes(payload) { MessagesUpTo(all.0, decodes, |messages|); }
  }

  lemma ReadFails(all: (seq<seq<Byte>>, ReceiveError), messages: seq<seq<Byte>>, bytes: seq<Byte>,
                  decodes: seq<Byte> -> bool, e: ReceiveError)
    requires ReadSoFar(all, messages, bytes, decodes) && Decode(bytes).0 == Failed(e)
    ensures Messages(all.0, decodes) == messages == all.0 && all.1 == e
  {
    MessagesUpTo(all.0, decodes, |messages|);
  }

  /** The read loop: frames are received until one fails or is not a control message, which `decodes` tells.
      What comes out, and how it ends, depends on the bytes alone. */
  method ReadLoop(stream: Reader, decodes: seq<Byte> -> bool) returns (messages: seq<seq<Byte>>, end: LoopEnd)
    modifies stream
    ensures var (frames, error) := DecodeAll(Flatten(old(stream.pending)));
            && messages == Messages(frames, decodes)
            && end == if messages == frames then NoFrame(error) else NoMessage(frames[|messages|])
  {
    messages := [];
    ghost var all := DecodeAll(Flatten(stream.pending));
    while true
      invariant ReadSoFar(all, messages, Flatten(stream.pending), decodes)
      decreases |Flatten(stream.pending)|
    {
      ghost var bytes := Flatten(stream.pending);
      var r := ReceiveFrame(stream);
      match r
      case Failed(e) =>
        ReadFails(all, messages, bytes, decodes, e);
        return messages, NoFrame(e);
      case Frame(payload) =>
        ReadOneMore(all, messages, bytes, decodes, payload, Flatten(stream.pending));
        if !decodes(payload) {
          return messages, NoMessage(payload);
        }
        messages := messages + [payload];
    }
  }

  /** What SendAll puts on a wire decodes to some of the frames, whole and in order, and to all of them, with a
      clean end, if and only if there was room for the whole encoding. */
  lemma EndToEnd(frames: seq<seq<Byte>>, room: nat)
    ensures var wire := EncodeAll(Fitting(frames));
            var (got, e) := DecodeAll(Cut(wire, room));
            got <= Fitting(frames) && (got == Fitting(frames) && e == Eof <==> |wire| <= room)
  {
    var fit := Fitting(frames);
    var wire := EncodeAll(fit);
    RoundTrip(fit);
    if |wire| > room {
      var n := Truncation(fit, room);
      assert fit[..|fit|] == fit;
    }
  }
}

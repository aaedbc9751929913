/** The length-delimited control frames: version, big-endian length, flags, payload. */
module FrameCodec {
  import opened Basics

  type byte = x: int | 0 <= x < 256
  type Bytes = seq<byte>

  const MAX_FRAME_SIZE: nat := 16 * 1024 * 1024
  const PROTOCOL_VERSION: byte := 1
  const HEADER_SIZE: nat := 6
  const U32: nat := 0x1_0000_0000

  /** Single-message frames refuse the compression flag; batch frames need their own. */
  datatype Kind = Single | Batch

  /** How messages become payload bytes: an arbitrary serialiser. */
  datatype Wire<!T> = Wire(kind: Kind, ser: T -> Bytes, de: Bytes -> Option<T>)

  ghost predicate Faithful<T(!new)>(w: Wire<T>) {
    forall m :: w.de(w.ser(m)) == Some(m)
  }

  datatype TransportError =
    | UnsupportedVersion(version: byte)
    | FrameTooLarge(size: nat)
    | CompressionError
    | InvalidFrame
    | SerializationError

  // ---------- One frame ----------

  function ToBe32(n: nat): (r: Bytes)
    ensures |r| == 4
  {
    [n / 0x100_0000 % 0x100, n / 0x1_0000 % 0x100, n / 0x100 % 0x100, n % 0x100]
  }

  function FromBe32(b: Bytes): nat
    requires |b| == 4
  {
    0x100_0000 * (b[0] as int) + 0x1_0000 * (b[1] as int) + 0x100 * (b[2] as int) + b[3] as int
  }

  lemma Be32RoundTrip(n: nat)
    ensures FromBe32(ToBe32(n)) == n % U32
  {
    var a := n / 0x100;
    var b := a / 0x100;
    var c := b / 0x100;
    assert n / 0x1_0000 == b && n / 0x100_0000 == c && n / U32 == c / 0x100;
    var r := FromBe32(ToBe32(n));
    assert r == 0x100_0000 * (c % 0x100) + 0x1_0000 * (b % 0x100) + 0x100 * (a % 0x100) + n % 0x100;
    assert n == U32 * (c / 0x100) + r;
  }

  function FlagsOf(kind: Kind): byte {
    match kind case Single => 0 case Batch => 2
  }

  /** The length field is the low 32 bits of the payload length. */
  function Encode<T>(w: Wire<T>, m: T): Bytes {
    [PROTOCOL_VERSION] + ToBe32(|w.ser(m)|) + [FlagsOf(w.kind)] + w.ser(m)
  }

  datatype Outcome<T> = NeedMore | Got(msg: T, rest: Bytes) | Failed(error: TransportError, rest: Bytes)

  /** What decoding makes of the payload once the frame is complete and consumed. */
  function Open<T>(w: Wire<T>, flags: byte, payload: Bytes, rest: Bytes): Outcome<T> {
    match w.kind
    case Single =>
      if flags % 2 == 1 then Failed(CompressionError, rest)
      else (match w.de(payload) case None => Failed(SerializationError, rest) case Some(m) => Got(m, rest))
    case Batch =>
      if flags / 2 % 2 == 0 then Failed(InvalidFrame, rest)
      else (match w.de(payload) case None => Failed(SerializationError, rest) case Some(m) => Got(m, rest))
  }

  function Decode<T>(w: Wire<T>, src: Bytes): (r: Outcome<T>)
    ensures r.Got? ==> |r.rest| + HEADER_SIZE <= |src|
  {
    if |src| < HEADER_SIZE then NeedMore
    else if src[0] != PROTOCOL_VERSION then Failed(UnsupportedVersion(src[0]), src)
    else
      var len := FromBe32(src[1..5]);
      if len > MAX_FRAME_SIZE then Failed(FrameTooLarge(len), src)
      else if |src| < HEADER_SIZE + len then NeedMore
      else Open(w, src[5], src[HEADER_SIZE..HEADER_SIZE + len], src[HEADER_SIZE + len..])
  }

  /** The header of an encoded frame followed by anything. */
  lemma Header<T>(w: Wire<T>, m: T, rest: Bytes)
    ensures var src := Encode(w, m) + rest;
      && |src| == HEADER_SIZE + |w.ser(m)| + |rest| && src[0] == PROTOCOL_VERSION && src[5] == FlagsOf(w.kind)
      && FromBe32(src[1..5]) == |w.ser(m)| % U32
      && src[HEADER_SIZE..] == w.ser(m) + rest
  {
    var src := Encode(w, m) + rest;
    assert src[1..5] == ToBe32(|w.ser(m)|);
    Be32RoundTrip(|w.ser(m)|);
  }

  /** A frame decodes to its message, leaving what follows, exactly when the payload
      is at most 16 MiB. */
  lemma RoundTripExactly<T(!new)>(w: Wire<T>, m: T, rest: Bytes)
    requires Faithful(w)
    ensures Decode(w, Encode(w, m) + rest) == Got(m, rest) <==> |w.ser(m)| <= MAX_FRAME_SIZE
  {
    var src, p := Encode(w, m) + rest, w.ser(m);
    Header(w, m, rest);
    if |p| <= MAX_FRAME_SIZE {
      assert src[HEADER_SIZE..HEADER_SIZE + |p|] == src[HEADER_SIZE..][..|p|] == p;
      assert src[HEADER_SIZE + |p|..] == src[HEADER_SIZE..][|p|..] == rest;
      assert Decode(w, src) == Open(w, FlagsOf(w.kind), p, rest);
    } else if |p| % U32 <= MAX_FRAME_SIZE {
      var r := src[HEADER_SIZE + |p| % U32..];
      assert |r| > |rest|;
      assert Decode(w, src) == Open(w, FlagsOf(w.kind), src[HEADER_SIZE..HEADER_SIZE + |p| % U32], r);
    }
  }

  /** The bytes of a frame: version 1, the payload length in big-endian order, flags 0 for a
      single message and 2 for a batch, and the payload. */
  lemma FrameBytes<T>(w: Wire<T>, m: T)
    ensures var f := Encode(w, m);
      && |f| == 6 + |w.ser(m)| && f[0] == 1 && f[5] == (if w.kind.Batch? then 2 else 0) && f[6..] == w.ser(m)
      && 0x100_0000 * (f[1] as int) + 0x1_0000 * (f[2] as int) + 0x100 * (f[3] as int) + f[4] as int
           == |w.ser(m)| % 0x1_0000_0000
  {
    Header(w, m, []);
    assert Encode(w, m) + [] == Encode(w, m);
  }

  /** What decoding makes of any buffer. It waits for six bytes and then for the whole payload;
      it refuses another version, a payload of more than 16 MiB, a single message with the
      lowest flag, a batch without the second, and a payload that does not deserialise. */
  lemma DecodeExactly<T>(w: Wire<T>, src: Bytes)
    ensures |src| < 6 ==> Decode(w, src) == NeedMore
    ensures |src| >= 6 && src[0] != 1 ==> Decode(w, src) == Failed(UnsupportedVersion(src[0]), src)
    ensures |src| >= 6 && src[0] == 1 ==>
      var len := 0x100_0000 * (src[1] as int) + 0x1_0000 * (src[2] as int) + 0x100 * (src[3] as int) + src[4] as int;
      if len > 16777216 then Decode(w, src) == Failed(FrameTooLarge(len), src)
      else if |src| - 6 < len then Decode(w, src) == NeedMore
      else
        var rest, m := src[6 + len..], w.de(src[6..6 + len]);
        if w.kind.Single? && src[5] % 2 == 1 then Decode(w, src) == Failed(CompressionError, rest)
        else if w.kind.Batch? && src[5] % 4 < 2 then Decode(w, src) == Failed(InvalidFrame, rest)
        else Decode(w, src) == if m.Some? then Got(m.value, rest) else Failed(SerializationError, rest)
  {
  }

  /** A decision never changes when more bytes arrive. */
  lemma Stable<T>(w: Wire<T>, src: Bytes, more: Bytes)
    ensures match Decode(w, src)
      case NeedMore => true
      case Got(m, rest) => Decode(w, src + more) == Got(m, rest + more)
      case Failed(e, rest) => Decode(w, src + more) == Failed(e, rest + more)
  {
    var all := src + more;
    if |src| >= HEADER_SIZE {
      assert all[0] == src[0] && all[5] == src[5];
      assert all[1..5] == src[1..5];
      var len := FromBe32(src[1..5]);
      if |src| >= HEADER_SIZE + len {
        assert all[HEADER_SIZE..HEADER_SIZE + len] == src[HEADER_SIZE..HEADER_SIZE + len];
        assert all[HEADER_SIZE + len..] == src[HEADER_SIZE + len..] + more;
      }
    }
  }

  // ---------- Streams ----------

  datatype Stream<T> = Stream(msgs: seq<T>, state: Reader)

  datatype Reader = Waiting(buffer: Bytes) | Broken(error: TransportError)

  /** Decoding until more bytes are needed or a frame is refused. */
  function Drain<T>(w: Wire<T>, src: Bytes): Stream<T>
    decreases |src|
  {
    match Decode(w, src)
    case NeedMore => Stream([], Waiting(src))
    case Failed(e, _) => Stream([], Broken(e))
    case Got(m, rest) =>
      var s := Drain(w, rest);
      Stream([m] + s.msgs, s.state)
  }

  function Feed<T>(w: Wire<T>, s: Stream<T>, piece: Bytes): Stream<T> {
    match s.state
    case Broken(_) => s
    case Waiting(buffer) =>
      var d := Drain(w, buffer + piece);
      Stream(s.msgs + d.msgs, d.state)
  }

  function FeedAll<T>(w: Wire<T>, pieces: seq<Bytes>): Stream<T> {
    if pieces == [] then Stream([], Waiting([])) else Feed(w, FeedAll(w, pieces[..|pieces| - 1]), pieces[|pieces| - 1])
  }

  function Concat(pieces: seq<Bytes>): Bytes {
    if pieces == [] then [] else Concat(pieces[..|pieces| - 1]) + pieces[|pieces| - 1]
  }

  function EncodeAll<T>(w: Wire<T>, msgs: seq<T>): Bytes {
    if msgs == [] then [] else Encode(w, msgs[0]) + EncodeAll(w, msgs[1..])
  }

  /** Draining a prefix first and the rest later gives the same stream. */
  lemma {:induction false} DrainSplit<T>(w: Wire<T>, src: Bytes, more: Bytes)
    ensures Drain(w, src + more) == Feed(w, Drain(w, src), more)
    decreases |src|
  {
    Stable(w, src, more);
    match Decode(w, src)
    case NeedMore =>
    case Failed(_, _) =>
    case Got(m, rest) =>
      DrainSplit(w, rest, more);
      FeedCons(w, m, Drain(w, rest), more);
  }

  lemma FeedCons<T>(w: Wire<T>, m: T, s: Stream<T>, piece: Bytes)
    ensures Feed(w, Stream([m] + s.msgs, s.state), piece) == var f := Feed(w, s, piece); Stream([m] + f.msgs, f.state)
  {
    if s.state.Waiting? {
      var d := Drain(w, s.state.buffer + piece);
      assert ([m] + s.msgs) + d.msgs == [m] + (s.msgs + d.msgs);
    }
  }

  /** Where the bytes are cut does not matter: any pieces give the stream of the whole,
      for every byte sequence, valid or not. */
  lemma {:induction false} CutsDoNotMatter<T>(w: Wire<T>, pieces: seq<Bytes>)
    ensures FeedAll(w, pieces) == Drain(w, Concat(pieces))
  {
    if pieces != [] {
      var n := |pieces| - 1;
      CutsDoNotMatter(w, pieces[..n]);
      DrainSplit(w, Concat(pieces[..n]), pieces[n]);
    }
  }

  lemma {:induction false} DrainEncoded<T(!new)>(w: Wire<T>, msgs: seq<T>)
    requires Faithful(w) && forall i :: 0 <= i < |msgs| ==> |w.ser(msgs[i])| <= MAX_FRAME_SIZE
    ensures Drain(w, EncodeAll(w, msgs)) == Stream(msgs, Waiting([]))
  {
    if msgs != [] {
      RoundTripExactly(w, msgs[0], EncodeAll(w, msgs[1..]));
      DrainEncoded(w, msgs[1..]);
    }
  }

  /** Any list of messages, encoded, cut anywhere and drained piece by piece, comes
      out in order with an empty buffer. */
  lemma StreamRoundTrip<T(!new)>(w: Wire<T>, msgs: seq<T>, pieces: seq<Bytes>)
    requires Faithful(w) && forall i :: 0 <= i < |msgs| ==> |w.ser(msgs[i])| <= MAX_FRAME_SIZE
    requires Concat(pieces) == EncodeAll(w, msgs)
    ensures FeedAll(w, pieces) == Stream(msgs, Waiting([]))
  {
    CutsDoNotMatter(w, pieces);
    DrainEncoded(w, msgs);
  }

  // ---------- The codec on its buffer ----------

  datatype Decoded<T> = Pending | Item(msg: T) | Error(error: TransportError)

  class FrameBuffer<T> {
    const wire: Wire<T>
    var src: Bytes

    constructor (wire: Wire<T>)
      ensures this.wire == wire && src == []
    {
      this.wire := wire;
      src := [];
    }

    method EncodeInto(m: T)
      modifies this
      ensures src == old(src) + Encode(wire, m)
    {
      var payload := wire.ser(m);
      src := src + [PROTOCOL_VERSION];
      src := src + ToBe32(|payload|);
      src := src + [FlagsOf(wire.kind)];
      src := src + payload;
      assert src == old(src) + Encode(wire, m);
    }

    /** An incomplete frame consumes nothing; a bad header neither. */
    method DecodeNext() returns (r: Decoded<T>)
      modifies this
      ensures match Decode(wire, old(src))
        case NeedMore => r == Pending && src == old(src)
        case Got(m, rest) => r == Item(m) && src == rest
        case Failed(e, rest) => r == Error(e) && src == rest
    {
      if |src| < HEADER_SIZE {
        return Pending;
      }
      var version := src[0];
      if version != PROTOCOL_VERSION {
        return Error(UnsupportedVersion(version));
      }
      var len := FromBe32(src[1..5]);
      var flags := src[5];
      if len > MAX_FRAME_SIZE {
        return Error(FrameTooLarge(len));
      }
      if |src| < HEADER_SIZE + len {
        return Pending;
      }
      src := src[HEADER_SIZE..];
      var payload := src[..len];
      src := src[len..];
      assert payload == old(src)[HEADER_SIZE..HEADER_SIZE + len] && src == old(src)[HEADER_SIZE + len..];
      if wire.kind == Single && flags % 2 == 1 {
        return Error(CompressionError);
      }
      if wire.kind == Batch && flags / 2 % 2 == 0 {
        return Error(InvalidFrame);
      }
      match wire.de(payload) {
        case None => r := Error(SerializationError);
        case Some(m) => r := Item(m);
      }
    }

    /** Appending received bytes and decoding all complete frames. */
    method Receive(piece: Bytes) returns (msgs: seq<T>, failure: Option<TransportError>)
      modifies this
      ensures var d := Drain(wire, old(src) + piece);
        && msgs == d.msgs
        && (failure.None? ==> d.state == Waiting(src))
        && (failure.Some? ==> d.state == Broken(failure.value))
    {
      src := src + piece;
      msgs := [];
      while true
        invariant Drain(wire, old(src) + piece) == var d := Drain(wire, src); Stream(msgs + d.msgs, d.state)
        decreases |src|
      {
        var r := DecodeNext();
        match r {
          case Pending => return msgs, None;
          case Error(e) => return msgs, Some(e);
          case Item(m) => msgs := msgs + [m];
        }
      }
    }
  }
}

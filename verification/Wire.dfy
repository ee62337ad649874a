// Envelopes of both wire formats on one stream (protocol/wire.go).
module Wire {
  import opened Bytes
  import opened Frames
  import opened Metadata
  import opened MetadataCodec
  import opened Packets
  import opened Text
  import opened Wrappers
  import opened Writers

  datatype Envelope = Envelope(format: Text, packet: Packet, frame: Frame)

  // "packet" and "frame_v1"
  const PACKET_NAME: Text := [112, 97, 99, 107, 101, 116]
  const FRAME_NAME: Text := [102, 114, 97, 109, 101, 95, 118, 49]

  // NormalizeWireFormat
  function AsciiFormat(name: Text): Format {
    var t := Lower(Trim(name));
    if t == [] || t == PACKET_NAME then PacketFormat else if t == FRAME_NAME then FrameFormat else UnknownFormat
  }

  ghost predicate Lawful(c: Conventions) {
    Idempotent(c.norm) && c.format(PACKET_NAME) == PacketFormat && c.format(FRAME_NAME) == FrameFormat
  }

  // The conventions for ASCII text.
  lemma AsciiLawful(crc: Crc)
    ensures Lawful(Conventions(crc, Ascii, AsciiFormat))
  {
    AsciiIdempotent();
    assert Trimmed(PACKET_NAME) && Trimmed(FRAME_NAME);
    assert Lower(PACKET_NAME) == PACKET_NAME && Lower(FRAME_NAME) == FRAME_NAME;
  }

  function PacketFromFrame(f: Frame): Packet {
    Packet(f.packetID, f.msgID, Has(f.flags, Compressed), f.body)
  }

  // ---- Writing ----

  // The frame WriteEnvelope builds: the compression flag, the ids and the body
  // come from the packet.
  function FrameOf(e: Envelope, n: Meta): Frame {
    var flags := Clear(e.frame.flags, Compressed);
    Frame(e.frame.version, if e.packet.compressed then Set(flags, Compressed) else flags, e.frame.codec,
          e.packet.packetID, e.packet.msgID, e.frame.sequence, 0, e.packet.body, n)
  }

  ghost function EnvelopeBytes(e: Envelope, n: Meta, c: Conventions): Result<Text, Error> {
    match c.format(e.format)
    case PacketFormat => PacketBytes(e.packet)
    case FrameFormat => FrameBytes(FrameOf(e, n), n, c)
    case UnknownFormat => Err(BadFormat)
  }

  // ---- Reading ----

  // The first four bytes look like those of a frame.
  predicate LooksLikeFrame(s: Text)
    requires |s| >= 4
  {
    FromLE(s[0..2]) == FRAME_MAGIC && s[2] == FRAME_VERSION && s[3] >= HEADER_SIZE
  }

  // ReadEnvelope on a stream that starts with s.
  function ReadEnvelopeFrom(s: Text, max: uint32, c: Conventions): Result<Got<Envelope>, Error> {
    if |s| < 4 then Err(Short)
    else if LooksLikeFrame(s) then
      match ReadFrameFrom(s, max, c)
      case Err(e) => Err(e)
      case Ok(got) => Ok(Got(Envelope(FRAME_NAME, PacketFromFrame(got.value), got.value), got.size))
    else
      match ReadPacketFrom(s, max)
      case Err(e) => Err(e)
      case Ok(got) => Ok(Got(Envelope(PACKET_NAME, got.value, NO_FRAME), got.size))
  }

  // ---- Detection ----

  lemma FourthByte(v: nat)
    requires v < 0x100_0000
    ensures LE(v, 4)[3] == 0
  {
    assert LE(v, 4) == [v % 256] + LE(v / 256, 3);
    assert LE(v / 256, 3) == [v / 256 % 256] + LE(v / 256 / 256, 2);
    assert LE(v / 256 / 256, 2) == [v / 256 / 256 % 256] + LE(v / 256 / 256 / 256, 1);
  }

  // A legacy packet within its limit is never taken for a frame: the fourth
  // byte of its length is zero.
  lemma PacketIsNotFrame(p: Packet, rest: Text)
    requires PacketBytes(p).Ok?
    ensures !LooksLikeFrame(PacketBytes(p).value + rest)
  {
    PacketSlices(p, rest);
    FourthByte(|p.body|);
    var s := PacketBytes(p).value + rest;
    assert s[3] == s[0..4][3];
  }

  lemma FrameIsFrame(f: Frame, n: Meta, c: Conventions, rest: Text)
    requires FrameBytes(f, n, c).Ok?
    ensures |FrameBytes(f, n, c).value| >= HEADER_SIZE && LooksLikeFrame(FrameBytes(f, n, c).value + rest)
  {
    var meta := EncodeMeta(n).value;
    var h := Header(Outgoing(f, n, c), HEADER_SIZE + |meta|, |f.body|);
    HeaderFields(Outgoing(f, n, c), HEADER_SIZE + |meta|, |f.body|, meta + f.body + rest);
    FrameSlices(h, meta, f.body, rest);
  }

  // ---- One envelope ----

  // The envelope as the reader gets it.
  function Received(e: Envelope, n: Meta, c: Conventions): Envelope {
    if c.format(e.format) == FrameFormat then
      Envelope(FRAME_NAME, e.packet, Outgoing(FrameOf(e, n), n, c))
    else Envelope(PACKET_NAME, e.packet, NO_FRAME)
  }

  // It can be written, and its body is within the reader's limit.
  ghost predicate Sendable(e: Envelope, n: Meta, c: Conventions, max: uint32) {
    && EnvelopeBytes(e, n, c).Ok? && Normalised(n, c.norm)
    && |e.packet.body| <= if c.format(e.format) == FrameFormat then MaxBody(max) else MaxPacket(max)
  }

  lemma FrameOfPacket(e: Envelope, n: Meta)
    ensures PacketFromFrame(FrameOf(e, n)) == e.packet
  {
    FlagLaws(e.frame.flags, Compressed);
    FlagLaws(Clear(e.frame.flags, Compressed), Compressed);
  }

  lemma EnvelopeRoundTrip(e: Envelope, n: Meta, c: Conventions, rest: Text, max: uint32)
    requires Sendable(e, n, c, max)
    ensures var b := EnvelopeBytes(e, n, c).value;
            && ReadEnvelopeFrom(b + rest, max, c) == Ok(Got(Received(e, n, c), |b|))
            && (b + rest)[|b|..] == rest
  {
    match c.format(e.format)
    case PacketFormat =>
      PacketRoundTrip(e.packet, rest, max);
      PacketIsNotFrame(e.packet, rest);
    case FrameFormat =>
      FrameRoundTrip(FrameOf(e, n), n, c, rest, max);
      FrameIsFrame(FrameOf(e, n), n, c, rest);
      FrameOfPacket(e, n);
  }

  // ---- Streams ----

  // The bytes of all of them, one after the other.
  ghost function StreamBytes(es: seq<Envelope>, ns: seq<Meta>, c: Conventions): Text
    requires |es| == |ns|
  {
    if es == [] then []
    else
      var first := EnvelopeBytes(es[0], ns[0], c);
      (if first.Ok? then first.value else []) + StreamBytes(es[1..], ns[1..], c)
  }

  // Reading `count` envelopes: what they are and what is left of the stream.
  function ReadStream(s: Text, count: nat, max: uint32, c: Conventions): Result<(seq<Envelope>, Text), Error> {
    if count == 0 then Ok(([], s))
    else match ReadEnvelopeFrom(s, max, c)
      case Err(e) => Err(e)
      case Ok(got) =>
        if got.size > |s| then Err(Short)
        else match ReadStream(s[got.size..], count - 1, max, c)
          case Err(e) => Err(e)
          case Ok((more, rest)) => Ok(([got.value] + more, rest))
  }

  function ReceivedAll(es: seq<Envelope>, ns: seq<Meta>, c: Conventions): (r: seq<Envelope>)
    requires |es| == |ns|
    ensures |r| == |es| && forall i :: 0 <= i < |r| ==> r[i] == Received(es[i], ns[i], c)
  {
    if es == [] then [] else [Received(es[0], ns[0], c)] + ReceivedAll(es[1..], ns[1..], c)
  }

  ghost predicate AllSendable(es: seq<Envelope>, ns: seq<Meta>, c: Conventions, max: uint32)
    requires |es| == |ns|
  {
    es == [] || (Sendable(es[0], ns[0], c, max) && AllSendable(es[1..], ns[1..], c, max))
  }

  lemma StreamHead(es: seq<Envelope>, ns: seq<Meta>, c: Conventions, rest: Text)
    requires |es| == |ns| && es != [] && EnvelopeBytes(es[0], ns[0], c).Ok?
    ensures StreamBytes(es, ns, c) + rest ==
            EnvelopeBytes(es[0], ns[0], c).value + (StreamBytes(es[1..], ns[1..], c) + rest)
  {
  }

  lemma FirstRead(e: Envelope, n: Meta, c: Conventions, tail: Text, max: uint32, count: nat, more: seq<Envelope>,
                  rest: Text)
    requires Sendable(e, n, c, max) && count > 0 && ReadStream(tail, count - 1, max, c) == Ok((more, rest))
    ensures ReadStream(EnvelopeBytes(e, n, c).value + tail, count, max, c) == Ok(([Received(e, n, c)] + more, rest))
  {
    EnvelopeRoundTrip(e, n, c, tail, max);
  }

  // Main result: any mixture of packets and frames written back to back is read
  // back one for one, and the stream is left where they end.
  lemma {:induction false} StreamRoundTrip(es: seq<Envelope>, ns: seq<Meta>, c: Conventions, rest: Text, max: uint32)
    requires |es| == |ns| && AllSendable(es, ns, c, max)
    ensures ReadStream(StreamBytes(es, ns, c) + rest, |es|, max, c) == Ok((ReceivedAll(es, ns, c), rest))
  {
    if es == [] {
      assert StreamBytes(es, ns, c) + rest == rest;
    } else {
      var tail := StreamBytes(es[1..], ns[1..], c) + rest;
      StreamRoundTrip(es[1..], ns[1..], c, rest, max);
      StreamHead(es, ns, c, rest);
      FirstRead(es[0], ns[0], c, tail, max, |es|, ReceivedAll(es[1..], ns[1..], c), rest);
    }
  }

  // Sending on what was received sends the same bytes.
  lemma RelayIsTransparent(e: Envelope, n: Meta, c: Conventions)
    requires Lawful(c) && EnvelopeBytes(e, n, c).Ok?
    ensures EnvelopeBytes(Received(e, n, c), n, c) == EnvelopeBytes(e, n, c)
  {
    if c.format(e.format) == FrameFormat {
      var f := FrameOf(e, n);
      FrameOfPacket(e, n);
      FlagLaws(e.frame.flags, Compressed);
      ClearSet(e.frame.flags, Compressed);
      assert FrameOf(Received(e, n, c), n).flags == f.flags;
    }
  }

  // ---- The procedures ----

  // WriteEnvelope: the metadata is cloned here and again by WriteFrame, which
  // changes nothing more.
  method WriteEnvelope(w: Writer, e: Envelope, c: Conventions) returns (res: Result<(), Error>, ghost n: Meta)
    requires Lawful(c)
    modifies w
    ensures Clones(e.frame.metadata, n, c.norm)
    ensures Writes(old(w.delivered), EnvelopeBytes(e, n, c), w.delivered, res) && Told(w, res)
  {
    n := Normal(e.frame.metadata, c.norm);
    match c.format(e.format)
    case PacketFormat => res := WritePacket(w, e.packet);
    case UnknownFormat => res := Err(BadFormat);
    case FrameFormat =>
      var metadata := CloneFrameMetadata(e.frame.metadata, c.norm);
      n := metadata;
      ClonesAreNormalised(e.frame.metadata, metadata, c.norm);
      ghost var again;
      res, again := WriteFrame(w, FrameOf(e, metadata), c);
      NormalisedClonesToItself(metadata, again, c.norm);
  }

  // ReadEnvelope; Peek leaves the stream where it is.
  method ReadEnvelope(r: Reader, max: uint32, c: Conventions) returns (res: Result<Envelope, Error>)
    modifies r
    ensures match ReadEnvelopeFrom(old(r.rest), max, c)
            case Err(e) => res == Err(e)
            case Ok(got) => res == Ok(got.value) && got.size <= |old(r.rest)| && r.rest == old(r.rest)[got.size..]
  {
    if |r.rest| < 4 { return Err(Short); }
    var peek := r.rest[..4];
    assert peek[0..2] == r.rest[0..2];
    if LooksLikeFrame(peek) {
      var frame := ReadFrame(r, max, c);
      match frame
      case Err(e) => res := Err(e);
      case Ok(f) => res := Ok(Envelope(FRAME_NAME, PacketFromFrame(f), f));
    } else {
      var packet := ReadPacket(r, max);
      match packet
      case Err(e) => res := Err(e);
      case Ok(p) => res := Ok(Envelope(PACKET_NAME, p, NO_FRAME));
    }
  }
}

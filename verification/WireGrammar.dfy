// Exactly which streams the readers of the gateway accept, and as what, and
// what they say of the others (protocol/frame.go, packet.go and wire.go).
module WireGrammar {
  import opened Bytes
  import opened Frames
  import opened Metadata
  import opened MetadataCodec
  import opened Packets
  import opened Text
  import opened Wire
  import opened Wrappers

  // ---- Frames ----

  // A stream starts with a frame of n bytes: a header with its magic, version
  // and sizes, metadata that decode, and a body within the limit.
  ghost predicate FrameAt(s: Text, f: Frame, n: nat, meta: Text, max: uint32, c: Conventions) {
    && n == 32 + |meta| + |f.body| <= |s| && |meta| <= 223
    && |f.body| <= (if max == 0 then 4 * 1024 * 1024 else max)
    && s[0] == 0x47 && s[1] == 0x50 && f.version == 1 && DecodeMeta(meta, c.norm) == Some(f.metadata)
    && s[..n] == Header(f, 32 + |meta|, |f.body|) + meta + f.body
  }

  predicate ChecksumHolds(f: Frame, c: Conventions) {
    f.flags / 4 % 2 == 1 ==> c.crc(f.body) == f.checksum
  }

  lemma MagicBytes(a: byte, b: byte)
    ensures FromLE([a, b]) == FRAME_MAGIC <==> a == 0x47 && b == 0x50
  {
    assert [a, b][1..] == [b] && [b][1..] == [];
    assert FromLE([b]) == b;
  }

  lemma HeaderCut(s: Text)
    requires |s| >= 32
    ensures s[..32] == s[0..2] + [s[2], s[3]] + s[4..6] + s[6..8] + s[8..12] + s[12..16] + s[16..24] + s[24..28]
                       + s[28..32]
  {
  }

  lemma SignedBits(u: uint32)
    ensures ToUnsigned(ToSigned(u)) == u
  {
  }

  // The header that is written for the fields that were read is the one read.
  lemma HeaderInverse(s: Text, body: Text, metadata: Meta)
    requires |s| >= 32 && s[0] == 0x47 && s[1] == 0x50
    ensures FromLE(s[24..28]) < TWO32
    ensures Header(ParseHeader(s, body, metadata), s[3], FromLE(s[24..28])) == s[..32]
  {
    Field(s, 4, 2); Field(s, 6, 2); Field(s, 8, 4); Field(s, 12, 4); Field(s, 16, 8); Field(s, 24, 4); Field(s, 28, 4);
    assert s[0..2] == [0x47, 0x50];
    MagicBytes(s[0], s[1]);
    LEOfFromLE(s[0..2]);
    LEOfFromLE(s[4..6]);
    LEOfFromLE(s[6..8]);
    LEOfFromLE(s[8..12]);
    LEOfFromLE(s[12..16]);
    LEOfFromLE(s[16..24]);
    LEOfFromLE(s[24..28]);
    LEOfFromLE(s[28..32]);
    SignedBits(FromLE(s[8..12]));
    HeaderCut(s);
  }

  lemma ThreeSlices(s: Text, a: nat, b: nat)
    requires a <= b <= |s|
    ensures s[..b] == s[..a] + s[a..b]
  {
  }

  // What is read stands there.
  lemma ReadStands(s: Text, max: uint32, c: Conventions) returns (meta: Text)
    requires ReadFrameFrom(s, max, c).Ok?
    ensures var got := ReadFrameFrom(s, max, c).value;
            FrameAt(s, got.value, got.size, meta, max, c) && ChecksumHolds(got.value, c)
  {
    var got := ReadFrameFrom(s, max, c).value;
    var size: int := s[3];
    meta := s[32..size];
    assert s[0..2] == [s[0], s[1]];
    MagicBytes(s[0], s[1]);
    HeaderInverse(s, got.value.body, got.value.metadata);
    ThreeSlices(s, 32, size);
    ThreeSlices(s, size, got.size);
  }

  lemma HeadAndRest(s: Text, head: Text)
    requires |head| <= |s| && s[..|head|] == head
    ensures s == head + s[|head|..]
  {
  }

  // What stands there is read, unless its checksum is wrong.
  lemma StandingIsRead(s: Text, f: Frame, n: nat, meta: Text, max: uint32, c: Conventions)
    requires FrameAt(s, f, n, meta, max, c)
    ensures ReadFrameFrom(s, max, c) == if ChecksumHolds(f, c) then Ok(Got(f, n)) else Err(BadChecksum)
  {
    HeadAndRest(s, Header(f, 32 + |meta|, |f.body|) + meta + f.body);
    if ChecksumHolds(f, c) {
      AssembledFrameReads(f, meta, c, s[n..], max);
    } else {
      WrongSumRefused(f, meta, s[n..], max, c);
    }
  }

  lemma WrongSumRefused(f: Frame, meta: Text, rest: Text, max: uint32, c: Conventions)
    requires |meta| <= 223 && |f.body| <= MaxBody(max) && f.version == FRAME_VERSION
    requires DecodeMeta(meta, c.norm) == Some(f.metadata) && !ChecksumHolds(f, c)
    ensures ReadFrameFrom(Header(f, 32 + |meta|, |f.body|) + meta + f.body + rest, max, c) == Err(BadChecksum)
  {
    var h := Header(f, 32 + |meta|, |f.body|);
    HeaderFields(f, 32 + |meta|, |f.body|, meta + f.body + rest);
    FrameSlices(h, meta, f.body, rest);
  }

  // Main result: a frame is read exactly where one stands whose checksum holds.
  lemma FrameReadIff(s: Text, f: Frame, n: nat, max: uint32, c: Conventions)
    ensures ReadFrameFrom(s, max, c) == Ok(Got(f, n)) <==>
              ChecksumHolds(f, c) && exists meta :: FrameAt(s, f, n, meta, max, c)
  {
    if ReadFrameFrom(s, max, c) == Ok(Got(f, n)) { var meta := ReadStands(s, max, c); }
    forall meta | FrameAt(s, f, n, meta, max, c)
      ensures ReadFrameFrom(s, max, c) == if ChecksumHolds(f, c) then Ok(Got(f, n)) else Err(BadChecksum)
    {
      StandingIsRead(s, f, n, meta, max, c);
    }
  }

  lemma BadChecksumStands(s: Text, max: uint32, c: Conventions) returns (f: Frame, meta: Text)
    requires ReadFrameFrom(s, max, c) == Err(BadChecksum)
    ensures FrameAt(s, f, 32 + |meta| + |f.body|, meta, max, c) && !ChecksumHolds(f, c)
  {
    var size: int, bodySize := s[3], FromLE(s[24..28]);
    meta := s[32..size];
    f := ParseHeader(s, s[size..size + bodySize], DecodeMeta(meta, c.norm).value);
    assert s[0..2] == [s[0], s[1]];
    MagicBytes(s[0], s[1]);
    HeaderInverse(s, f.body, f.metadata);
    ThreeSlices(s, 32, size);
    ThreeSlices(s, size, size + bodySize);
  }

  // A checksum is complained of exactly where a frame stands whose body it does
  // not fit.
  lemma BadChecksumIff(s: Text, max: uint32, c: Conventions)
    ensures ReadFrameFrom(s, max, c) == Err(BadChecksum) <==>
              exists f, n, meta :: FrameAt(s, f, n, meta, max, c) && !ChecksumHolds(f, c)
  {
    if ReadFrameFrom(s, max, c) == Err(BadChecksum) { var f, meta := BadChecksumStands(s, max, c); }
    forall f, n, meta | FrameAt(s, f, n, meta, max, c) && !ChecksumHolds(f, c)
      ensures ReadFrameFrom(s, max, c) == Err(BadChecksum)
    {
      StandingIsRead(s, f, n, meta, max, c);
    }
  }

  // A stream that breaks off inside a frame is short, and nothing else.
  lemma CutFrameIsShort(s: Text, more: Text, max: uint32, c: Conventions)
    requires ReadFrameFrom(s + more, max, c).Ok? && |s| < ReadFrameFrom(s + more, max, c).value.size
    ensures ReadFrameFrom(s, max, c) == Err(Short)
  {
    var t := s + more;
    if |s| >= 32 {
      assert t[0..2] == s[0..2] && t[2] == s[2] && t[3] == s[3] && t[24..28] == s[24..28];
      var size: int := s[3];
      if size <= |s| { assert t[32..size] == s[32..size]; }
    }
  }

  // Which defect of a header is named, in the order they are looked for.
  lemma HeaderRefusals(f: Frame, size: byte, bodySize: uint32, tail: Text, max: uint32, c: Conventions)
    ensures var r := ReadFrameFrom(Header(f, size, bodySize) + tail, max, c);
            if f.version != 1 then r == Err(BadVersion)
            else if size < 32 then r == Err(BadHeader)
            else if |tail| < size as int - 32 then r == Err(Short)
            else if DecodeMeta(tail[..size as int - 32], c.norm).None? then r == Err(BadMetadata)
            else bodySize > (if max == 0 then 4 * 1024 * 1024 else max) ==> r == Err(BodyTooLarge)
  {
    var s := Header(f, size, bodySize) + tail;
    HeaderFields(f, size, bodySize, tail);
    if size >= 32 && |tail| >= size as int - 32 { assert s[32..size] == tail[..size as int - 32]; }
  }

  lemma BadMagicIff(s: Text, max: uint32, c: Conventions)
    requires |s| >= 32
    ensures ReadFrameFrom(s, max, c) == Err(BadMagic) <==> s[0] != 0x47 || s[1] != 0x50
  {
    assert s[0..2] == [s[0], s[1]];
    MagicBytes(s[0], s[1]);
  }

  // What WriteFrame sends for a frame.
  function Sent(f: Frame, n: Meta, c: Conventions): Frame {
    Frame(1, f.flags, f.codec, f.packetID, f.msgID, f.sequence, if f.flags / 4 % 2 == 1 then c.crc(f.body) else 0,
          f.body, n)
  }

  // Main result: a frame is written exactly if its version is 0 or 1 and its
  // body and its metadata fit; what is written is that frame and nothing else.
  lemma FrameWrittenIff(f: Frame, n: Meta, c: Conventions)
    requires Normalised(n, c.norm)
    ensures match FrameBytes(f, n, c)
            case Ok(b) => exists meta :: FrameAt(b, Sent(f, n, c), |b|, meta, 0, c) && EncodeMeta(n) == Some(meta)
            case Err(e) =>
              e == if f.version > 1 then BadVersion
                   else if |f.body| > 4 * 1024 * 1024 then BodyTooLarge else MetadataTooLarge
    ensures FrameBytes(f, n, c).Ok? <==> f.version <= 1 && |f.body| <= 4 * 1024 * 1024 && EncodeMeta(n).Some?
  {
    if FrameBytes(f, n, c).Ok? {
      var b, meta := FrameBytes(f, n, c).value, EncodeMeta(n).value;
      MetaRoundTrip(n, c.norm);
      assert Outgoing(f, n, c) == Sent(f, n, c);
      FrameStart(Sent(f, n, c), meta);
      assert b[..|b|] == b;
      assert FrameAt(b, Sent(f, n, c), |b|, meta, 0, c);
    }
  }

  lemma FrameStart(f: Frame, meta: Text)
    requires |meta| <= 223 && |f.body| <= MAX_FRAME_BODY
    ensures var b := Header(f, 32 + |meta|, |f.body|) + meta + f.body; b[0] == 0x47 && b[1] == 0x50
  {
    var h := Header(f, 32 + |meta|, |f.body|);
    HeaderSlices(f, 32 + |meta|, |f.body|, []);
    assert h + [] == h;
    Pow256Values();
    FromLEOfLE(FRAME_MAGIC, 2);
    assert h[0..2] == [h[0], h[1]];
    MagicBytes(h[0], h[1]);
  }

  // ---- Packets ----

  predicate PacketAt(s: Text, p: Packet, n: nat, max: uint32) {
    && n == 13 + |p.body| <= |s| && |p.body| <= (if max == 0 then 1024 * 1024 else max)
    && s[..n] == LE(|p.body|, 4) + LE(ToUnsigned(p.packetID), 4) + LE(p.msgID, 4)
                 + [if p.compressed then 1 else 0] + p.body
  }

  lemma PacketCut(s: Text, n: nat)
    requires 13 <= n <= |s|
    ensures s[..n] == s[0..4] + s[4..8] + s[8..12] + [s[12]] + s[13..n]
  {
  }

  lemma PacketPieces(a: Text, b: Text, d: Text, flag: byte, body: Text, rest: Text)
    requires |a| == |b| == |d| == 4
    ensures var s := a + b + d + [flag] + body + rest;
            && s[0..4] == a && s[4..8] == b && s[8..12] == d && s[12] == flag && s[13..13 + |body|] == body
  {
  }

  lemma PacketStandingIsRead(s: Text, p: Packet, n: nat, max: uint32)
    requires PacketAt(s, p, n, max)
    ensures ReadPacketFrom(s, max) == Ok(Got(p, n))
  {
    assert s == s[..n] + s[n..];
    PacketPieces(LE(|p.body|, 4), LE(ToUnsigned(p.packetID), 4), LE(p.msgID, 4), if p.compressed then 1 else 0,
                 p.body, s[n..]);
    Pow256Values();
    FromLEOfLE(|p.body|, 4);
    FromLEOfLE(ToUnsigned(p.packetID), 4);
    FromLEOfLE(p.msgID, 4);
  }

  lemma PacketReadStands(s: Text, max: uint32)
    requires ReadPacketFrom(s, max).Ok?
    ensures var got := ReadPacketFrom(s, max).value; PacketAt(s, got.value, got.size, max)
  {
    Field(s, 4, 4);
    Field(s, 8, 4);
    LEOfFromLE(s[0..4]);
    LEOfFromLE(s[4..8]);
    LEOfFromLE(s[8..12]);
    SignedBits(FromLE(s[4..8]));
    PacketCut(s, ReadPacketFrom(s, max).value.size);
  }

  // Main result: a packet is read exactly where one stands.
  lemma PacketReadIff(s: Text, p: Packet, n: nat, max: uint32)
    ensures ReadPacketFrom(s, max) == Ok(Got(p, n)) <==> PacketAt(s, p, n, max)
  {
    if ReadPacketFrom(s, max).Ok? { PacketReadStands(s, max); }
    if PacketAt(s, p, n, max) { PacketStandingIsRead(s, p, n, max); }
  }

  // A packet is written exactly if its body fits, and as itself.
  lemma PacketWrittenIff(p: Packet)
    ensures match PacketBytes(p)
            case Ok(b) => |p.body| <= 1024 * 1024 && PacketAt(b, p, |b|, 0)
            case Err(e) => |p.body| > 1024 * 1024 && e == BodyTooLarge
  {
    if PacketBytes(p).Ok? { assert PacketBytes(p).value[..|PacketBytes(p).value|] == PacketBytes(p).value; }
  }

  // The defects, in the order they are looked for.
  lemma PacketRefusals(size: uint32, id: uint32, msg: uint32, flag: byte, tail: Text, max: uint32)
    ensures var r := ReadPacketFrom(LE(size, 4) + LE(id, 4) + LE(msg, 4) + [flag] + tail, max);
            if size > (if max == 0 then 1024 * 1024 else max) then r == Err(BodyTooLarge)
            else if |tail| < size then r == Err(Short)
            else flag > 1 ==> r == Err(BadFlag)
  {
    PacketPieces(LE(size, 4), LE(id, 4), LE(msg, 4), flag, tail, []);
    var s := LE(size, 4) + LE(id, 4) + LE(msg, 4) + [flag] + tail;
    assert s + [] == s;
    Pow256Values();
    FromLEOfLE(size, 4);
  }

  // ---- Envelopes ----

  // What WriteEnvelope writes for the frame format: the packet's ids, body and
  // compression, and everything else of the frame.
  lemma FrameOfFields(e: Envelope, n: Meta)
    ensures var f := FrameOf(e, n);
            && f.version == e.frame.version && f.codec == e.frame.codec && f.sequence == e.frame.sequence
            && f.flags / 2 == e.frame.flags / 2 && (f.flags % 2 == 1 <==> e.packet.compressed)
            && f.packetID == e.packet.packetID && f.msgID == e.packet.msgID && f.body == e.packet.body
            && f.metadata == n
  {
  }

  predicate StartsFrame(s: Text) {
    |s| >= 4 && s[0] == 0x47 && s[1] == 0x50 && s[2] == 1 && s[3] >= 32
  }

  ghost predicate FrameEnvelopeAt(s: Text, e: Envelope, n: nat, max: uint32, c: Conventions) {
    && StartsFrame(s) && (exists meta :: FrameAt(s, e.frame, n, meta, max, c)) && ChecksumHolds(e.frame, c)
    && e.format == FRAME_NAME
    && e.packet == Packet(e.frame.packetID, e.frame.msgID, e.frame.flags % 2 == 1, e.frame.body)
  }

  predicate PacketEnvelopeAt(s: Text, e: Envelope, n: nat, max: uint32) {
    && |s| >= 4 && !StartsFrame(s) && PacketAt(s, e.packet, n, max) && e.format == PACKET_NAME && e.frame == NO_FRAME
  }

  lemma DetectsIff(s: Text)
    requires |s| >= 4
    ensures LooksLikeFrame(s) <==> StartsFrame(s)
  {
    assert s[0..2] == [s[0], s[1]];
    MagicBytes(s[0], s[1]);
  }

  lemma EnvelopeByFrame(s: Text, e: Envelope, n: nat, max: uint32, c: Conventions, r: Result<Got<Frame>, Error>)
    requires StartsFrame(s) && r == ReadFrameFrom(s, max, c)
    ensures ReadEnvelopeFrom(s, max, c) == Ok(Got(e, n)) <==>
              && r == Ok(Got(e.frame, n)) && e.format == FRAME_NAME
              && e.packet == Packet(e.frame.packetID, e.frame.msgID, e.frame.flags % 2 == 1, e.frame.body)
  {
    DetectsIff(s);
  }

  lemma EnvelopeByPacket(s: Text, e: Envelope, n: nat, max: uint32, c: Conventions, r: Result<Got<Packet>, Error>)
    requires |s| >= 4 && !StartsFrame(s) && r == ReadPacketFrom(s, max)
    ensures ReadEnvelopeFrom(s, max, c) == Ok(Got(e, n)) <==>
              r == Ok(Got(e.packet, n)) && e.format == PACKET_NAME && e.frame == NO_FRAME
  {
    DetectsIff(s);
  }

  // Main result: the first four bytes decide which of the two is read.
  lemma EnvelopeReadIff(s: Text, e: Envelope, n: nat, max: uint32, c: Conventions)
    ensures ReadEnvelopeFrom(s, max, c) == Ok(Got(e, n)) <==>
              FrameEnvelopeAt(s, e, n, max, c) || PacketEnvelopeAt(s, e, n, max)
  {
    if StartsFrame(s) {
      FrameReadIff(s, e.frame, n, max, c);
      EnvelopeByFrame(s, e, n, max, c, ReadFrameFrom(s, max, c));
    } else if |s| >= 4 {
      PacketReadIff(s, e.packet, n, max);
      EnvelopeByPacket(s, e, n, max, c, ReadPacketFrom(s, max));
    }
  }

  // ---- Names of formats ----

  lemma FormatOfTrimmed(name: Text, t: Text)
    requires Trim(name) == t
    ensures AsciiFormat(name) ==
            if t == [] || Lower(t) == PACKET_NAME then PacketFormat
            else if Lower(t) == FRAME_NAME then FrameFormat else UnknownFormat
  {
    assert |Lower(t)| == |t|;
  }

  // White space around a name and its case do not count; "packet" or nothing,
  // and "frame_v1", are all there are.
  lemma AsciiFormatOf(before: Text, t: Text, after: Text)
    requires Spaces(before) && Spaces(after) && Trimmed(t)
    ensures AsciiFormat(before + t + after) ==
            if t == [] || Lower(t) == [112, 97, 99, 107, 101, 116] then PacketFormat
            else if Lower(t) == [102, 114, 97, 109, 101, 95, 118, 49] then FrameFormat else UnknownFormat
  {
    TrimOf(before, t, after);
    FormatOfTrimmed(before + t + after, t);
  }
}

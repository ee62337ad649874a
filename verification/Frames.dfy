// The frame_v1 wire format (protocol/frame.go).  The checksum function is a
// parameter.
module Frames {
  import opened Bytes
  import opened Metadata
  import opened MetadataCodec
  import opened Sequences
  import opened Text
  import opened Wrappers
  import opened Writers

  const FRAME_MAGIC: uint16 := 0x5047
  const FRAME_VERSION: byte := 1
  const MAX_FRAME_BODY: uint32 := 4 * 1024 * 1024

  // ---- Flags ----

  datatype Flag = Compressed | Encrypted | Checksum

  function Bit(flag: Flag): nat {
    match flag
    case Compressed => 1
    case Encrypted => 2
    case Checksum => 4
  }

  predicate Has(flags: uint16, flag: Flag) {
    flags / Bit(flag) % 2 == 1
  }

  function Set(flags: uint16, flag: Flag): uint16 {
    if Has(flags, flag) then flags else
      match flag case Compressed => flags + 1 case Encrypted => flags + 2 case Checksum => flags + 4
  }

  function Clear(flags: uint16, flag: Flag): uint16 {
    if Has(flags, flag) then flags - Bit(flag) else flags
  }

  lemma HasBits(w: uint16, c: nat, e: nat, k: nat, q: nat)
    requires c <= 1 && e <= 1 && k <= 1 && w == c + 2 * e + 4 * k + 8 * q
    ensures Has(w, Compressed) == (c == 1) && Has(w, Encrypted) == (e == 1) && Has(w, Checksum) == (k == 1)
  {
    assert w / 2 == e + 2 * k + 4 * q;
    assert w / 4 == k + 2 * q;
  }

  lemma ToBits(w: uint16) returns (c: nat, e: nat, k: nat, q: nat)
    ensures c <= 1 && e <= 1 && k <= 1 && w == c + 2 * e + 4 * k + 8 * q
  {
    c, e, k, q := w % 2, w / 2 % 2, w / 4 % 2, w / 8;
    assert w / 4 == w / 2 / 2;
    assert w / 8 == w / 4 / 2;
  }

  // Setting or clearing a flag changes that flag and no other.
  lemma FlagLaws(flags: uint16, a: Flag)
    ensures Has(Set(flags, a), a) && !Has(Clear(flags, a), a)
    ensures forall b :: b != a ==> Has(Set(flags, a), b) == Has(flags, b) && Has(Clear(flags, a), b) == Has(flags, b)
    ensures Set(flags, a) == Clear(flags, a) + (match a case Compressed => 1 case Encrypted => 2 case Checksum => 4)
  {
    var c, e, k, q := ToBits(flags);
    HasBits(flags, c, e, k, q);
    match a
    case Compressed => HasBits(Set(flags, a), 1, e, k, q); HasBits(Clear(flags, a), 0, e, k, q);
    case Encrypted => HasBits(Set(flags, a), c, 1, k, q); HasBits(Clear(flags, a), c, 0, k, q);
    case Checksum => HasBits(Set(flags, a), c, e, 1, q); HasBits(Clear(flags, a), c, e, 0, q);
  }

  // Words with the same flags set and equal once those are cleared are equal.
  lemma ClearSet(flags: uint16, a: Flag)
    ensures Clear(Set(flags, a), a) == Clear(flags, a)
    ensures Set(Clear(flags, a), a) == Set(flags, a)
  {
    FlagLaws(flags, a);
  }

  // ---- Frames ----

  datatype Frame = Frame(version: byte, flags: uint16, codec: uint16, packetID: int32, msgID: uint32,
                         sequence: uint64, checksum: uint32, body: Text, metadata: Meta)

  const NO_FRAME := Frame(0, 0, 0, 0, 0, 0, 0, [], map[])

  type Crc = Text -> uint32

  datatype Format = PacketFormat | FrameFormat | UnknownFormat

  // The checksum of a body, how metadata is normalised, and what the name of a
  // wire format means.
  datatype Conventions = Conventions(crc: Crc, norm: Norm, format: Text -> Format)

  datatype Error = Short | BadMagic | BadVersion | BadHeader | BadMetadata | BodyTooLarge | BadChecksum
                 | MetadataTooLarge | BadFlag | BadFormat | NotDelivered

  // Something read from the front of a stream, and how many bytes it took.
  datatype Got<T> = Got(value: T, size: nat)

  function MaxBody(max: uint32): uint32 {
    if max == 0 then MAX_FRAME_BODY else max
  }

  // ---- Writing ----

  // The fixed header.
  function Header(f: Frame, headerSize: byte, bodySize: uint32): (h: Text)
    ensures |h| == HEADER_SIZE
  {
    LE(FRAME_MAGIC, 2) + [f.version, headerSize] + LE(f.flags, 2) + LE(f.codec, 2) + LE(ToUnsigned(f.packetID), 4)
    + LE(f.msgID, 4) + LE(f.sequence, 8) + LE(bodySize, 4) + LE(f.checksum, 4)
  }

  // The frame as it goes out: version 0 becomes 1, the checksum is recomputed,
  // the metadata is normalised to n.
  function Outgoing(f: Frame, n: Meta, c: Conventions): Frame {
    f.(version := if f.version == 0 then FRAME_VERSION else f.version,
       checksum := if Has(f.flags, Checksum) then c.crc(f.body) else 0,
       metadata := n)
  }

  ghost function FrameBytes(f: Frame, n: Meta, c: Conventions): Result<Text, Error> {
    var out := Outgoing(f, n, c);
    if out.version != FRAME_VERSION then Err(BadVersion)
    else if |f.body| > MAX_FRAME_BODY then Err(BodyTooLarge)
    else match EncodeMeta(n)
      case None => Err(MetadataTooLarge)
      case Some(meta) => Ok(Header(out, HEADER_SIZE + |meta|, |f.body|) + meta + f.body)
  }

  // ---- Reading ----

  function ParseHeader(s: Text, body: Text, metadata: Meta): Frame
    requires |s| >= HEADER_SIZE
  {
    Field(s, 4, 2); Field(s, 6, 2); Field(s, 8, 4); Field(s, 12, 4); Field(s, 16, 8); Field(s, 28, 4);
    Frame(s[2], FromLE(s[4..6]), FromLE(s[6..8]), ToSigned(FromLE(s[8..12])), FromLE(s[12..16]), FromLE(s[16..24]),
          FromLE(s[28..32]), body, metadata)
  }

  lemma Field(s: Text, at: nat, n: nat)
    requires at + n <= |s|
    ensures FromLE(s[at..at + n]) < Pow256(n)
    ensures Pow256(2) == TWO16 && Pow256(4) == TWO32 && Pow256(8) == TWO64
  {
    FromLEBound(s[at..at + n]);
    Pow256Values();
  }

  // ReadFrame on a stream that starts with s.
  function ReadFrameFrom(s: Text, max: uint32, c: Conventions): Result<Got<Frame>, Error> {
    if |s| < HEADER_SIZE then Err(Short)
    else if FromLE(s[0..2]) != FRAME_MAGIC then Err(BadMagic)
    else if s[2] != FRAME_VERSION then Err(BadVersion)
    else
      var headerSize: int := s[3];
      if headerSize < HEADER_SIZE then Err(BadHeader)
      else if |s| < headerSize then Err(Short)
      else match DecodeMeta(s[HEADER_SIZE..headerSize], c.norm)
        case None => Err(BadMetadata)
        case Some(metadata) =>
          var bodySize := FromLE(s[24..28]);
          if bodySize > MaxBody(max) then Err(BodyTooLarge)
          else if |s| < headerSize + bodySize then Err(Short)
          else
            var frame := ParseHeader(s, s[headerSize..headerSize + bodySize], metadata);
            if Has(frame.flags, Checksum) && c.crc(frame.body) != frame.checksum then Err(BadChecksum)
            else Ok(Got(frame, headerSize + bodySize))
  }

  // ---- Round trip ----

  lemma HeaderSlices(f: Frame, headerSize: byte, bodySize: uint32, rest: Text)
    ensures var s := Header(f, headerSize, bodySize) + rest;
            && s[0..2] == LE(FRAME_MAGIC, 2) && s[2] == f.version && s[3] == headerSize
            && s[4..6] == LE(f.flags, 2) && s[6..8] == LE(f.codec, 2)
            && s[8..12] == LE(ToUnsigned(f.packetID), 4) && s[12..16] == LE(f.msgID, 4)
            && s[16..24] == LE(f.sequence, 8) && s[24..28] == LE(bodySize, 4) && s[28..32] == LE(f.checksum, 4)
  {
  }

  lemma HeaderFields(f: Frame, headerSize: byte, bodySize: uint32, rest: Text)
    ensures var s := Header(f, headerSize, bodySize) + rest;
            && FromLE(s[0..2]) == FRAME_MAGIC && s[2] == f.version && s[3] == headerSize
            && FromLE(s[24..28]) == bodySize
            && forall body, metadata :: ParseHeader(s, body, metadata) == f.(body := body, metadata := metadata)
  {
    HeaderSlices(f, headerSize, bodySize, rest);
    Pow256Values();
    FromLEOfLE(FRAME_MAGIC, 2);
    FromLEOfLE(f.flags, 2);
    FromLEOfLE(f.codec, 2);
    FromLEOfLE(ToUnsigned(f.packetID), 4);
    FromLEOfLE(f.msgID, 4);
    FromLEOfLE(f.sequence, 8);
    FromLEOfLE(bodySize, 4);
    FromLEOfLE(f.checksum, 4);
  }

  lemma FrameSlices(h: Text, meta: Text, body: Text, rest: Text)
    requires |h| == HEADER_SIZE
    ensures var s := h + meta + body + rest;
            var m := HEADER_SIZE + |meta|;
            && s == h + (meta + body + rest)
            && s[HEADER_SIZE..m] == meta && s[m..m + |body|] == body && s[m + |body|..] == rest
  {
  }

  // What is written is read back, up to the normalisation of the metadata, the
  // version and the checksum; the reader stops where the frame ends.
  lemma FrameRoundTrip(f: Frame, n: Meta, c: Conventions, rest: Text, max: uint32)
    requires Normalised(n, c.norm) && FrameBytes(f, n, c).Ok? && |f.body| <= MaxBody(max)
    ensures var b := FrameBytes(f, n, c).value;
            && ReadFrameFrom(b + rest, max, c) == Ok(Got(Outgoing(f, n, c), |b|))
            && (b + rest)[|b|..] == rest && |b| >= HEADER_SIZE
  {
    var out := Outgoing(f, n, c);
    var meta := EncodeMeta(n).value;
    MetaRoundTrip(n, c.norm);
    AssembledFrameReads(out, meta, c, rest, max);
  }

  // A header, the encoding of the frame's metadata and its body are read as it.
  lemma AssembledFrameReads(f: Frame, meta: Text, c: Conventions, rest: Text, max: uint32)
    requires HEADER_SIZE + |meta| <= 255 && |f.body| <= MaxBody(max) && f.version == FRAME_VERSION
    requires DecodeMeta(meta, c.norm) == Some(f.metadata)
    requires Has(f.flags, Checksum) ==> f.checksum == c.crc(f.body)
    ensures var b := Header(f, HEADER_SIZE + |meta|, |f.body|) + meta + f.body;
            && ReadFrameFrom(b + rest, max, c) == Ok(Got(f, |b|)) && (b + rest)[|b|..] == rest
  {
    var h := Header(f, HEADER_SIZE + |meta|, |f.body|);
    HeaderFields(f, HEADER_SIZE + |meta|, |f.body|, meta + f.body + rest);
    FrameSlices(h, meta, f.body, rest);
  }

  // ---- The procedures ----

  class Reader {
    // What the other side has sent and this side has not read.
    var rest: Text

    constructor (rest: Text)
      ensures this.rest == rest
    {
      this.rest := rest;
    }

    // io.ReadFull
    method ReadFull(n: nat) returns (data: Option<Text>)
      modifies this
      ensures |old(rest)| < n ==> data == None && rest == []
      ensures |old(rest)| >= n ==> data == Some(old(rest)[..n]) && rest == old(rest)[n..]
    {
      if |rest| < n {
        rest := [];
        return None;
      }
      data := Some(rest[..n]);
      rest := rest[n..];
    }
  }

  // A read that is left out when there is nothing to read.
  method ReadIfAny(r: Reader, n: nat) returns (data: Option<Text>)
    modifies r
    ensures |old(r.rest)| < n ==> data == None
    ensures |old(r.rest)| >= n ==> data == Some(old(r.rest)[..n]) && r.rest == old(r.rest)[n..]
  {
    data := Some([]);
    if n > 0 { data := r.ReadFull(n); }
  }

  // Stores bytes, such as those of binary.LittleEndian.PutUint32, after what is
  // already in place.
  method Put(header: array<byte>, at: nat, bytes: Text)
    requires at + |bytes| <= header.Length
    modifies header
    ensures header[..at + |bytes|] == old(header[..at]) + bytes
  {
    for i := 0 to |bytes|
      invariant header[..at] == old(header[..at]) && header[at..at + i] == bytes[..i]
    {
      header[at + i] := bytes[i];
    }
    assert header[..at + |bytes|] == header[..at] + header[at..at + |bytes|];
  }

  // The fields of the header, each in its place.
  method FillFields(header: array<byte>, magic: Text, version: byte, headerSize: byte, flags: Text, codec: Text,
                    packetID: Text, msgID: Text, sequence: Text, bodySize: Text, checksum: Text)
    requires header.Length == HEADER_SIZE && |magic| == |flags| == |codec| == 2 && |sequence| == 8
    requires |packetID| == |msgID| == |bodySize| == |checksum| == 4
    modifies header
    ensures header[..] ==
            magic + [version, headerSize] + flags + codec + packetID + msgID + sequence + bodySize + checksum
  {
    Put(header, 0, magic);
    header[2] := version;
    header[3] := headerSize;
    assert header[..0] == [] && header[..4] == header[..2] + [version, headerSize];
    Put(header, 4, flags);
    Put(header, 6, codec);
    Put(header, 8, packetID);
    Put(header, 12, msgID);
    Put(header, 16, sequence);
    Put(header, 24, bodySize);
    Put(header, 28, checksum);
    assert header[..] == header[..32];
  }

  method FillHeader(header: array<byte>, f: Frame, headerSize: byte, bodySize: uint32)
    requires header.Length == HEADER_SIZE
    modifies header
    ensures header[..] == Header(f, headerSize, bodySize)
  {
    FillFields(header, LE(FRAME_MAGIC, 2), f.version, headerSize, LE(f.flags, 2), LE(f.codec, 2),
               LE(ToUnsigned(f.packetID), 4), LE(f.msgID, 4), LE(f.sequence, 8), LE(bodySize, 4), LE(f.checksum, 4));
  }

  // What a write leaves behind when its bytes are given by `r`.
  ghost predicate Writes(before: Text, r: Result<Text, Error>, after: Text, res: Result<(), Error>) {
    match r
    case Err(e) => res == Err(e) && after == before
    case Ok(b) => Delivers(before, b, after, res.Ok?) && (res.Err? ==> res == Err(NotDelivered))
  }

  // Whether it was delivered is what the writer reports.
  twostate predicate Told(w: Writer, res: Result<(), Error>)
    reads w
  {
    w.broken == (old(w.broken) || res == Err(NotDelivered)) && (w.reliable ==> res != Err(NotDelivered))
  }

  // WriteFrame; n is the normalised metadata.
  method WriteFrame(w: Writer, frame: Frame, c: Conventions) returns (res: Result<(), Error>, ghost n: Meta)
    requires Idempotent(c.norm)
    modifies w
    ensures Clones(frame.metadata, n, c.norm) && Writes(old(w.delivered), FrameBytes(frame, n, c), w.delivered, res)
    ensures Told(w, res)
  {
    n := Normal(frame.metadata, c.norm);
    var version := if frame.version == 0 then FRAME_VERSION else frame.version;
    if version != FRAME_VERSION { return Err(BadVersion), n; }
    var bodySize := |frame.body|;
    if bodySize > MAX_FRAME_BODY { return Err(BodyTooLarge), n; }
    var meta;
    meta, n := EncodeFrameMeta(frame.metadata, c.norm);
    if meta.None? { return Err(MetadataTooLarge), n; }
    var checksum: uint32 := if Has(frame.flags, Checksum) then c.crc(frame.body) else 0;
    var header := new byte[32];
    FillHeader(header, frame.(version := version, checksum := checksum), HEADER_SIZE + |meta.value|, bodySize);
    var parts := if bodySize == 0 then [header[..], meta.value] else [header[..], meta.value, frame.body];
    ConcatParts(header[..], meta.value, frame.body);
    var ok := WriteFullBuffers(w, parts);
    res := if ok then Ok(()) else Err(NotDelivered);
  }

  lemma ConcatParts(h: Text, meta: Text, body: Text)
    ensures Concat([h, meta, body]) == h + meta + body
    ensures body == [] ==> Concat([h, meta]) == h + meta + body
  {
    assert Concat([body]) == body;
    assert Concat([meta]) == meta;
    assert [h, meta, body][1..] == [meta, body] && [meta, body][1..] == [body] && [h, meta][1..] == [meta];
    assert Concat([meta, body]) == meta + body;
  }

  // ReadFrame: on success exactly the frame is consumed.
  method ReadFrame(r: Reader, max: uint32, c: Conventions) returns (res: Result<Frame, Error>)
    modifies r
    ensures match ReadFrameFrom(old(r.rest), max, c)
            case Err(e) => res == Err(e)
            case Ok(got) => res == Ok(got.value) && got.size <= |old(r.rest)| && r.rest == old(r.rest)[got.size..]
  {
    ghost var s := r.rest;
    var header := r.ReadFull(HEADER_SIZE);
    if header.None? { return Err(Short); }
    var h := header.value;
    HeaderPart(s, h);
    if FromLE(h[0..2]) != FRAME_MAGIC { return Err(BadMagic); }
    if h[2] != FRAME_VERSION { return Err(BadVersion); }
    if h[3] < HEADER_SIZE { return Err(BadHeader); }
    res := ReadFrameRest(r, h, max, c, s);
  }

  // What follows the fixed header h of the stream s.
  method ReadFrameRest(r: Reader, h: Text, max: uint32, c: Conventions, ghost s: Text)
    returns (res: Result<Frame, Error>)
    requires |s| >= HEADER_SIZE && h == s[..HEADER_SIZE] && r.rest == s[HEADER_SIZE..]
    requires FromLE(s[0..2]) == FRAME_MAGIC && s[2] == FRAME_VERSION && s[3] >= HEADER_SIZE
    modifies r
    ensures match ReadFrameFrom(s, max, c)
            case Err(e) => res == Err(e)
            case Ok(got) => res == Ok(got.value) && got.size <= |s| && r.rest == s[got.size..]
  {
    HeaderPart(s, h);
    var headerSize: int := h[3];
    var extra := ReadIfAny(r, headerSize - HEADER_SIZE);
    if extra.None? { return Err(Short); }
    assert extra.value == s[HEADER_SIZE..headerSize] && r.rest == s[headerSize..];
    var metadata := DecodeFrameMeta(extra.value, c.norm);
    if metadata.None? { return Err(BadMetadata); }
    var bodySize := FromLE(h[24..28]);
    if bodySize > MaxBody(max) { return Err(BodyTooLarge); }
    var body := ReadIfAny(r, bodySize);
    if body.None? { return Err(Short); }
    assert body.value == s[headerSize..headerSize + bodySize] && r.rest == s[headerSize + bodySize..];
    HeaderParsed(s, h, body.value, metadata.value);
    res := CheckFrame(ParseHeader(h, body.value, metadata.value), c);
  }

  method CheckFrame(frame: Frame, c: Conventions) returns (res: Result<Frame, Error>)
    ensures res == if Has(frame.flags, Checksum) && c.crc(frame.body) != frame.checksum then Err(BadChecksum)
                   else Ok(frame)
  {
    if Has(frame.flags, Checksum) && c.crc(frame.body) != frame.checksum { return Err(BadChecksum); }
    res := Ok(frame);
  }

  // The fields read from the header are those of the stream.
  lemma HeaderPart(s: Text, h: Text)
    requires |s| >= HEADER_SIZE && h == s[..HEADER_SIZE]
    ensures h[0..2] == s[0..2] && h[2] == s[2] && h[3] == s[3] && h[24..28] == s[24..28]
  {
  }

  lemma HeaderParsed(s: Text, h: Text, body: Text, metadata: Meta)
    requires |s| >= HEADER_SIZE && h == s[..HEADER_SIZE]
    ensures ParseHeader(h, body, metadata) == ParseHeader(s, body, metadata)
  {
    assert h[4..6] == s[4..6] && h[6..8] == s[6..8] && h[8..12] == s[8..12] && h[12..16] == s[12..16];
    assert h[16..24] == s[16..24] && h[28..32] == s[28..32];
  }
}

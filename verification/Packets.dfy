// The legacy packet wire format (protocol/packet.go).
module Packets {
  import opened Bytes
  import opened Frames
  import opened Sequences
  import opened Text
  import opened Wrappers
  import opened Writers

  const PACKET_HEADER := 13
  const MAX_PACKET_BODY: uint32 := 1024 * 1024

  datatype Packet = Packet(packetID: int32, msgID: uint32, compressed: bool, body: Text)

  function MaxPacket(max: uint32): uint32 {
    if max == 0 then MAX_PACKET_BODY else max
  }

  function FlagByte(compressed: bool): byte {
    if compressed then 1 else 0
  }

  function PacketBytes(p: Packet): Result<Text, Error> {
    if |p.body| > MAX_PACKET_BODY then Err(BodyTooLarge)
    else Ok(LE(|p.body|, 4) + LE(ToUnsigned(p.packetID), 4) + LE(p.msgID, 4) + [FlagByte(p.compressed)] + p.body)
  }

  // ReadPacket on a stream that starts with s.
  function ReadPacketFrom(s: Text, max: uint32): Result<Got<Packet>, Error> {
    if |s| < PACKET_HEADER then Err(Short)
    else
      var bodySize := FromLE(s[0..4]);
      if bodySize > MaxPacket(max) then Err(BodyTooLarge)
      else if |s| < PACKET_HEADER + bodySize then Err(Short)
      else if s[12] > 1 then Err(BadFlag)
      else
        Field(s, 4, 4); Field(s, 8, 4);
        Ok(Got(Packet(ToSigned(FromLE(s[4..8])), FromLE(s[8..12]), s[12] == 1,
                      s[PACKET_HEADER..PACKET_HEADER + bodySize]),
               PACKET_HEADER + bodySize))
  }

  lemma PacketSlices(p: Packet, rest: Text)
    requires PacketBytes(p).Ok?
    ensures var b := PacketBytes(p).value;
            var s := b + rest;
            && |b| == PACKET_HEADER + |p.body|
            && s[0..4] == LE(|p.body|, 4) && s[4..8] == LE(ToUnsigned(p.packetID), 4) && s[8..12] == LE(p.msgID, 4)
            && s[12] == FlagByte(p.compressed) && s[PACKET_HEADER..PACKET_HEADER + |p.body|] == p.body
            && s[|b|..] == rest
  {
  }

  // What is written is read back.
  lemma PacketRoundTrip(p: Packet, rest: Text, max: uint32)
    requires PacketBytes(p).Ok? && |p.body| <= MaxPacket(max)
    ensures var b := PacketBytes(p).value;
            ReadPacketFrom(b + rest, max) == Ok(Got(p, |b|)) && (b + rest)[|b|..] == rest && |b| >= PACKET_HEADER
  {
    PacketSlices(p, rest);
    Pow256Values();
    FromLEOfLE(|p.body|, 4);
    FromLEOfLE(ToUnsigned(p.packetID), 4);
    FromLEOfLE(p.msgID, 4);
  }

  method FillPacketFields(header: array<byte>, bodySize: Text, packetID: Text, msgID: Text, flag: byte)
    requires header.Length == PACKET_HEADER && |bodySize| == |packetID| == |msgID| == 4
    modifies header
    ensures header[..] == bodySize + packetID + msgID + [flag]
  {
    Put(header, 0, bodySize);
    Put(header, 4, packetID);
    Put(header, 8, msgID);
    header[12] := flag;
    assert header[..] == header[..12] + [header[12]];
    assert header[..0] == [];
  }

  method FillPacketHeader(header: array<byte>, p: Packet)
    requires header.Length == PACKET_HEADER && |p.body| <= MAX_PACKET_BODY
    modifies header
    ensures header[..] == LE(|p.body|, 4) + LE(ToUnsigned(p.packetID), 4) + LE(p.msgID, 4) + [FlagByte(p.compressed)]
  {
    FillPacketFields(header, LE(|p.body|, 4), LE(ToUnsigned(p.packetID), 4), LE(p.msgID, 4),
                     if p.compressed then 1 else 0);
  }

  // WritePacket
  method WritePacket(w: Writer, p: Packet) returns (res: Result<(), Error>)
    modifies w
    ensures Writes(old(w.delivered), PacketBytes(p), w.delivered, res) && Told(w, res)
  {
    if |p.body| > MAX_PACKET_BODY { return Err(BodyTooLarge); }
    var header := new byte[13];
    FillPacketHeader(header, p);
    var h: Text := header[..];
    assert Concat([p.body]) == p.body && [h, p.body][1..] == [p.body];
    assert Concat([h, p.body]) == h + p.body;
    assert PacketBytes(p) == Ok(h + p.body);
    var ok;
    if |p.body| == 0 { ok := WriteFull(w, h); } else { ok := WriteFullBuffers(w, [h, p.body]); }
    res := if ok then Ok(()) else Err(NotDelivered);
  }

  method DecodeCompressedFlag(flag: byte) returns (r: Result<bool, Error>)
    ensures r == if flag > 1 then Err(BadFlag) else Ok(flag == 1)
  {
    match flag
    case 0 => r := Ok(false);
    case 1 => r := Ok(true);
    case _ => r := Err(BadFlag);
  }

  // ReadPacket: on success exactly the packet is consumed.
  method ReadPacket(r: Reader, max: uint32) returns (res: Result<Packet, Error>)
    modifies r
    ensures match ReadPacketFrom(old(r.rest), max)
            case Err(e) => res == Err(e)
            case Ok(got) => res == Ok(got.value) && got.size <= |old(r.rest)| && r.rest == old(r.rest)[got.size..]
  {
    ghost var s := r.rest;
    var header := r.ReadFull(PACKET_HEADER);
    if header.None? { return Err(Short); }
    var h := header.value;
    assert h[0..4] == s[0..4] && h[4..8] == s[4..8] && h[8..12] == s[8..12] && h[12] == s[12];
    var bodySize := FromLE(h[0..4]);
    if bodySize > MaxPacket(max) { return Err(BodyTooLarge); }
    var body := ReadIfAny(r, bodySize);
    if body.None? { return Err(Short); }
    assert body.value == s[PACKET_HEADER..PACKET_HEADER + bodySize] && r.rest == s[PACKET_HEADER + bodySize..];
    var compressed := DecodeCompressedFlag(h[12]);
    if compressed.Err? { return Err(compressed.error); }
    Field(h, 4, 4);
    Field(h, 8, 4);
    res := Ok(Packet(ToSigned(FromLE(h[4..8])), FromLE(h[8..12]), compressed.value, body.value));
  }
}

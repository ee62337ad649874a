// Encryption of frames and replay protection end to end
// (protocol/frame_crypto.go).  The cipher is a parameter with the law of
// section 7 of NIST SP 800-38D: what was sealed opens with the same key, nonce
// and associated data.
module FrameCrypto {
  import opened Bytes
  import opened Frames
  import opened Metadata
  import opened MetadataCodec
  import opened Packets
  import opened ReplayGuard
  import opened ReplayOracle
  import opened Text
  import opened Wire
  import opened Wrappers

  const KEY_SIZE := 32
  const OVERHEAD := 16

  // seal and open take the key, the nonce, the text and the associated data.
  datatype Cipher = Cipher(seal: (Text, Text, Text, Text) -> Text, open: (Text, Text, Text, Text) -> Option<Text>)

  ghost predicate Opens(ci: Cipher) {
    forall key, nonce, plain, aad ::
      var sealed := ci.seal(key, nonce, plain, aad);
      |sealed| == |plain| + OVERHEAD && ci.open(key, nonce, sealed, aad) == Some(plain)
  }

  datatype CryptoError = BadKey | BadPayload | NonceReplay | GuardFull | NoRandom | FrameError(error: Error)

  // ---- Associated data ----

  function AadHeader(f: Frame): (h: Text)
    ensures |h| == 21
  {
    [f.version] + BE(Clear(f.flags, Encrypted), 2) + BE(f.codec, 2) + BE(ToUnsigned(f.packetID), 4) + BE(f.msgID, 4)
    + BE(f.sequence, 8)
  }

  // frameAAD, for the normalised metadata n.
  ghost function Aad(f: Frame, n: Meta): Option<Text> {
    match EncodeMeta(n)
    case None => None
    case Some(meta) => Some(AadHeader(f) + meta)
  }

  lemma AadSlices(f: Frame, meta: Text)
    ensures var a := AadHeader(f) + meta;
            && a[0] == f.version && a[1..3] == BE(Clear(f.flags, Encrypted), 2) && a[3..5] == BE(f.codec, 2)
            && a[5..9] == BE(ToUnsigned(f.packetID), 4) && a[9..13] == BE(f.msgID, 4) && a[13..21] == BE(f.sequence, 8)
            && a[21..] == meta
  {
  }

  lemma SameBE(x: nat, y: nat, n: nat)
    requires x < Pow256(n) && y < Pow256(n) && BE(x, n) == BE(y, n)
    ensures x == y
  {
    FromBEOfBE(x, n);
    FromBEOfBE(y, n);
  }

  // Frames with the same associated data agree on everything it authenticates.
  lemma AadInjective(f: Frame, m: Meta, g: Frame, n: Meta, norm: Norm)
    requires Normalised(m, norm) && Normalised(n, norm) && Aad(f, m).Some? && Aad(f, m) == Aad(g, n)
    ensures f.version == g.version && Clear(f.flags, Encrypted) == Clear(g.flags, Encrypted) && f.codec == g.codec
    ensures f.packetID == g.packetID && f.msgID == g.msgID && f.sequence == g.sequence
    ensures m == n
  {
    AadSlices(f, EncodeMeta(m).value);
    AadSlices(g, EncodeMeta(n).value);
    Pow256Values();
    SameBE(Clear(f.flags, Encrypted), Clear(g.flags, Encrypted), 2);
    SameBE(f.codec, g.codec, 2);
    SameBE(ToUnsigned(f.packetID), ToUnsigned(g.packetID), 4);
    SameBE(f.msgID, g.msgID, 4);
    SameBE(f.sequence, g.sequence, 8);
    EncodeMetaInjective(m, n, norm);
  }

  // ---- Encryption ----

  // EncryptFrame.  n is the metadata as normalised for the associated data;
  // `random` is the four random bytes, if they could be read.
  ghost function Encrypt(f: Frame, n: Meta, key: Text, random: Option<Text>, ci: Cipher): Result<Frame, CryptoError> {
    var g := if f.version == 0 then f.(version := FRAME_VERSION) else f;
    if g.version != FRAME_VERSION then Err(FrameError(BadVersion))
    else if |key| != KEY_SIZE then Err(BadKey)
    else if random.None? || |random.value| != 4 then Err(NoRandom)
    else match Aad(g, n)
      case None => Err(FrameError(MetadataTooLarge))
      case Some(aad) =>
        var nonce := BE(g.sequence, 8) + random.value;
        Ok(g.(flags := Set(g.flags, Encrypted), body := nonce + ci.seal(key, nonce, g.body, aad), checksum := 0))
  }

  // The nonce and the sealed part of an encrypted body.
  predicate HasNonce(f: Frame) {
    |f.body| >= NONCE_SIZE + OVERHEAD
  }

  // DecryptFrame without a replay guard.
  ghost function Decrypt(f: Frame, n: Meta, key: Text, ci: Cipher): Result<Frame, CryptoError> {
    if !Has(f.flags, Encrypted) then Ok(f)
    else if |key| != KEY_SIZE then Err(BadKey)
    else if !HasNonce(f) then Err(BadPayload)
    else match Aad(f, n)
      case None => Err(FrameError(MetadataTooLarge))
      case Some(aad) =>
        match ci.open(key, f.body[..NONCE_SIZE], f.body[NONCE_SIZE..], aad)
        case None => Err(BadPayload)
        case Some(plain) => Ok(f.(flags := Clear(f.flags, Encrypted), body := plain, checksum := 0))
  }

  // What the receiver ends up with.
  function Plain(f: Frame, n: Meta): Frame {
    f.(version := if f.version == 0 then FRAME_VERSION else f.version,
       flags := Clear(f.flags, Encrypted), checksum := 0, metadata := n)
  }

  lemma EncryptedParts(f: Frame, n: Meta, key: Text, random: Option<Text>, ci: Cipher)
    requires Opens(ci) && Encrypt(f, n, key, random, ci).Ok?
    ensures var e := Encrypt(f, n, key, random, ci).value;
            && |e.body| == |f.body| + NONCE_SIZE + OVERHEAD && e.metadata == f.metadata && e.version == FRAME_VERSION
            && Has(e.flags, Encrypted) && EncodeMeta(n).Some?
            && e.body[..NONCE_SIZE] == BE(f.sequence, 8) + random.value
  {
    FlagLaws(f.flags, Encrypted);
  }

  // The associated data the receiver computes is the sender's.
  lemma SameAad(f: Frame, g: Frame, n: Meta)
    requires f.version == g.version && f.codec == g.codec && f.packetID == g.packetID && f.msgID == g.msgID
    requires f.sequence == g.sequence && Clear(f.flags, Encrypted) == Clear(g.flags, Encrypted)
    ensures Aad(f, n) == Aad(g, n)
  {
  }

  lemma DecryptsEncrypted(f: Frame, n: Meta, key: Text, random: Option<Text>, ci: Cipher, checksum: uint32)
    requires Opens(ci) && Encrypt(f, n, key, random, ci).Ok?
    ensures var e := Encrypt(f, n, key, random, ci).value;
            Decrypt(e.(checksum := checksum, metadata := n), n, key, ci) == Ok(Plain(f, n))
  {
    var g := if f.version == 0 then f.(version := FRAME_VERSION) else f;
    var e := Encrypt(f, n, key, random, ci).value;
    var r := e.(checksum := checksum, metadata := n);
    EncryptedParts(f, n, key, random, ci);
    ClearSet(f.flags, Encrypted);
    SameAad(r, g, n);
    var nonce := BE(g.sequence, 8) + random.value;
    assert r.body[..NONCE_SIZE] == nonce;
    assert r.body[NONCE_SIZE..] == ci.seal(key, nonce, g.body, Aad(g, n).value);
  }

  // The round trip when both sides normalise the metadata to the same map.
  lemma AgreedRoundTrip(f: Frame, n: Meta, key: Text, random: Option<Text>, ci: Cipher, c: Conventions,
                        rest: Text, max: uint32)
    requires Opens(ci) && Normalised(n, c.norm) && Encrypt(f, n, key, random, ci).Ok?
    ensures var e := Encrypt(f, n, key, random, ci).value;
            FrameBytes(e, n, c).Ok? <==> |f.body| + NONCE_SIZE + OVERHEAD <= MAX_FRAME_BODY
    ensures var e := Encrypt(f, n, key, random, ci).value;
            FrameBytes(e, n, c).Ok? && |e.body| <= MaxBody(max) ==>
              var r := ReadFrameFrom(FrameBytes(e, n, c).value + rest, max, c);
              && r.Ok? && r.value.value.metadata == n
              && Decrypt(r.value.value, n, key, ci) == Ok(Plain(f, n))
  {
    var e := Encrypt(f, n, key, random, ci).value;
    EncryptedParts(f, n, key, random, ci);
    if FrameBytes(e, n, c).Ok? && |e.body| <= MaxBody(max) {
      FrameRoundTrip(e, n, c, rest, max);
      DecryptsEncrypted(f, n, key, random, ci, Outgoing(e, n, c).checksum);
    }
  }

  // Main result: a frame of unambiguous metadata that is encrypted under one
  // clone of them, written with another, read, and decrypted under a third of
  // what was read comes back with its version set, its checksum zeroed, its
  // encryption flag cleared and its metadata normalised, whenever the sealed body
  // fits; and it can be written exactly when it fits.
  lemma EncryptedRoundTrip(f: Frame, sealing: Meta, writing: Meta, opening: Meta, key: Text, random: Option<Text>,
                           ci: Cipher, c: Conventions, rest: Text, max: uint32)
    requires Opens(ci) && Idempotent(c.norm) && Unambiguous(f.metadata, c.norm)
    requires Clones(f.metadata, sealing, c.norm) && Encrypt(f, sealing, key, random, ci).Ok?
    requires Clones(Encrypt(f, sealing, key, random, ci).value.metadata, writing, c.norm)
    ensures var e := Encrypt(f, sealing, key, random, ci).value;
            FrameBytes(e, writing, c).Ok? <==> |f.body| + NONCE_SIZE + OVERHEAD <= MAX_FRAME_BODY
    ensures var e := Encrypt(f, sealing, key, random, ci).value;
            FrameBytes(e, writing, c).Ok? && |e.body| <= MaxBody(max) ==>
              var r := ReadFrameFrom(FrameBytes(e, writing, c).value + rest, max, c);
              r.Ok? && (Clones(r.value.value.metadata, opening, c.norm) ==>
                        Decrypt(r.value.value, opening, key, ci) == Ok(Plain(f, sealing)))
  {
    EncryptedParts(f, sealing, key, random, ci);
    CloneDetermined(f.metadata, c.norm, sealing, writing);
    ClonesAreNormalised(f.metadata, sealing, c.norm);
    AgreedRoundTrip(f, sealing, key, random, ci, c, rest, max);
    if Clones(sealing, opening, c.norm) { NormalisedClonesToItself(sealing, opening, c.norm); }
  }

  // The condition is exact: the associated data of a frame are those of every
  // clone of its metadata if and only if the metadata are unambiguous.
  lemma AadAgreesIff(f: Frame, a: Meta, norm: Norm)
    requires Idempotent(norm) && Clones(f.metadata, a, norm) && Aad(f, a).Some?
    ensures (forall b :: Clones(f.metadata, b, norm) ==> Aad(f, b) == Aad(f, a)) <==> Unambiguous(f.metadata, norm)
  {
    ClonesAreNormalised(f.metadata, a, norm);
    if Unambiguous(f.metadata, norm) {
      forall b | Clones(f.metadata, b, norm) ensures b == a {
        CloneDetermined(f.metadata, norm, a, b);
      }
    } else {
      var x, y := CloneUndetermined(f.metadata, norm);
      var b := if x == a then y else x;
      ClonesAreNormalised(f.metadata, b, norm);
      if Aad(f, b) == Aad(f, a) { AadInjective(f, a, f, b, norm); }
    }
  }

  // The catch: encrypting and writing each clone the metadata. If they are
  // ambiguous the clones may differ, and then so do the associated data.
  lemma AmbiguousMetadataBreaksAad(f: Frame, norm: Norm) returns (a: Meta, b: Meta)
    requires Idempotent(norm) && !Unambiguous(f.metadata, norm)
    ensures Clones(f.metadata, a, norm) && Clones(f.metadata, b, norm)
    ensures Aad(f, a).Some? ==> Aad(f, a) != Aad(f, b)
  {
    a, b := CloneUndetermined(f.metadata, norm);
    ClonesAreNormalised(f.metadata, a, norm);
    ClonesAreNormalised(f.metadata, b, norm);
    if Aad(f, a).Some? && Aad(f, a) == Aad(f, b) { AadInjective(f, a, f, b, norm); }
  }

  // ---- Replay ----

  // DecryptFrame with a guard, in the oracle's terms.
  ghost function Guarded(o: Oracle, f: Frame, n: Meta, key: Text, ci: Cipher): (Oracle, Result<Frame, CryptoError>) {
    var r := Decrypt(f, n, key, ci);
    if r.Err? || !Has(f.flags, Encrypted) then (o, r)
    else
      var (next, v) := Present(o, f.body[..NONCE_SIZE]);
      match v
      case Accepted => (next, r)
      case Full => (next, Err(GuardFull))
      case _ => (next, Err(if v == Replay then NonceReplay else BadPayload))
  }

  // The part of DecryptFrame that opens the body.
  method OpenBody(f: Frame, key: Text, ci: Cipher, norm: Norm) returns (res: Result<Frame, CryptoError>, ghost n: Meta)
    requires Idempotent(norm)
    ensures Clones(f.metadata, n, norm) && res == Decrypt(f, n, key, ci)
  {
    n := Normal(f.metadata, norm);
    if !Has(f.flags, Encrypted) { return Ok(f), n; }
    if |key| != KEY_SIZE { return Err(BadKey), n; }
    if |f.body| < NONCE_SIZE + OVERHEAD { return Err(BadPayload), n; }
    var meta;
    meta, n := EncodeFrameMeta(f.metadata, norm);
    if meta.None? { return Err(FrameError(MetadataTooLarge)), n; }
    var plain := ci.open(key, f.body[..NONCE_SIZE], f.body[NONCE_SIZE..], AadHeader(f) + meta.value);
    if plain.None? { return Err(BadPayload), n; }
    res := Ok(f.(flags := Clear(f.flags, Encrypted), body := plain.value, checksum := 0));
  }

  // DecryptFrame: the nonce is presented to the guard once the body has opened.
  method DecryptFrame(guard: FrameReplayGuard, f: Frame, key: Text, ci: Cipher, norm: Norm)
    returns (res: Result<Frame, CryptoError>, ghost n: Meta)
    requires guard.Valid() && Idempotent(norm)
    modifies guard, guard.slots
    ensures guard.Valid() && Clones(f.metadata, n, norm)
    ensures (guard.Abstract(), res) == Guarded(old(guard.Abstract()), f, n, key, ci)
  {
    res, n := OpenBody(f, key, ci, norm);
    if res.Err? || !Has(f.flags, Encrypted) { return; }
    var v := guard.Seen(f.body[..NONCE_SIZE]);
    match v
    case Accepted =>
    case Full => res := Err(GuardFull);
    case Replay => res := Err(NonceReplay);
    case Malformed => res := Err(BadPayload);
  }

  // The guard after receiving a history of frames.
  ghost function GuardAfter(window: nat, fs: seq<Frame>, ns: seq<Meta>, key: Text, ci: Cipher): Oracle
    requires |fs| == |ns|
  {
    if fs == [] then Start(window)
    else
      var last := |fs| - 1;
      Guarded(GuardAfter(window, fs[..last], ns[..last], key, ci), fs[last], ns[last], key, ci).0
  }

  ghost function ResultAt(window: nat, fs: seq<Frame>, ns: seq<Meta>, key: Text, ci: Cipher, j: nat)
    : Result<Frame, CryptoError>
    requires |fs| == |ns| && j < |fs|
  {
    Guarded(GuardAfter(window, fs[..j], ns[..j], key, ci), fs[j], ns[j], key, ci).1
  }

  lemma GuardedKeeps(o: Oracle, f: Frame, n: Meta, key: Text, ci: Cipher)
    ensures o.accepted <= Guarded(o, f, n, key, ci).0.accepted
  {
  }

  // The nonce of an accepted encrypted frame is recorded, ...
  lemma GuardedRecords(o: Oracle, f: Frame, n: Meta, key: Text, ci: Cipher)
    requires Has(f.flags, Encrypted) && HasNonce(f) && Guarded(o, f, n, key, ci).1.Ok?
    ensures KeyOf(f.body[..NONCE_SIZE]) in Guarded(o, f, n, key, ci).0.accepted
  {
  }

  // ... and one recorded is not accepted again.
  lemma GuardedRefuses(o: Oracle, f: Frame, n: Meta, key: Text, ci: Cipher)
    requires Has(f.flags, Encrypted) && HasNonce(f) && KeyOf(f.body[..NONCE_SIZE]) in o.accepted
    ensures Guarded(o, f, n, key, ci).1.Err?
  {
  }

  lemma {:induction false} AcceptedStays(window: nat, fs: seq<Frame>, ns: seq<Meta>, key: Text, ci: Cipher, j: nat)
    requires |fs| == |ns| && j <= |fs|
    ensures GuardAfter(window, fs[..j], ns[..j], key, ci).accepted <= GuardAfter(window, fs, ns, key, ci).accepted
    decreases |fs|
  {
    if j < |fs| {
      var last := |fs| - 1;
      assert fs[..last][..j] == fs[..j] && ns[..last][..j] == ns[..j];
      AcceptedStays(window, fs[..last], ns[..last], key, ci, j);
      GuardedKeeps(GuardAfter(window, fs[..last], ns[..last], key, ci), fs[last], ns[last], key, ci);
    } else {
      assert fs[..j] == fs && ns[..j] == ns;
    }
  }

  // Main result: over any history of frames received in one session, no two
  // encrypted frames with the same nonce are both accepted.
  lemma NoReplay(window: nat, fs: seq<Frame>, ns: seq<Meta>, key: Text, ci: Cipher, i: nat, j: nat)
    requires |fs| == |ns| && i < j < |fs|
    requires Has(fs[i].flags, Encrypted) && Has(fs[j].flags, Encrypted)
    requires HasNonce(fs[i]) && HasNonce(fs[j]) && fs[i].body[..NONCE_SIZE] == fs[j].body[..NONCE_SIZE]
    requires ResultAt(window, fs, ns, key, ci, i).Ok?
    ensures ResultAt(window, fs, ns, key, ci, j).Err?
  {
    var nonce := fs[i].body[..NONCE_SIZE];
    var before := GuardAfter(window, fs[..i], ns[..i], key, ci);
    GuardedRecords(before, fs[i], ns[i], key, ci);
    RecordedAfter(window, fs, ns, key, ci, i, KeyOf(nonce));
    RecordedBefore(window, fs, ns, key, ci, i + 1, j, KeyOf(nonce));
    GuardedRefuses(GuardAfter(window, fs[..j], ns[..j], key, ci), fs[j], ns[j], key, ci);
  }

  lemma RecordedAfter(window: nat, fs: seq<Frame>, ns: seq<Meta>, key: Text, ci: Cipher, i: nat, nonce: Nonce)
    requires |fs| == |ns| && i < |fs|
    requires nonce in Guarded(GuardAfter(window, fs[..i], ns[..i], key, ci), fs[i], ns[i], key, ci).0.accepted
    ensures nonce in GuardAfter(window, fs[..i + 1], ns[..i + 1], key, ci).accepted
  {
    assert fs[..i + 1][..i] == fs[..i] && ns[..i + 1][..i] == ns[..i];
  }

  lemma RecordedBefore(window: nat, fs: seq<Frame>, ns: seq<Meta>, key: Text, ci: Cipher, i: nat, j: nat, nonce: Nonce)
    requires |fs| == |ns| && i <= j <= |fs| && nonce in GuardAfter(window, fs[..i], ns[..i], key, ci).accepted
    ensures nonce in GuardAfter(window, fs[..j], ns[..j], key, ci).accepted
  {
    assert fs[..j][..i] == fs[..i] && ns[..j][..i] == ns[..i];
    AcceptedStays(window, fs[..j], ns[..j], key, ci, i);
  }

  // ---- Envelopes ----

  // The frame EncryptEnvelope builds, with the cloned metadata.
  function FrameToEncrypt(e: Envelope, n: Meta): Frame {
    Frame(e.frame.version, if e.packet.compressed then Set(e.frame.flags, Compressed) else e.frame.flags, e.frame.codec,
          e.packet.packetID, e.packet.msgID, e.frame.sequence, 0, e.packet.body, n)
  }

  function FrameEnvelope(f: Frame): Envelope {
    Envelope(FRAME_NAME, PacketFromFrame(f), f)
  }

  ghost function EncryptEnvelope(e: Envelope, n: Meta, key: Text, random: Option<Text>, ci: Cipher, c: Conventions)
    : Result<Envelope, CryptoError>
  {
    if c.format(e.format) != FrameFormat then Err(FrameError(BadFormat))
    else match Encrypt(FrameToEncrypt(e, n), n, key, random, ci)
      case Err(x) => Err(x)
      case Ok(f) => Ok(FrameEnvelope(f))
  }

  ghost function DecryptEnvelope(e: Envelope, n: Meta, key: Text, ci: Cipher, c: Conventions)
    : Result<Envelope, CryptoError>
  {
    match c.format(e.format)
    case PacketFormat => Ok(e)
    case UnknownFormat => Err(FrameError(BadFormat))
    case FrameFormat =>
      if !Has(e.frame.flags, Encrypted) then Ok(e)
      else match Decrypt(e.frame, n, key, ci)
        case Err(x) => Err(x)
        case Ok(f) => Ok(FrameEnvelope(f))
  }

  // WriteEnvelope leaves alone the flags of an envelope made from a frame.
  lemma FrameOfFrameEnvelope(f: Frame, n: Meta)
    ensures FrameOf(FrameEnvelope(f), n) == f.(checksum := 0, metadata := n)
  {
    ClearSet(f.flags, Compressed);
    FlagLaws(f.flags, Compressed);
  }

  lemma EncryptedEnvelope(e: Envelope, n: Meta, key: Text, random: Option<Text>, ci: Cipher, c: Conventions,
                          rest: Text, max: uint32)
    requires Lawful(c) && Opens(ci) && Normalised(n, c.norm) && EncryptEnvelope(e, n, key, random, ci, c).Ok?
    requires var x := EncryptEnvelope(e, n, key, random, ci, c).value; Sendable(x, n, c, max)
    ensures var x := EncryptEnvelope(e, n, key, random, ci, c).value;
            var r := ReadEnvelopeFrom(EnvelopeBytes(x, n, c).value + rest, max, c);
            r.Ok? && DecryptEnvelope(r.value.value, n, key, ci, c) == Ok(FrameEnvelope(Plain(FrameToEncrypt(e, n), n)))
  {
    var f := FrameToEncrypt(e, n);
    var enc := Encrypt(f, n, key, random, ci).value;
    var x := FrameEnvelope(enc);
    EncryptedParts(f, n, key, random, ci);
    FrameOfFrameEnvelope(enc, n);
    EnvelopeRoundTrip(x, n, c, rest, max);
    var got := Outgoing(FrameOf(x, n), n, c);
    DecryptsEncrypted(f, n, key, random, ci, got.checksum);
    assert got == enc.(checksum := got.checksum, metadata := n);
  }

  lemma PlainPacket(e: Envelope, n: Meta)
    ensures var y := FrameEnvelope(Plain(FrameToEncrypt(e, n), n)).packet;
            && y.packetID == e.packet.packetID && y.msgID == e.packet.msgID && y.body == e.packet.body
            && y.compressed == (e.packet.compressed || Has(e.frame.flags, Compressed))
  {
    FlagLaws(e.frame.flags, Compressed);
    FlagLaws(FrameToEncrypt(e, n).flags, Encrypted);
  }

  // The packet comes back exactly unless the frame's own compression flag was
  // set beside an uncompressed packet: EncryptEnvelope, unlike WriteEnvelope,
  // does not clear it.
  lemma EncryptedPacketIff(e: Envelope, n: Meta, key: Text, random: Option<Text>, ci: Cipher, c: Conventions,
                           rest: Text, max: uint32)
    requires Lawful(c) && Opens(ci) && Normalised(n, c.norm) && EncryptEnvelope(e, n, key, random, ci, c).Ok?
    requires var x := EncryptEnvelope(e, n, key, random, ci, c).value; Sendable(x, n, c, max)
    ensures var x := EncryptEnvelope(e, n, key, random, ci, c).value;
            var r := ReadEnvelopeFrom(EnvelopeBytes(x, n, c).value + rest, max, c);
            && r.Ok? && DecryptEnvelope(r.value.value, n, key, ci, c).Ok?
            && (DecryptEnvelope(r.value.value, n, key, ci, c).value.packet == e.packet <==>
                (Has(e.frame.flags, Compressed) ==> e.packet.compressed))
  {
    EncryptedEnvelope(e, n, key, random, ci, c, rest, max);
    PlainPacket(e, n);
  }

  lemma ComesBackCompressed(e: Envelope, n: Meta, key: Text, random: Option<Text>, ci: Cipher, c: Conventions,
                            rest: Text, max: uint32)
    requires Lawful(c) && Opens(ci) && Normalised(n, c.norm) && EncryptEnvelope(e, n, key, random, ci, c).Ok?
    requires var x := EncryptEnvelope(e, n, key, random, ci, c).value; Sendable(x, n, c, max)
    requires Has(e.frame.flags, Compressed)
    ensures var x := EncryptEnvelope(e, n, key, random, ci, c).value;
            var r := ReadEnvelopeFrom(EnvelopeBytes(x, n, c).value + rest, max, c);
            && r.Ok? && DecryptEnvelope(r.value.value, n, key, ci, c).Ok?
            && DecryptEnvelope(r.value.value, n, key, ci, c).value.packet == e.packet.(compressed := true)
  {
    EncryptedEnvelope(e, n, key, random, ci, c, rest, max);
    PlainPacket(e, n);
  }

  // An empty packet that is not compressed, beside a frame with that flag.
  function FlaggedEnvelope(): Envelope {
    Envelope(FRAME_NAME, Packet(0, 0, false, []), NO_FRAME.(flags := 1))
  }

  lemma FlaggedSendable(key: Text, random: Text, ci: Cipher, c: Conventions)
    requires Lawful(c) && Opens(ci) && |key| == KEY_SIZE && |random| == 4
    ensures var x := EncryptEnvelope(FlaggedEnvelope(), map[], key, Some(random), ci, c);
            x.Ok? && Sendable(x.value, map[], c, 0)
  {
    var f := FrameToEncrypt(FlaggedEnvelope(), map[]);
    EncryptedParts(f, map[], key, Some(random), ci);
    FrameOfFrameEnvelope(Encrypt(f, map[], key, Some(random), ci).value, map[]);
  }

  // Encrypted under any key with any cipher, sent and received, it comes back
  // compressed.
  lemma FlaggedComesBackCompressed(key: Text, random: Text, ci: Cipher, c: Conventions, rest: Text)
    requires Lawful(c) && Opens(ci) && |key| == KEY_SIZE && |random| == 4
    ensures var x := EncryptEnvelope(FlaggedEnvelope(), map[], key, Some(random), ci, c);
            && x.Ok? && EnvelopeBytes(x.value, map[], c).Ok?
            && var r := ReadEnvelopeFrom(EnvelopeBytes(x.value, map[], c).value + rest, 0, c);
               && r.Ok? && var y := DecryptEnvelope(r.value.value, map[], key, ci, c);
                           y.Ok? && y.value.packet == FlaggedEnvelope().packet.(compressed := true)
  {
    FlaggedSendable(key, random, ci, c);
    ComesBackCompressed(FlaggedEnvelope(), map[], key, Some(random), ci, c, rest, 0);
  }
}

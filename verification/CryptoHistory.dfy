// What is decrypted, and over whole histories what is accepted, in terms of the
// cipher and of the nonces presented before (protocol/frame_crypto.go).
module CryptoHistory {
  import opened Bytes
  import opened FrameCrypto
  import opened Frames
  import opened Metadata
  import opened MetadataCodec
  import opened ReplayOracle
  import opened Text
  import opened Wire
  import opened Wrappers

  // ---- One frame ----

  predicate IsEncrypted(f: Frame) {
    f.flags / 2 % 2 == 1
  }

  // The cipher opens the body to this text, under the key, its first twelve
  // bytes as the nonce, and the received header and metadata.
  ghost predicate OpensTo(f: Frame, n: Meta, key: Text, ci: Cipher, plain: Text) {
    && |key| == 32 && |f.body| >= 28 && EncodeMeta(n).Some?
    && ci.open(key, f.body[..12], f.body[12..], AadHeader(f) + EncodeMeta(n).value) == Some(plain)
  }

  ghost predicate OpensAtAll(f: Frame, n: Meta, key: Text, ci: Cipher) {
    exists plain :: OpensTo(f, n, key, ci, plain)
  }

  // What is handed out for it.
  function Opened(f: Frame, plain: Text): Frame
    requires IsEncrypted(f)
  {
    Frame(f.version, f.flags - 2, f.codec, f.packetID, f.msgID, f.sequence, 0, plain, f.metadata)
  }

  // An encrypted frame is decrypted exactly if its body opens, and to that text.
  lemma DecryptIff(f: Frame, n: Meta, key: Text, ci: Cipher, g: Frame)
    requires IsEncrypted(f)
    ensures Decrypt(f, n, key, ci) == Ok(g) <==> exists plain :: OpensTo(f, n, key, ci, plain) && g == Opened(f, plain)
    ensures Decrypt(f, n, key, ci).Ok? <==> OpensAtAll(f, n, key, ci)
  {
    if Decrypt(f, n, key, ci).Ok? {
      var plain := Decrypt(f, n, key, ci).value.body;
      assert OpensTo(f, n, key, ci, plain) && Decrypt(f, n, key, ci).value == Opened(f, plain);
    }
  }

  // What is said of the others, in the order it is looked for.
  lemma DecryptRefusals(f: Frame, n: Meta, key: Text, ci: Cipher)
    requires IsEncrypted(f) && !OpensAtAll(f, n, key, ci)
    ensures Decrypt(f, n, key, ci) ==
            if |key| != 32 then Err(BadKey)
            else if |f.body| >= 28 && EncodeMeta(n).None? then Err(FrameError(MetadataTooLarge))
            else Err(BadPayload)
  {
    if |key| == 32 && |f.body| >= 28 && EncodeMeta(n).Some? {
      var r := ci.open(key, f.body[..12], f.body[12..], AadHeader(f) + EncodeMeta(n).value);
      if r.Some? { assert OpensTo(f, n, key, ci, r.value); }
    }
  }

  // What is sent for a frame: the nonce is its sequence and the random part.
  lemma EncryptIff(f: Frame, n: Meta, key: Text, random: Option<Text>, ci: Cipher, e: Frame)
    ensures Encrypt(f, n, key, random, ci) == Ok(e) <==>
              && f.version <= 1 && |key| == 32 && random.Some? && |random.value| == 4 && EncodeMeta(n).Some?
              && e.version == 1 && e.codec == f.codec && e.packetID == f.packetID && e.msgID == f.msgID
              && e.sequence == f.sequence && e.checksum == 0 && e.metadata == f.metadata
              && e.flags == (if IsEncrypted(f) then f.flags else f.flags + 2)
              && var nonce := BE(f.sequence, 8) + random.value;
                 e.body == nonce + ci.seal(key, nonce, f.body, AadHeader(f.(version := 1)) + EncodeMeta(n).value)
  {
  }

  // ---- Histories ----

  // The nonces that come to the guard: those of the encrypted frames that open.
  ghost function Presented(fs: seq<Frame>, ns: seq<Meta>, key: Text, ci: Cipher): seq<Text>
    requires |fs| == |ns|
  {
    if fs == [] then []
    else
      var last := |fs| - 1;
      var before := Presented(fs[..last], ns[..last], key, ci);
      if IsEncrypted(fs[last]) && OpensAtAll(fs[last], ns[last], key, ci) then before + [fs[last].body[..12]]
      else before
  }

  // A frame that is not encrypted, or does not open, leaves the guard alone.
  lemma UnopenedChangesNothing(o: Oracle, f: Frame, n: Meta, key: Text, ci: Cipher)
    requires !IsEncrypted(f) || !OpensAtAll(f, n, key, ci)
    ensures Guarded(o, f, n, key, ci).0 == o
    ensures if IsEncrypted(f) then Guarded(o, f, n, key, ci).1.Err? else Guarded(o, f, n, key, ci).1 == Ok(f)
  {
    if IsEncrypted(f) { DecryptRefusals(f, n, key, ci); }
  }

  lemma OpenedIsPresented(o: Oracle, f: Frame, n: Meta, key: Text, ci: Cipher)
    requires IsEncrypted(f) && OpensAtAll(f, n, key, ci)
    ensures Guarded(o, f, n, key, ci).0 == Present(o, f.body[..12]).0
    ensures Guarded(o, f, n, key, ci).1 ==
            match Present(o, f.body[..12]).1
            case Accepted => Decrypt(f, n, key, ci)
            case Full => Err(GuardFull)
            case Replay => Err(NonceReplay)
            case Malformed => Err(BadPayload)
  {
    DecryptIff(f, n, key, ci, f);
  }

  lemma AfterOneMore(window: nat, calls: seq<Text>, nonce: Text)
    ensures After(window, calls + [nonce]) == Present(After(window, calls), nonce).0
    ensures VerdictAt(window, calls + [nonce], |calls|) == Present(After(window, calls), nonce).1
  {
    assert (calls + [nonce])[..|calls|] == calls;
  }

  // The guard has seen just these nonces.
  lemma {:induction false} GuardSawPresented(window: nat, fs: seq<Frame>, ns: seq<Meta>, key: Text, ci: Cipher)
    requires |fs| == |ns|
    ensures GuardAfter(window, fs, ns, key, ci) == After(window, Presented(fs, ns, key, ci))
    decreases |fs|
  {
    if fs != [] {
      var last := |fs| - 1;
      var f, n, before := fs[last], ns[last], Presented(fs[..last], ns[..last], key, ci);
      GuardSawPresented(window, fs[..last], ns[..last], key, ci);
      if IsEncrypted(f) && OpensAtAll(f, n, key, ci) {
        OpenedIsPresented(After(window, before), f, n, key, ci);
        AfterOneMore(window, before, f.body[..12]);
      } else {
        UnopenedChangesNothing(After(window, before), f, n, key, ci);
      }
    }
  }

  // The greatest sequence presented, this nonce included.
  function Mark(calls: seq<Text>, nonce: Text): nat {
    match HighestOf(calls + [nonce])
    case None => 0
    case Some(h) => h
  }

  // The nonce is in the window below that mark, it was not accepted before, and
  // fewer than the window are live.
  ghost predicate Admissible(window: nat, calls: seq<Text>, nonce: Text, live: set<Nonce>)
    requires |nonce| == NONCE_SIZE
  {
    && InWindow(KeyOf(nonce), Mark(calls, nonce), window)
    && !AcceptedBefore(window, calls + [nonce], |calls|, KeyOf(nonce)) && |live| < window
  }

  ghost predicate IsLive(window: nat, calls: seq<Text>, nonce: Text, live: set<Nonce>) {
    forall n :: n in live <==>
      AcceptedBefore(window, calls + [nonce], |calls|, n) && InWindow(n, Mark(calls, nonce), window)
  }

  lemma AdmittedIff(window: nat, calls: seq<Text>, nonce: Text, live: set<Nonce>)
    requires window > 0 && |nonce| == NONCE_SIZE && IsLive(window, calls, nonce, live)
    ensures Present(After(window, calls), nonce).1 == Accepted <==> Admissible(window, calls, nonce, live)
  {
    var all := calls + [nonce];
    assert all[..|calls| + 1] == all;
    HighestOfIsHighest(all, |calls|);
    AfterOneMore(window, calls, nonce);
    AcceptedIff(window, all, |calls|, live);
  }

  // Main result: over any history, what an encrypted frame is accepted as, and
  // exactly when: its body opens, and its nonce is admissible among those of the
  // frames that opened before.
  lemma AcceptedFrameIff(window: nat, fs: seq<Frame>, ns: seq<Meta>, key: Text, ci: Cipher, j: nat, g: Frame,
                         live: set<Nonce>)
    requires window > 0 && |fs| == |ns| && j < |fs| && IsEncrypted(fs[j])
    requires |fs[j].body| >= 12 ==> IsLive(window, Presented(fs[..j], ns[..j], key, ci), fs[j].body[..12], live)
    ensures ResultAt(window, fs, ns, key, ci, j) == Ok(g) <==>
              && (exists plain :: OpensTo(fs[j], ns[j], key, ci, plain) && g == Opened(fs[j], plain))
              && Admissible(window, Presented(fs[..j], ns[..j], key, ci), fs[j].body[..12], live)
  {
    var calls := Presented(fs[..j], ns[..j], key, ci);
    GuardSawPresented(window, fs[..j], ns[..j], key, ci);
    DecryptIff(fs[j], ns[j], key, ci, g);
    if OpensAtAll(fs[j], ns[j], key, ci) {
      AdmittedIff(window, calls, fs[j].body[..12], live);
      OpenedIsPresented(After(window, calls), fs[j], ns[j], key, ci);
    } else {
      UnopenedChangesNothing(After(window, calls), fs[j], ns[j], key, ci);
    }
  }

  // One that is not encrypted comes out as it went in.
  lemma PlainFrameIsAccepted(window: nat, fs: seq<Frame>, ns: seq<Meta>, key: Text, ci: Cipher, j: nat)
    requires |fs| == |ns| && j < |fs| && !IsEncrypted(fs[j])
    ensures ResultAt(window, fs, ns, key, ci, j) == Ok(fs[j])
  {
  }

  // What EncryptEnvelope seals: the packet's ids and body, and the rest of the
  // frame, with the compression flag set if either has it.
  lemma SealedFields(e: Envelope, n: Meta)
    ensures var f := FrameToEncrypt(e, n);
            && f.version == e.frame.version && f.codec == e.frame.codec && f.sequence == e.frame.sequence
            && f.packetID == e.packet.packetID && f.msgID == e.packet.msgID && f.body == e.packet.body
            && f.flags / 2 == e.frame.flags / 2
            && (f.flags % 2 == 1 <==> e.packet.compressed || e.frame.flags % 2 == 1)
            && f.metadata == n && f.checksum == 0
  {
  }

  // An envelope is encrypted exactly if it is one of the frame format and its
  // frame is; what comes out is that frame and the packet made of it.
  lemma EnvelopeEncryptsIff(e: Envelope, n: Meta, key: Text, random: Option<Text>, ci: Cipher, c: Conventions,
                            x: Envelope)
    ensures EncryptEnvelope(e, n, key, random, ci, c) == Ok(x) <==>
              && c.format(e.format) == FrameFormat && Encrypt(FrameToEncrypt(e, n), n, key, random, ci) == Ok(x.frame)
              && x.format == FRAME_NAME && x.packet == PacketFromFrame(x.frame)
  {
  }

  // An envelope of packets, or whose frame is not encrypted, comes out as it is;
  // another as its decrypted frame and the packet made of it; no other does.
  lemma EnvelopeDecryptsIff(e: Envelope, n: Meta, key: Text, ci: Cipher, c: Conventions, x: Envelope)
    ensures DecryptEnvelope(e, n, key, ci, c) == Ok(x) <==>
              if c.format(e.format) == PacketFormat || (c.format(e.format) == FrameFormat && !IsEncrypted(e.frame))
              then x == e
              else c.format(e.format) == FrameFormat && Decrypt(e.frame, n, key, ci) == Ok(x.frame)
                   && x.format == FRAME_NAME && x.packet == PacketFromFrame(x.frame)
  {
  }
}

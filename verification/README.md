# Verified models of the server's and the client patch's core algorithms

This project models, in Dafny, five parts of the repository whose correctness
rests on an invariant over a loop, a run or a disk state, and proves what they
promise. `dafny verify dfyconfig.toml` checks everything.

- **Binary installation** (`InstallModel`, `JournalGrammar`, `InstallProofs`,
  `InstallAtomicity`, `InstallRecovery`, `InstallOutcome`, `InstallCrashes`,
  `InstallProgram`, `InstallFailures`). The launcher swaps a set of binaries by
  journal, renames and a recovery that runs on every start. The disk is a map
  from case-folded names to files; a `Run` lists the disk after each remove,
  rename or journal change, so a crash is a prefix of a run. `InstallRecovery`
  says what a recovery does on every disk, refusals included. `InstallProgram`
  is the program itself, over a file system any of whose operations may fail;
  each method is proved to follow its run as far as it gets.
- **Replay guard** (`ReplayOracle`, `ReplayGuard`). The guard's ring of
  per-sequence slots, set and counter refine an oracle that remembers every
  accepted nonce for ever.
- **Gateway wire format** (`Metadata`, `SortedTexts`, `MetadataCodec`,
  `MetadataGrammar`, `Writers`, `Frames`, `Packets`, `Wire`, `WireGrammar`,
  `FrameCrypto`, `CryptoHistory`). Metadata, frames, legacy packets, telling the
  two apart on one stream, partial writes, and the agreement of both sides on the
  associated data of an encrypted frame; exactly which streams are accepted and
  as what, and exactly which encrypted frames over a whole history.
- **Client patch** (`StartMapBody`, `DungeonLifecycle`, `DungeonRooms`,
  `EventQueue`, `WireShapes`, `KeyedRows`, `BitMask`, `EquipmentSnapshot`, `RankIcons`,
  `Blend`). Two bounded parsers, proved to accept exactly their grammars; the
  dungeon lifecycle, proved over every packet sequence; the event ring; the
  alpha blend and the tool that prepares its icons.
- **Script streams and topics** (`TokenStream`, `JoustEntry`, `TownPlacement`,
  `RawSection`, `CommodityIds`, `PackageRows`, `ShopGift`, `Topics`,
  `TopicGrammar`). In-place edits and splices of five-byte token streams against the checks that re-read
  them, and printing and parsing scoped topics.

`Wrappers`, `Text`, `Bytes`, `Sequences` and `Arithmetic` hold what the others
share. Loops, buffers and objects that the source changes in place are methods,
arrays and classes here, each proved against a function on values; the
properties are lemmas about those functions.

## What the proofs found

- A destination that is a dangling link counts as missing when the installation
  is planned, and as a foreign file when it is recovered. Undisturbed, such a set
  installs; cut off right after its journal, every later recovery is refused. So
  an acceptable set survives every crash if and only if no destination is a
  dangling link (`CrashAtomicIff`, and `FailureAtomicIff` for the program on a
  file system whose operations fail); `DanglingDisk` is such a disk.
- A set that passes the checks before the journal but is not acceptable is
  renamed all the same and leaves a journal that every recovery refuses; no other
  set leaves one (`StrandsIff`). Either the journal does not resolve (more than
  sixteen entries, two of the 3n names equal, an unsafe name), as where two
  targets are built into one file, which ends neither all new nor all old
  (`SharedTemporaryStrands`); or it does, and a destination is a link to a
  regular file (`LinkStrands`).
- Metadata with two keys that normalise to the same key and different values has
  no determined clone (`CloneUndetermined`; `AmbiguousAscii` is the smallest
  case). Encrypting and writing clone it separately, and their clones agree on
  the associated data if and only if no such keys exist (`AadAgreesIff`).
- `EncryptEnvelope` adds the packet's compression flag to the frame's flags,
  where `WriteEnvelope` replaces it: an uncompressed packet beside a frame with
  that flag comes back compressed. `EncryptedPacketIff` says exactly when, and
  `FlaggedComesBackCompressed` gives one, for every cipher.
- An op28 received inside an active dungeon discards it. The first accepted town
  packet after a published enter publishes the leave that answers it if and only
  if no op28 with a dungeon came between, at any distance (`EnterIsLeftIff`);
  `SampleLosesLeave` is a run of five packets whose enter is never left.
- The capacity check of the equipment parser refuses nothing that the slot
  checks let through (`CarriedRowsFit`).
- The check that follows a rollback never refuses: a rollback that went through
  has restored every destination (`RollbackVerifies`).
- An op29 between the first one and the enter is not taken over: until the next
  one inside the dungeon, room changes and leaves name the room of the first
  (`RoomChangedIff`, `LeavesIff`).
- `findRawSection` compares the token index, not the byte offset, with the
  length. A missing marker is reported as such only in a stream of at most six
  bytes; otherwise the search indexes past the end. `FindIff` gives all four
  outcomes exactly.
- The allocator of commodity ids may hand out ids of 2^31 and more, which the
  encoded row holds as negative integers; the check of the output then fails,
  and only then (`SpliceVerified`). The run succeeds exactly if above the
  greatest published id there are as many unused ids below 2^31 as there are
  items (`AddPackages`).
- A second run of the town placement succeeds exactly when the coordinates
  written fit the token, or wrap to the old place (`EnsureTwice`).
- A service topic whose name starts with `gid` or `sid` is misread
  (`ServiceRoundTripIff`).

## Model

| member | source | states |
|---|---|---|
| InstallProofs.RecoverySafe | go-server/cmd/server/control/binary_install.go:115-230 | on any disk and for any resolvable journal, every step of a recovery removes a file with a journaled digest or moves a backup to a free name, touches no other file, drops the journal only as the last step of success, and each original that was at its destination or backup still is, unless all destinations held and hold their candidates |
| InstallProofs.RecoveryStepKeeps | go-server/cmd/server/control/binary_install.go:128-230 | the part of that about one step: what is outside the names stays, the journal goes only at the end of success |
| InstallProofs.RollbackSafe | go-server/cmd/server/control/binary_install.go:159-215 | every step of the rollback loop deletes a recognised file or restores a backup to a free name |
| InstallProofs.CommitSafe | go-server/cmd/server/control/binary_install.go:140-155 | the same for the commit loop |
| InstallProofs.ScanMeaning | go-server/cmd/server/control/binary_install.go:128-138 | the scan answers all-candidates exactly when every destination holds its candidate |
| InstallRecovery.RecoverIff | go-server/cmd/server/control/binary_install.go:115-230 | on every disk a recovery succeeds exactly if nothing is pending, or the journal is readable and resolves and every destination, temporary and backup is missing or a regular file of a digest journaled for it, so that all can be committed where all candidates are in place and all restored otherwise; then the journal is gone, and else it stays |
| InstallRecovery.RecoveredIsSettled | go-server/cmd/server/control/binary_install.go:128-230 | after a successful recovery there is no temporary and no backup, and every destination holds its candidate if all did before, and otherwise its original or nothing |
| InstallRecovery.RecoverSetIff | go-server/cmd/server/control/binary_install.go:128-230 | what a refused recovery leaves: the entries before the one it is refused at done, that one as far as it came, the others untouched |
| InstallRecovery.ForeignIsKept | go-server/cmd/server/control/binary_install.go:296-311 | a file of another digest, or no regular file, under the name of a backup or a temporary makes every recovery refuse; it and the journal stay |
| InstallRecovery.ScanBlockedIff | go-server/cmd/server/control/binary_install.go:128-138 | the scan refuses exactly when it meets something that is no regular file before a destination without its candidate |
| InstallRecovery.RollbackVerifies | go-server/cmd/server/control/binary_install.go:216-228 | the check after a rollback that went through never refuses |
| JournalGrammar.ResolvesIff | go-server/cmd/server/control/binary_install.go:232-276 | a journal resolves exactly if it has schema 1, one to sixteen entries of plain names and 64-digit hexadecimal digests, an original exactly where one is said to be, and no name twice, case aside |
| JournalGrammar.BackupIs | go-server/cmd/server/control/binary_install.go:58-63 | a backup is named after its destination, the process and the number of the target |
| InstallAtomicity.CrashAtomic | go-server/cmd/server/control/binary_install.go:91-230 | from a journal whose entries are untouched and whose destinations are regular files or absent: the renames cut off anywhere, any number of recoveries cut off anywhere, then one complete recovery, which succeeds, leaves no journal, temporary or backup, and all candidates or all originals, as decided at the first crash |
| InstallAtomicity.CrashesTouchNoOther | go-server/cmd/server/control/binary_install.go:91-230 | through all of that no file outside the journaled names changes |
| InstallAtomicity.RollbackStaysUndoing | go-server/cmd/server/control/binary_install.go:159-215 | every state of a rollback is one that can still be rolled back; it holds all candidates only if each of them equals its original, so that finishing forwards restores the originals too |
| InstallAtomicity.RollbackCompletes | go-server/cmd/server/control/binary_install.go:159-228 | from every interrupted state the rollback loop finishes and every entry is restored, with no temporary or backup |
| InstallAtomicity.CommitCompletes | go-server/cmd/server/control/binary_install.go:139-157 | the commit loop finishes from every committable state and leaves only the candidates |
| InstallCrashes.InstallTracked | go-server/cmd/server/control/binary_install.go:22-230 | every state of an undisturbed installation of an acceptable set without dangling destinations is one that recovery finishes, forwards exactly if all candidates are in place there |
| InstallCrashes.CrashAtomicIff | go-server/cmd/server/control/binary_install.go:22-230 | an acceptable set installed with nothing pending, cut off anywhere from its journal on, then any recoveries cut off anywhere: one complete recovery always ends all new or all old with nothing left over, if and only if no destination is a dangling link |
| InstallCrashes.DanglingStrands | go-server/cmd/server/control/binary_install.go:115-138 | cut off right after its journal, a set with a dangling destination is refused by every recovery from then on, however often recovery is run and cut off |
| InstallCrashes.DanglingDisk | go-server/cmd/server/control/binary_install.go:64-138 | a disk and a target that install when undisturbed and are refused when cut off after the journal |
| InstallOutcome.InstallSucceedsIff | go-server/cmd/server/control/binary_install.go:22-113 | undisturbed and with nothing pending, an installation succeeds exactly on an acceptable set, and then the candidates are in place and nothing else is left |
| InstallOutcome.PlansIff | go-server/cmd/server/control/binary_install.go:31-86 | the checks before the journal pass exactly if every target is inside runtime/bin, its built file is a file or a link to one, its destination is free, a file or a link, its backup name is free, and no two replace the same file |
| InstallCrashes.InstallIff | go-server/cmd/server/control/binary_install.go:22-113 | on every disk an installation succeeds exactly if what is pending is recovered and the set is acceptable on the disk that leaves; if recovery fails nothing more is done |
| InstallCrashes.StrandsIff | go-server/cmd/server/control/binary_install.go:22-230 | with nothing pending, an installation ends with a journal exactly when its set passes the checks before the journal and is not acceptable; it then fails and recovery is refused without changing anything |
| InstallCrashes.LinkStrands | go-server/cmd/server/control/binary_install.go:64-105 | a set that passes the checks with a destination that is a link to a regular file is stranded, although its journal resolves |
| InstallCrashes.CommitRefusedAgain | go-server/cmd/server/control/binary_install.go:139-157 | a refused commit, run again on what it left, is refused at once and removes nothing more |
| InstallOutcome.SharedTemporaryStrands | go-server/cmd/server/control/binary_install.go:36-113 | a concrete set, two targets built into one temporary file, that ends neither all new nor all old |
| InstallProgram.FileSystem.Remove | go-server/cmd/server/control/binary_install.go:307-309 | removes the name or, failing, changes nothing; a reliable system fails only on a missing name |
| InstallProgram.FileSystem.Rename | go-server/cmd/server/control/binary_install.go:96-104 | moves the file over what is there or, failing, changes nothing |
| InstallProgram.FileSystem.RegularFileDigest | go-server/cmd/server/control/binary_install.go:278-294 | missing, the digest of a regular file, or an error for anything else |
| InstallProgram.FileSystem.Inspect | go-server/cmd/server/control/binary_install.go:54-75 | what is found through links, or an error of an unreliable system |
| InstallProgram.RemoveKnownBinaryArtifact | go-server/cmd/server/control/binary_install.go:296-311 | follows the run that removes a file only if allowed and of the expected digest |
| InstallProgram.ScanDestinations | go-server/cmd/server/control/binary_install.go:128-138 | the scan's answer, or an error of an unreliable system |
| InstallProgram.CommitAll | go-server/cmd/server/control/binary_install.go:139-156 | follows the commit run as far as it gets |
| InstallProgram.RestoreOne | go-server/cmd/server/control/binary_install.go:160-207 | follows one entry's restoration, branch by branch |
| InstallProgram.RollbackAll | go-server/cmd/server/control/binary_install.go:159-215 | follows the rollback run as far as it gets |
| InstallProgram.VerifyRollback | go-server/cmd/server/control/binary_install.go:216-228 | true only if every original is back and every new binary gone; exactly then on a reliable system |
| InstallProgram.ResolveState | go-server/cmd/server/control/binary_install.go:232-276 | resolves exactly a journal of the right schema, one to sixteen well-formed entries and 3n distinct names |
| InstallProgram.RecoverBuiltBinarySet | go-server/cmd/server/control/binary_install.go:115-230 | follows the recovery run as far as it gets, all of it when nothing fails |
| InstallProgram.RenameAll | go-server/cmd/server/control/binary_install.go:91-105 | follows the renames up to the first failure |
| InstallProgram.PlanInstallation | go-server/cmd/server/control/binary_install.go:31-86 | the journal entries, or a refusal, without touching the disk; where a stat or a hash fails it refuses, and what it returns is always the plan |
| InstallProgram.Transact | go-server/cmd/server/control/binary_install.go:91-113 | renames, then recovery in either case; success needs both |
| InstallProgram.InstallChecked | go-server/cmd/server/control/binary_install.go:31-113 | either the journal is not written and the disk is untouched, or the rest follows the transaction |
| InstallProgram.InstallBuiltBinarySet | go-server/cmd/server/control/binary_install.go:22-113 | a pending installation is recovered first and nothing is installed if that fails |
| InstallProgram.InstallsReliably | go-server/cmd/server/control/binary_install.go:22-113 | with nothing failing, the program's log is the run the proofs are about |
| InstallFailures.FailureAtomicIff | go-server/cmd/server/control/binary_install.go:22-230 | whichever operations of an installation of an acceptable set fail, and wherever it and later recoveries stop, one complete recovery ends all new or all old with nothing left over, if and only if no destination is a dangling link |
| InstallFailures.SuccessIsComplete | go-server/cmd/server/control/binary_install.go:87-113 | an installation of an acceptable set that reports success, on any file system, has put all candidates in place and left nothing else |
| ReplayOracle.KeyInjective | go-server/pkg/protocol/frame_crypto.go:215-220 | sequence and nonce together identify the bytes presented |
| ReplayOracle.NeverAcceptedTwice | go-server/pkg/protocol/frame_crypto.go:211-254 | over any sequence of calls a nonce accepted once is a replay ever after |
| ReplayOracle.AcceptedIff | go-server/pkg/protocol/frame_crypto.go:211-254 | a call is accepted exactly when its sequence is in the window of the highest presented, the nonce is fresh, and fewer than the maximum are live |
| ReplayOracle.OutForever | go-server/pkg/protocol/frame_crypto.go:226-228 | a nonce outside the window is refused for ever |
| ReplayOracle.StateAccepted | go-server/pkg/protocol/frame_crypto.go:250-253 | the oracle's set is exactly the nonces accepted before |
| ReplayOracle.StateHighest | go-server/pkg/protocol/frame_crypto.go:229-234 | its mark is the greatest sequence of all nonces ever presented: one of them has it, none has a greater one |
| ReplayGuard.FrameReplayGuard.constructor | go-server/pkg/protocol/frame_crypto.go:199-208 | a fresh guard stands for the empty oracle with that window |
| ReplayGuard.FrameReplayGuard.Seen | go-server/pkg/protocol/frame_crypto.go:211-254 | the answer and the new state are those of the oracle |
| ReplayGuard.FrameReplayGuard.EnsureReady | go-server/pkg/protocol/frame_crypto.go:256-270 | initialises an unused guard and changes nothing of another |
| ReplayGuard.FrameReplayGuard.Advance | go-server/pkg/protocol/frame_crypto.go:272-287 | raises the mark and keeps the ring invariant |
| ReplayGuard.FrameReplayGuard.ClearExpired | go-server/pkg/protocol/frame_crypto.go:277-286 | clears exactly the slots the new window leaves behind |
| ReplayGuard.FrameReplayGuard.ClearSlot | go-server/pkg/protocol/frame_crypto.go:297-309 | removes a slot's nonces from set and counter; the clamp is never reached |
| ReplayGuard.FrameReplayGuard.Record | go-server/pkg/protocol/frame_crypto.go:242-253 | stores a nonce in its slot, which never holds another sequence |
| ReplayGuard.FrameReplayGuard.Admit | go-server/pkg/protocol/frame_crypto.go:235-254 | replay, full or accepted, as the accepted set and the live nonces say |
| ReplayGuard.NoCollision | go-server/pkg/protocol/frame_crypto.go:242-245 | an active slot of another sequence at that index is impossible |
| ReplayGuard.ExpiringSlot | go-server/pkg/protocol/frame_crypto.go:281-286 | the slot of the step-th sequence ahead is that of the sequence leaving the window |
| ReplayGuard.NoOverflow | go-server/pkg/protocol/frame_crypto.go:281-284 | the sequence sum in the clearing loop stays below 2^64 |
| ReplayGuard.ClearedExpires | go-server/pkg/protocol/frame_crypto.go:281-309 | clearing that slot removes exactly the nonces that expire with this step |
| ReplayGuard.AdvanceKeepsRing | go-server/pkg/protocol/frame_crypto.go:272-287 | after it the set is exactly the accepted nonces within the new window |
| ReplayGuard.RecordKeepsRing | go-server/pkg/protocol/frame_crypto.go:242-253 | storing an accepted nonce keeps slots, set and counter in agreement |
| Metadata.CloneFrameMetadata | go-server/pkg/protocol/frame.go:242-259 | some clone the iteration order allows: every normalised entry's key, with the value of one such entry |
| Metadata.ClonesAreNormalised | go-server/pkg/protocol/frame.go:242-259 | a clone is normalised |
| Metadata.NormalisedClonesToItself | go-server/pkg/protocol/frame.go:242-259 | a normalised map has one clone, itself |
| Metadata.CloneDetermined | go-server/pkg/protocol/frame.go:247-254 | if no two entries disagree on a normalised key the clone does not depend on the order |
| Metadata.CloneUndetermined | go-server/pkg/protocol/frame.go:247-254 | otherwise it does: two different clones exist |
| Metadata.AmbiguousAscii | go-server/pkg/protocol/frame.go:247-254 | the keys A and a with different values are such metadata |
| Metadata.AsciiIdempotent | go-server/pkg/protocol/frame.go:247-252 | trimming and lower-casing (ASCII) is idempotent on entries |
| Metadata.AsciiOf | go-server/pkg/protocol/frame.go:247-252 | white space around keys and values is dropped and keys are folded; an entry of which nothing is left is dropped |
| MetadataCodec.EncodeFrameMeta | go-server/pkg/protocol/frame.go:261-289 | the encoding of a clone, a function of its sorted keys alone |
| MetadataCodec.DecodeFrameMeta | go-server/pkg/protocol/frame.go:291-327 | what the decoder returns or that it refuses, read with the moving position |
| MetadataCodec.MetaRoundTrip | go-server/pkg/protocol/frame.go:261-327 | decoding the encoding of a normalised map gives it back |
| MetadataCodec.EncodeMetaInjective | go-server/pkg/protocol/frame.go:261-289 | different normalised maps have different encodings |
| MetadataCodec.EncodesIff | go-server/pkg/protocol/frame.go:261-289 | a non-empty filled map is encoded exactly when 36 plus two and the lengths for each entry is at most 255; the other limits never decide |
| MetadataCodec.DecodedIsNormalised | go-server/pkg/protocol/frame.go:291-327 | whatever is decoded is normalised |
| MetadataGrammar.DecodesIff | go-server/pkg/protocol/frame.go:291-327 | the bytes accepted are none, or "MD", version 1, a count and that many entries of one to 255 bytes that are not blank, with nothing behind them |
| MetadataGrammar.MeaningIff | go-server/pkg/protocol/frame.go:303-323 | a key has the value that the last entry of that normalised key gives it |
| SortedTexts.SortedUnique | go-server/pkg/protocol/frame.go:266-270 | a set of keys has one sorted listing, so the output is independent of map order |
| SortedTexts.SortWorks | go-server/pkg/protocol/frame.go:266-270 | sorting lists the same keys in order |
| SortedTexts.LessIff | go-server/pkg/protocol/frame.go:266-270 | the order is the lexicographic one of bytes |
| Writers.WriteFull | go-server/pkg/protocol/packet.go:98-110 | terminates; on success all bytes were delivered, on failure a prefix; it fails exactly when a write fails or makes no progress |
| Writers.WriteFullParts | go-server/pkg/protocol/packet.go:142-152 | the same for the parts one after the other |
| Writers.WriteBufRemainder | go-server/pkg/protocol/packet.go:154-172 | resumes after the bytes already taken, possibly inside a part, and delivers the rest |
| Writers.WriteFullBuffers | go-server/pkg/protocol/packet.go:112-140 | on success exactly the concatenation of the parts, each byte once and in order; on failure a prefix |
| Frames.FlagLaws | go-server/pkg/protocol/frame.go:167-209 | setting and clearing one flag of a 16-bit word changes that flag and no other |
| Frames.WriteFrame | go-server/pkg/protocol/frame.go:167-209 | delivers the frame's bytes for a clone of its metadata, or the error the bytes have |
| Frames.ReadFrame | go-server/pkg/protocol/frame.go:109-164 | reads the frame at the front of the stream and leaves the rest, or returns the first check that fails |
| Frames.FrameRoundTrip | go-server/pkg/protocol/frame.go:109-209 | a written frame is read back with its metadata normalised, its version set and its checksum recomputed, and the stream is left where it ends |
| WireGrammar.FrameReadIff | go-server/pkg/protocol/frame.go:109-164 | a frame is read exactly where one stands: the magic, version 1, a header and body size, metadata that decode, a body within the limit, and a checksum that fits it where its flag is set |
| WireGrammar.BadChecksumIff | go-server/pkg/protocol/frame.go:160-162 | a checksum is complained of exactly where a frame stands whose body it does not fit |
| WireGrammar.CutFrameIsShort | go-server/pkg/protocol/frame.go:109-146 | a stream that breaks off inside a frame is short |
| WireGrammar.HeaderRefusals | go-server/pkg/protocol/frame.go:119-141 | a wrong version, a header size below 32, metadata that do not decode and a body over the limit are named as such, in that order |
| WireGrammar.BadMagicIff | go-server/pkg/protocol/frame.go:115-117 | a wrong magic is complained of exactly when there is one |
| WireGrammar.FrameWrittenIff | go-server/pkg/protocol/frame.go:167-209 | a frame is written exactly if its version is 0 or 1 and its body and metadata fit; then what is written is that frame with version 1 and its checksum computed if its flag is set and zero otherwise |
| Bytes.ByteOrder | go-server/pkg/protocol/frame.go:189-199 | numbers on the wire are least significant byte first, in nonces and associated data last |
| Packets.PacketRoundTrip | go-server/pkg/protocol/packet.go:29-78 | a written packet within the limit is read back and the stream is left where it ends |
| WireGrammar.PacketReadIff | go-server/pkg/protocol/packet.go:29-58 | a packet is read exactly where one stands: a size within the limit, the ids, a flag of zero or one and the body |
| WireGrammar.PacketRefusals | go-server/pkg/protocol/packet.go:36-54 | a body over the limit, one that breaks off and a wrong flag are named as such, in that order |
| WireGrammar.PacketWrittenIff | go-server/pkg/protocol/packet.go:61-78 | a packet is written exactly if its body fits, and as itself |
| Packets.WritePacket | go-server/pkg/protocol/packet.go:61-78 | delivers the packet's bytes |
| Packets.ReadPacket | go-server/pkg/protocol/packet.go:29-58 | reads the packet at the front of the stream, or returns the first check that fails |
| Packets.DecodeCompressedFlag | go-server/pkg/protocol/packet.go:87-96 | zero and one are flags, anything else an error |
| Wire.PacketIsNotFrame | go-server/pkg/protocol/wire.go:28-58 | the length prefix of a legal packet is never taken for a frame header |
| Wire.FrameIsFrame | go-server/pkg/protocol/wire.go:28-58 | a written frame is always recognised |
| Wire.EnvelopeRoundTrip | go-server/pkg/protocol/wire.go:28-91 | an envelope that can be sent is read back as received, in either format |
| WireGrammar.EnvelopeReadIff | go-server/pkg/protocol/wire.go:28-58 | the magic, version 1 and a header size of at least 32 in the first four bytes decide that a frame is read, and otherwise a packet; and exactly what is returned |
| WireGrammar.FrameOfFields | go-server/pkg/protocol/wire.go:73-88 | a written frame takes ids, body and compression from the packet and everything else from the frame |
| WireGrammar.AsciiFormatOf | go-server/pkg/protocol/wire.go:94-105 | the names of the formats, white space and case aside; no name means the packet format |
| Wire.StreamRoundTrip | go-server/pkg/protocol/wire.go:28-91 | any mixture of packets and frames written back to back is read back one for one, and what follows is left |
| Wire.RelayIsTransparent | go-server/pkg/protocol/wire.go:61-91 | sending on a received envelope sends the same bytes |
| Wire.AsciiLawful | go-server/pkg/protocol/wire.go:94-105 | the names the reader gives its formats are recognised by the writer |
| Wire.WriteEnvelope | go-server/pkg/protocol/wire.go:61-91 | delivers the envelope's bytes for a clone of its metadata; the second cloning changes nothing |
| Wire.ReadEnvelope | go-server/pkg/protocol/wire.go:28-58 | reads the envelope at the front of the stream and leaves the rest |
| FrameCrypto.AadInjective | go-server/pkg/protocol/frame_crypto.go:322-341 | equal associated data mean equal version, flags but for encryption, codec, ids, sequence and metadata |
| FrameCrypto.EncryptedRoundTrip | go-server/pkg/protocol/frame_crypto.go:43-123 | encrypted under one clone of unambiguous metadata, written with another, read and decrypted under a third, a frame comes back with its metadata normalised, whenever the sealed body fits, and it can be written exactly then |
| FrameCrypto.AadAgreesIff | go-server/pkg/protocol/frame_crypto.go:322-341 | all clones of the metadata give the same associated data if and only if the metadata are unambiguous |
| FrameCrypto.AmbiguousMetadataBreaksAad | go-server/pkg/protocol/frame_crypto.go:322-341 | ambiguous metadata have clones with different associated data |
| FrameCrypto.NoReplay | go-server/pkg/protocol/frame_crypto.go:84-114 | over any history no two encrypted frames with one nonce are both accepted |
| CryptoHistory.AcceptedFrameIff | go-server/pkg/protocol/frame_crypto.go:84-114 | over any history an encrypted frame is accepted exactly if the cipher opens its body under a 32-byte key, its nonce and its associated data, and its nonce is in the window, fresh and within the capacity among those of the frames that opened before; and as that text |
| CryptoHistory.DecryptIff | go-server/pkg/protocol/frame_crypto.go:84-114 | the same without a guard; the header stays but for the encryption flag and the checksum |
| CryptoHistory.DecryptRefusals | go-server/pkg/protocol/frame_crypto.go:88-103 | a wrong key, a short body, metadata that do not fit and a body that does not open are named as such |
| CryptoHistory.UnopenedChangesNothing | go-server/pkg/protocol/frame_crypto.go:84-103 | a frame that is not encrypted or does not open leaves the guard as it was |
| CryptoHistory.GuardSawPresented | go-server/pkg/protocol/frame_crypto.go:84-110 | after any history the guard has seen just the nonces of the encrypted frames that opened |
| CryptoHistory.PlainFrameIsAccepted | go-server/pkg/protocol/frame_crypto.go:84-87 | a frame that is not encrypted comes out as it went in |
| CryptoHistory.EncryptIff | go-server/pkg/protocol/frame_crypto.go:43-73 | when a frame is encrypted and what is sent: nonce of its sequence and the random part, sealed body, zero checksum, the flag set, everything else as it was |
| CryptoHistory.SealedFields | go-server/pkg/protocol/frame_crypto.go:126-143 | an envelope is sealed with the ids and body of its packet, the compression flag of either, and the rest of its frame |
| CryptoHistory.EnvelopeEncryptsIff | go-server/pkg/protocol/frame_crypto.go:126-153 | exactly the envelopes of the frame format whose frame can be are encrypted |
| CryptoHistory.EnvelopeDecryptsIff | go-server/pkg/protocol/frame_crypto.go:155-178 | packets and plain frames pass unchanged, encrypted frames are decrypted, other formats refused |
| FrameCrypto.DecryptFrame | go-server/pkg/protocol/frame_crypto.go:84-114 | the guard is asked only after the body has opened, and its answer decides |
| FrameCrypto.OpenBody | go-server/pkg/protocol/frame_crypto.go:84-106 | opens the body under the data of the received header, or says what is wrong |
| FrameCrypto.EncryptedEnvelope | go-server/pkg/protocol/frame_crypto.go:126-175 | an encrypted envelope, sent and received, decrypts to the frame that was encrypted |
| FrameCrypto.EncryptedPacketIff | go-server/pkg/protocol/frame_crypto.go:126-175 | its packet comes back unchanged exactly when the frame's compression flag was not set beside an uncompressed packet |
| FrameCrypto.FlaggedComesBackCompressed | go-server/pkg/protocol/frame_crypto.go:126-175 | an empty uncompressed packet beside a frame with that flag comes back compressed, under every key and cipher |
| StartMapBody.AcceptedIff | client-patch/90CN.cpp:5251-5303 | an op29 body is accepted exactly when it is the serialisation of a well-formed one |
| StartMapBody.SerialiseInjective | client-patch/90CN.cpp:5251-5303 | and of only one |
| StartMapBody.ParsesSerialised | client-patch/90CN.cpp:5251-5303 | it then gives that body's room, unless a first room is required and this is none |
| StartMapBody.ParseStartMapBody | client-patch/90CN.cpp:5251-5303 | computes that, with every access inside the body |
| StartMapBody.SkipGroups | client-patch/90CN.cpp:5288-5294 | skips the counted groups with a moving offset |
| DungeonLifecycle.TraceIsGood | client-patch/90CN.cpp:5169-5200 | over every packet sequence each room change and leave directly continues an event of the same dungeon, each room change leaves the room entered for another one, each leave is followed by an enter-town |
| DungeonLifecycle.BackToEnter | client-patch/90CN.cpp:5305-5475 | every room change and leave goes back, through room changes only, to an enter of the same non-zero dungeon |
| DungeonLifecycle.EnterIff | client-patch/90CN.cpp:5305-5475 | over every packet sequence an enter is published exactly for the first op3 for the current actor behind the first room op29 behind the last op28 with a dungeon, no town packet being accepted since; it carries that dungeon, that room and whether it is the boss room |
| DungeonLifecycle.EnterIsFresh | client-patch/90CN.cpp:5305-5475 | nothing is published between that op28 and the enter |
| DungeonRooms.RoomChangedIff | client-patch/90CN.cpp:5355-5424 | over every packet sequence a room change is published exactly for a readable op29 inside a dungeon, entered and not yet left, whose room is another than the last one there; it carries that dungeon, the new room, whether it is the boss room, and the room before |
| DungeonRooms.LeavesIff | client-patch/90CN.cpp:5547-5579 | a leave is published exactly for an accepted town packet inside a dungeon, and carries that dungeon and its last room |
| DungeonRooms.TownIff | client-patch/90CN.cpp:5477-5579 | an enter-town is published exactly for an accepted town packet |
| DungeonRooms.InfoIff | client-patch/90CN.cpp:5333-5353 | an op28 counts exactly if it has a dungeon id that is not zero and 32 bytes behind it |
| DungeonRooms.StartMapIff | client-patch/90CN.cpp:5251-5303 | an op29 shows a room exactly if its body is well-formed, and the room of its first three bytes and map id |
| DungeonRooms.UserStateIff | client-patch/90CN.cpp:5424-5460 | an op3 counts exactly if it is a one, an object key that is not zero, and a one, for the current actor |
| DungeonRooms.TownAcceptedIff | client-patch/90CN.cpp:5477-5545 | a town packet is accepted exactly if it holds a counted list of rows whose last has an object key that is the current actor and not zero |
| DungeonLifecycle.EnterIsLeftIff | client-patch/90CN.cpp:5305-5579 | over every packet sequence: the first accepted town packet after a published enter, with no enter between, publishes a leave if and only if no op28 with a dungeon came between |
| DungeonLifecycle.SampleLosesLeave | client-patch/90CN.cpp:5333-5353 | five packets, op28, op29, op3, op28 and a town packet, that publish an enter and no leave for it |
| EventQueue.ClientEventQueue.TakeNumber | client-patch/90CN.cpp:5209-5210 | the next number, wrapping around, for every attempt of any thread |
| EventQueue.ClientEventQueue.Store | client-patch/90CN.cpp:5226-5239 | the part under the lock, whatever other threads did since the number was taken: accepted exactly when the ring is not full, behind all accepted before |
| EventQueue.ClientEventQueue.CountRefusal | client-patch/90CN.cpp:5229-5230 | the counter of refusals, told after the lock is released, never passes them |
| EventQueue.ClientEventQueue.Enqueue | client-patch/90CN.cpp:5202-5239 | the three steps with no other thread between them: accepted under the next number exactly when the ring is not full, and otherwise counted as refused |
| EventQueue.ClientEventQueue.Dequeue | client-patch/90CN.cpp:5581-5596 | gives the oldest accepted event not yet taken |
| EventQueue.RingPut | client-patch/90CN.cpp:5235-5238 | writing at the tail appends to the ring's contents |
| EventQueue.RingTake | client-patch/90CN.cpp:5589-5593 | clearing the head drops the first of the contents |
| EventQueue.DungeonTracker.BuildContext | client-patch/90CN.cpp:5169-5200 | the context of the current state |
| EventQueue.DungeonTracker.StartMap | client-patch/90CN.cpp:5355-5424 | the globals and the published events are those of the state machine, even when the ring is full |
| EventQueue.DungeonTracker.UpdateAfterDispatch | client-patch/90CN.cpp:5305-5475 | the same for all three opcodes |
| EventQueue.DungeonTracker.EnterTownIfAccepted | client-patch/90CN.cpp:5477-5579 | the same for the town packet |
| EventQueue.DungeonTracker.Dispatch | client-patch/90CN.cpp:2074-2082 | one dispatched packet publishes what the state machine says |
| WireShapes.ShapeEndIff | client-patch/90CN.cpp:2086-2113 | a block, a counted list or a selection is read between two offsets exactly when it stands there |
| WireShapes.PiecesFit | client-patch/90CN.cpp:2198-2251 | what is skipped is cut into pieces of the shapes prescribed |
| WireShapes.FittingPiecesRead | client-patch/90CN.cpp:2198-2251 | pieces of those shapes are read wherever they stand, and nothing more |
| EquipmentSnapshot.ParsedIff | client-patch/90CN.cpp:2124-2267 | a snapshot is accepted exactly when it is that of well-formed rows of pairwise distinct slots which the body holds behind their count, whatever follows |
| EquipmentSnapshot.CarriedRowsUnique | client-patch/90CN.cpp:2124-2267 | a body holds one such list of rows at most |
| EquipmentSnapshot.CarriedRowsFit | client-patch/90CN.cpp:2139-2143 | distinct slots of 0 to 32 are never more rows than the capacity |
| EquipmentSnapshot.RowIff | client-patch/90CN.cpp:2152-2251 | a row is read between two offsets exactly when the bytes of a well-formed one stand there |
| EquipmentSnapshot.HeadIff | client-patch/90CN.cpp:2163-2174 | the six leading fields are read exactly as they were encoded |
| EquipmentSnapshot.SummaryIs | client-patch/90CN.cpp:2152-2262 | which bytes of a row its summary shows |
| EquipmentSnapshot.MoreFitsIff | client-patch/90CN.cpp:2198-2251 | the pieces behind the amplification: two blocks for slots 0 to 11, four bytes for slot 26, and the same ten for every slot |
| EquipmentSnapshot.LinkedFitsIff | client-patch/90CN.cpp:2181-2184 | only slot 9 with a linked item has a block before its amplification |
| EquipmentSnapshot.MarkSeen | client-patch/90CN.cpp:2175-2179 | the 64-bit mask holds exactly the slots seen, and one more after marking |
| EquipmentSnapshot.SkipMore | client-patch/90CN.cpp:2198-2251 | skips the rest of a row, slot by slot as the source does |
| EquipmentSnapshot.ParseRow | client-patch/90CN.cpp:2152-2262 | one turn of the loop: the row's summary, unless its slot was seen |
| EquipmentSnapshot.ParseRows | client-patch/90CN.cpp:2150-2262 | the items stored for all rows, empty entries behind them |
| EquipmentSnapshot.ParseCurrentEquipmentSnapshot | client-patch/90CN.cpp:2124-2267 | computes the accepted snapshot, or none |
| BitMask.SetBitSets | client-patch/90CN.cpp:2175-2179 | setting a bit makes that test true and changes no other |
| KeyedRows.CarriedIff | client-patch/90CN.cpp:2150-2262 | for any row format that reads exactly where bytes stand, rows are read exactly where they are carried |
| KeyedRows.FreshRowsMeans | client-patch/90CN.cpp:2172-2179 | the running check for seen keys says that all keys are distinct |
| RankIcons.AlphaXRuns | client-patch/tools/build_combat_rank_icons.py:23-37 | the runs found are exactly the maximal runs of more than 24 occupied columns, from left to right |
| RankIcons.CloseRun | client-patch/tools/build_combat_rank_icons.py:29-36 | a run is complete exactly at the first free column behind it |
| RankIcons.PremultipliedBGRA | client-patch/tools/build_combat_rank_icons.py:40-49 | the pixels in order, each channel scaled and at most its alpha |
| RankIcons.ScaledIsNearest | client-patch/tools/build_combat_rank_icons.py:43-48 | scaling rounds to the nearest |
| Blend.ClampUnreached | client-patch/90CN.cpp:3794-3805 | under a premultiplied source the sum never passes 255 and is the nearest to the exact blend |
| Blend.MixKeepsPremultiplied | client-patch/90CN.cpp:3794-3805 | a channel within alpha stays within alpha |
| Blend.MixExtremes | client-patch/90CN.cpp:3794-3805 | an opaque destination stays opaque, an opaque source replaces, an empty one changes nothing |
| Blend.MixIs | client-patch/90CN.cpp:3794-3805 | under any source a channel is the source plus the nearest to what shines through, at most 255 |
| Blend.InsideIff | client-patch/90CN.cpp:3777-3786 | the guard lets through exactly a rectangle that has a pixel and lies with all of its pixels in both images |
| Blend.BlendedPixel | client-patch/90CN.cpp:3788-3807 | every channel of every pixel: inside the rectangle the source pixel over it, outside unchanged |
| Blend.BlendedStaysValid | client-patch/90CN.cpp:3771-3807 | an icon of the tool leaves the overlay premultiplied, and opaque where it was |
| Blend.BlendedIsExact | client-patch/90CN.cpp:3771-3807 | inside the rectangle no clamp cut any byte |
| Blend.BlendPixel | client-patch/90CN.cpp:3793-3805 | the four channels in place, alpha last |
| Blend.BlendOneRow | client-patch/90CN.cpp:3789-3806 | one row in place |
| Blend.BlendPremultipliedPixels | client-patch/90CN.cpp:3771-3807 | the rectangle in place, or nothing when the guard fails |
| TokenStream.TokensOfEncode | go-server/cmd/scratch/pvfshopgift/main.go:586-600 | tokens encoded and read are the same tokens |
| TokenStream.EncodeOfTokens | go-server/cmd/scratch/pvfshopgift/main.go:586-600 | and bytes read and encoded the same bytes |
| TokenStream.TokensOfPut | go-server/cmd/scratch/pvfjoustentry/main.go:222-222 | overwriting a payload changes that token's value and no other token |
| TokenStream.WrapsAround | go-server/cmd/scratch/pvfjoustentry/main.go:222-222 | a value written is the one given up to a multiple of 2^32 |
| TokenStream.PutValue | go-server/cmd/scratch/pvfjoustentry/main.go:191-192 | the four bytes in place |
| JoustEntry.ReplaceIff | go-server/cmd/scratch/pvfjoustentry/main.go:208-230 | an edit succeeds exactly when the section is named once and holds the old value, and changes that one token |
| JoustEntry.RequireIff | go-server/cmd/scratch/pvfjoustentry/main.go:232-253 | the check succeeds exactly when the section is named once and holds the value wanted |
| JoustEntry.OnlySiteIff | go-server/cmd/scratch/pvfjoustentry/main.go:214-226 | what an edit and a check look for: the one section or string token of that name with a token behind it, which is that integer |
| JoustEntry.LabelOf | go-server/cmd/scratch/pvfjoustentry/main.go:255-257 | a label is the text between white space and brackets, folded: [npc] is npc |
| JoustEntry.EditedIsRequired | go-server/cmd/scratch/pvfjoustentry/main.go:208-253 | after an edit the check accepts one value only, and the new one exactly when it fits 32 bits |
| JoustEntry.EditUndone | go-server/cmd/scratch/pvfjoustentry/main.go:208-230 | editing back restores the stream |
| JoustEntry.ReplaceSectionIntValue | go-server/cmd/scratch/pvfjoustentry/main.go:208-230 | the edited copy, or the error |
| JoustEntry.RequireSectionIntValue | go-server/cmd/scratch/pvfjoustentry/main.go:232-253 | the check's verdict |
| TownPlacement.EnsureIff | go-server/cmd/scratch/pvfjoustentry/main.go:166-206 | the placement succeeds exactly when one candidate is found, at the old or the new place, and only its two coordinates can change |
| TownPlacement.SettlesIff | go-server/cmd/scratch/pvfjoustentry/main.go:171-198 | a placement is the townsman, a direction named left, two coordinates and a zero, in a section named npc, and either the coordinates are overwritten or they are the new ones already |
| TownPlacement.EnsureTwice | go-server/cmd/scratch/pvfjoustentry/main.go:166-206 | a second run changes nothing, and succeeds exactly when the place written is one the tool recognises |
| TownPlacement.EnsureTownNPCPlacement | go-server/cmd/scratch/pvfjoustentry/main.go:166-206 | the edited copy, or the error |
| RawSection.FindIff | go-server/cmd/scratch/pvfshopgift/main.go:521-542 | when the section is found and where, when a marker is a duplicate, when it is reported missing and when the search indexes past the end |
| RawSection.MissingMarkerPanics | go-server/cmd/scratch/pvfshopgift/main.go:521-542 | a missing marker in more than six bytes is never reported |
| RawSection.SectionGrows | go-server/cmd/scratch/pvfshopgift/main.go:255-258 | tokens that are no markers, inserted before the closing one, move it by their number |
| RawSection.FindRawSection | go-server/cmd/scratch/pvfshopgift/main.go:521-542 | that search, with its running start |
| CommodityIds.Allocate | go-server/cmd/scratch/pvfshopgift/main.go:192-242 | the ids are the least free values above the maximum, in increasing order; exhausted only when fewer exist |
| CommodityIds.NextFree | go-server/cmd/scratch/pvfshopgift/main.go:226-234 | the search terminates, wrapping to zero only when no value is free |
| CommodityIds.FitIff | go-server/cmd/scratch/pvfshopgift/main.go:226-234 | the first free ids stay below a bound exactly if there are as many unused ids above the maximum and below it |
| CommodityIds.ExhaustionNeedsMany | go-server/cmd/scratch/pvfshopgift/main.go:226-229 | with positive 32-bit values in use, at least 2^31 ids must have been taken |
| PackageRows.EncodePackageRows | go-server/cmd/scratch/pvfshopgift/main.go:568-584 | eleven tokens a row, in order |
| PackageRows.EncodedRowsShow | go-server/cmd/scratch/pvfshopgift/main.go:568-584 | encoded rows are read back as eleven tokens each: ids, zeros, price, the string of the name, and the job code last |
| PackageRows.RowsHoldNoMarker | go-server/cmd/scratch/pvfshopgift/main.go:568-584 | none of them is a section marker |
| PackageRows.ParseExistingPackageRows | go-server/cmd/scratch/pvfshopgift/main.go:503-519 | the ids of all rows, or an error when one is no positive integer |
| PackageRows.ExistingIdsIff | go-server/cmd/scratch/pvfshopgift/main.go:503-519 | the ids of a section are the first tokens of its rows and the items the second, if all of these are positive integers |
| PackageRows.CollectedIff | go-server/cmd/scratch/pvfshopgift/main.go:466-478 | the check knows of a commodity what the last row that counts for it says |
| PackageRows.CollectRows | go-server/cmd/scratch/pvfshopgift/main.go:466-478 | item, price and job by commodity, a later row replacing an earlier |
| PackageRows.MatchRows | go-server/cmd/scratch/pvfshopgift/main.go:480-484 | every row wanted is there with its values |
| PackageRows.AppendedVerified | go-server/cmd/scratch/pvfshopgift/main.go:466-484 | appended rows of distinct ids are found exactly when every id is a positive script integer |
| ShopGift.SpliceGrowsSection | go-server/cmd/scratch/pvfshopgift/main.go:254-258 | the section is found at the same start, its end moved by eleven tokens a row |
| ShopGift.SpliceKeepsRows | go-server/cmd/scratch/pvfshopgift/main.go:254-258 | it holds the old rows and then the new; what is before and behind is unchanged |
| ShopGift.SpliceVerified | go-server/cmd/scratch/pvfshopgift/main.go:254-268 | the check of the output accepts exactly when every new id is a positive script integer |
| ShopGift.VerifyOutput | go-server/cmd/scratch/pvfshopgift/main.go:450-484 | the row checks of the output |
| ShopGift.AllRawIntegerValues | go-server/cmd/scratch/pvfshopgift/main.go:602-612 | every positive integer of the stream |
| ShopGift.CheckInterior | go-server/cmd/scratch/pvfshopgift/main.go:164-194 | passes exactly a whole, non-empty section of positive ids that has none of the items, and gives the greatest commodity id |
| ShopGift.ExtensibleIff | go-server/cmd/scratch/pvfshopgift/main.go:164-184 | a section can be extended exactly if it has whole rows, at least one, of positive ids, and none for a wanted item |
| ShopGift.InteriorVerifiedMeans | go-server/cmd/scratch/pvfshopgift/main.go:458-484 | the output is accepted exactly if its section has as many rows as it should and says of every new commodity what was asked for |
| ShopGift.AppendPackages | go-server/cmd/scratch/pvfshopgift/main.go:185-268 | the rows asked for under the first free ids, appended and accepted, exactly if there are as many unused positive ids above the maximum as items |
| ShopGift.AddPackages | go-server/cmd/scratch/pvfshopgift/main.go:160-268 | succeeds exactly on a section that is whole, not empty, has positive ids and none of the items, above whose greatest id enough unused positive ids are left; what it returns is then published, each new row as its eleven tokens |
| Topics.PrintIsEmptyIff | go-server/pkg/contracts/topics.go:215-232 | nothing is printed exactly when the scope or the first part is blank |
| TopicGrammar.PrintIs | go-server/pkg/contracts/topics.go:207-232 | the printed topic: scope, first part, .gid. and .sid. with their values where there are any, and name, trimmed and with dots between, or nothing |
| TopicGrammar.ParsesIff | go-server/pkg/contracts/topics.go:171-275 | a topic is parsed exactly if none of its parts is blank and they are those of a service with its keys in either order, of a zone or of a shard; and as that |
| Topics.SplitOfJoin | go-server/pkg/contracts/topics.go:171-232 | dot-free parts and a last text, joined and split, are the parts and the text's segments |
| Topics.ZoneRoundTrip | go-server/pkg/contracts/topics.go:161-186 | a zone or shard topic is parsed back to its parts |
| Topics.ServiceRoundTripIff | go-server/pkg/contracts/topics.go:155-260 | a service topic is parsed back to its parts exactly when its name does not start with a key |
| Topics.PrintScopedTopic | go-server/pkg/contracts/topics.go:215-232 | the printed topic, built by appending |
| Topics.ParseServiceTopic | go-server/pkg/contracts/topics.go:234-260 | the parsed topic, by a moving index |
| Topics.ParseScopedTopic | go-server/pkg/contracts/topics.go:171-186 | the parsed topic or a refusal |

## Left out

- AES-GCM, HKDF, CRC-32 and SHA-256: a seal/open pair with the correctness law of section 7 of NIST SP 800-38D, functions without properties, and digests as the contents of files; `DeriveFrameSessionKey` has no model.
- Unicode: trimming and lower-casing are the ASCII ones in names and topics, and a parameter in the wire format, whose only law is that it is idempotent.
- Names of binaries: `safeManifestPath` is not part of this model; a name is safe when it is not empty, not a dot name, trimmed and without separator or drive mark. Names are folded to lower case, as on the file systems the launcher runs on.
- Writing and removing the journal are atomic; creating directories and reading a journal that changes meanwhile have no model. Between two steps only the launcher writes to the directory.
- InstallProgram.ResolveState: `safeManifestPath` trims white space and cleans the path before the name is judged, so a journaled name with white space around it or with `./` in front is accepted there and refused here.
- InstallProgram.FileSystem.Rename: replaces a destination as the operating system does; what a failing rename leaves half done is not modelled.
- Mutexes and slim locks: what is done under a lock is one step.
- EventQueue.ClientEventQueue.Enqueue: describes one thread's attempt with no other thread between its steps; between them only the invariant of the queue is claimed, and two threads may store their events in another order than that of their numbers.
- Blend.BlendPremultipliedPixels: the sums of the guard are unbounded integers; where an offset plus a size passes 2^31 - 1 the 32-bit sum of the client is not modelled.
- Structured exceptions, null pointers and native calls of the client: whether the selected actor is the current one, and whether the town packet was refused, are inputs; a read exception is a packet without a body.
- EventQueue.DungeonTracker.Dispatch: events of the user interface and other threads also go through the ring; what they publish is not described.
- Time stamps, process and thread ids of events, log lines, and the snapshot's size, flags and generation counter.
- The fixed buffers' addresses: the parsers read a sequence, so alignment and aliasing have no model; the blend's source never overlaps its destination.
- RankIcons.AlphaXRuns: the occupied columns are its input; cropping, scaling and saving images have no model.
- RawSection.FindRawSection: a slice's capacity is taken to be its length, so reading past a partial last token fails.
- The script archive: resolving a string number is a parameter and repacking gives back the streams put in. Dates, job codes, item lists and documents are not read: a row's name and job code are inputs. The list of items to publish is not empty in the source; an empty one is published here without effect.
- Node topics and their recognisers: prefix and suffix tests only.
- Hooking, drawing, controller processes, accounts, configuration and the generated message codecs: they rest on code that is not part of the repository, or would add only easy members.

# Formal model of csp-linksim: the self-verifying uploader and its loss oracles

This project models two parts of csp-linksim in Dafny 4.11 and proves what they are relied on for.
`dafny verify dfyconfig.toml` checks everything.

**The self-verifying uploader (SVU).** A client asks a server for a file over a lossy link. The server
answers with a manifest (one SHA-256 digest per block) and blasts the file in fire-and-forget data
packets. The client reassembles, and repeats the request for what is missing or damaged until every block
has its digest or the rounds run out.

- `Sha256Spec`, `Sha256`: the hash of FIPS 180-4 and the streaming context that computes it. `Sha256Words` says bit
  by bit what its operations on words do, `Sha256Constants` where its constants come from, and `Sha256Abc` works
  out the digest of "abc" word by word and round by round, on the bit-vector form of the operations that
  `BitVector` proves equal to the one in the standard.
- `Receiver`, `Repair`, `Delivery`: the receiver with its coverage count and verdict, what its repair list
  means, and what a series of fragments leaves in it.
- `Wire`, `Server`, `Session`: the codec, the server's loops, and the client's round loop. The client is a
  state machine `After(h, inputs, k)`. Its inputs are the control connections and the data packets of each
  round, and both are arbitrary: whatever a channel may drop, repeat, reorder, corrupt or forge is some
  list of inputs. The method `ClientRun`, written as the source's loops are, is proved to compute it.
- `Answers`: what the server makes of a client's request, through the bytes one side encodes and the other decodes.
- `Control`: what the control exchange yields for arbitrary packets, and which packets take the client out of
  defined behaviour.
- `Safety`, `Progress`, `Identity`, `Injector`: the theorems about whole runs. `Injector` leads the data channel
  through the shim of the other part. `Witness` builds runs that meet their hypotheses, for every file and
  every number of rounds.

**The injector and the monitor.** A shim in the transmit path drops packets by a seeded rule and logs each
decision; a monitor infers the loss from the sequence numbers it sees.

- `Bits`, `Prng`, `Mixer`, `Calibrate`, `Ge`, `Rule`, `Shim`: the keyed draw, what a seed does to the set of dropped
  fragments, the burst chain, the identity a packet is keyed on, and the shim.
- `SeqTracker`, `Rtt`: the monitor's circular bitmap and its ring of send times, each as the class of the
  source and as an unbounded ideal it is proved to refine.
- `FlowKey`, `TwoOracle`: the two ways of unwrapping a 16-bit sequence number, and the agreement of the two
  loss counts.
- `Bridge`: the split-horizon pump.

`Bytes` and `Bits` hold the arithmetic they share. State the C code updates in place is a class or an array
here; each method is proved to compute a function of the old state, and the theorems are about that function.
`fread`, sockets, queues and clocks are parameters: a method takes the list of what they return.

## Main results

- **Never success on wrong bytes.** If the first manifest accepted is true and the client reports success,
  the file is the source, or two different blocks with one digest exist (`Safety.EndToEnd`). Against the real
  server, with any packets of its reply lost, the premise is proved too, provided no chunk of the manifest can pose
  as a reply (`Safety.SafeAgainstServer`); that proviso is exact (`Safety.LossHarmlessIff`).
- **Defined behaviour, exactly.** A run leaves it if and only if one of its control connections overflows the
  32-bit sum of the reading loop or, in the first round, announces 2^27 or more blocks consistently
  (`Control.UndefinedIff`).
- **Progress.** Rounds whose frames get through shrink the repair list by exactly its first 32 entries, and
  ceil(holes/32) + ceil(blocks/32) of them end the transfer (`Progress.CleanRoundsSuffice`). A round here is the
  server's answer to the encoded request, which contains exactly the bytes asked for (`Answers.AnswerExact`).
- **Identity-keyed drops decide convergence exactly.** Through the shim in identity mode, carrying its state from
  round to round among any other traffic, the transfer ends verified if and only if the rule drops no fragment
  number of the file; otherwise the client is still asking when its rounds are spent (`Injector.ConvergesIff`).
- **Two-oracle agreement** with any number of wraps, in both drop modes: the monitor's loss is the number of
  logged drops if and only if no 32767 packets in a row were dropped (`TwoOracle.OraclesAgree`).
- **The bitmap refines a set, the ring refines a history** (`SeqTracker.BitmapRefinesSet`,
  `Rtt.RingRefinesHistory`).
- **SHA-256** over any sequence of updates is the digest of the concatenation (`Sha256.Context.Update`,
  `Sha256.Context.Final`, `Sha256.HashFile`). The specification it is proved against is pinned bit by bit, by the
  origin of its constants, and by the digest of "abc" (`Sha256Words.RotrAt`, `Sha256Constants.ConstantsAreRoots`,
  `Sha256Abc.AbcKnown`).
- **The mixer is a bijection**, so under one seed no two packets share a draw (`Mixer.DrawInjective`).

## Where the code and its documentation differ, or a natural claim fails

- `total + block - 1` can wrap in `ci_svu_nblocks`. Then the quotient is 0, never another number, so the
  receiver is refused and not mis-sized (`Receiver.NBlocksExact`).
- `lib/ci_rule.h:64-71` says the epoch keeps a packet's identity, and that a small backward step does not
  disturb it. The key is the true index plus 65536 for every backward step over an epoch boundary so far
  (`FlowKey.KeyExact`): the retransmission of 65535 after 65536 is keyed 131071
  (`FlowKey.RetransmissionChangesKey`). It is the true index throughout if and only if no such step occurs
  (`FlowKey.KeysTrueIff`).
- The tracker's loss equals the number of holes if and only if no packet arrived from below the first one,
  or there are no holes (`SeqTracker.LossExact`). Agreement on the class of a packet and on `n_distinct` needs
  only the 2048 window, not that condition.
- `scripts/calibrate-injector.py:15-18` explains equal drop counts for seeds 1 to 3 at 267 fragments by
  alignment. The permutation holds if and only if the fragment count is a multiple of the power of two above
  the seed, and 267 is not (`Calibrate.SameInputsIffAligned`, `Calibrate.Seeds123NotAlignedAt267`). For
  every count the difference is that among the fragments past the last aligned index, and no more than their
  number (`Calibrate.DriftExact`).
- Loss equality fails for every stream in which 32767 packets in a row are dropped between two kept ones, and only
  for those (`TwoOracle.LossTrueIff`). Already the shortest such run can leave a loss of 0
  (`TwoOracle.ShortestHiddenRun`).
- A mode-0 announce that begins with the bytes of the magic is read in the new format
  (`Wire.AnnounceRoundTrip` gives the exact condition, `Wire.LegacyCollision` an instance).
- The client reads beyond a short manifest (`Control.OverReadOccurs`) when a header announces 2^27 or more blocks
  and sizes that give that number, and writes beyond the end of one (`Control.OverrunOccurs`) when the bytes read
  and the length of the next packet add up to 2^32. `Control.UndefinedIff` has both directions. A large count
  that does not agree with the sizes is refused like any other (`Control.WrappedCountRefused`).
- Nothing marks the response header but its magic. If the header is lost, a 20-byte or longer chunk that begins
  with the magic is taken for it. `Safety.PosesExact` says for which manifests, by the bytes at the starts of
  the chunks, `Safety.LossHarmlessIff` that there is no other way to accept a wrong manifest, and
  `Safety.ImpostorOccurs` that such manifests exist for some hash functions.

## Model

| member | source | states |
|---|---|---|
| `Sha256.Context.constructor` | lib/ci_sha256.c:50-57 | a new context has absorbed nothing and holds the initial hash value |
| `Sha256.Context.Expand` | lib/ci_sha256.c:28-35 | the schedule is that of section 6.2.2 of FIPS 180-4 for the words of the buffer |
| `Sha256.Context.Mix` | lib/ci_sha256.c:36-44 | the 64 rounds, with the eight working variables |
| `Sha256.Context.Transform` | lib/ci_sha256.c:27-48 | the state becomes the compression of the old state and the buffered block |
| `Sha256.Context.Push` | lib/ci_sha256.c:61-67 | one more byte absorbed; state, buffer and bit count stay those of everything absorbed, modulo 2^64 |
| `Sha256.Context.Update` | lib/ci_sha256.c:59-69 | any split into updates absorbs the concatenation |
| `Sha256.Context.Final` | lib/ci_sha256.c:71-93 | the digest of all bytes absorbed, for any length, with the extra block past offset 55 |
| `Sha256.Context.Tail` | lib/ci_sha256.c:75-86 | 0x80, zeros and length fill one block or two, and the state is then the fold over the padded message |
| `Sha256Spec.PadIsPadded` | lib/ci_sha256.c:71-86 | the padded message byte by byte: message, 0x80, zeros, length, one or two blocks by whether 55 is passed |
| `Sha256Spec.BigEndianWrap64` | lib/ci_sha256.c:72-85 | a bit count kept modulo 2^64 gives the standard's 8-byte length field |
| `Sha256Spec.Sha256IsSha256` | lib/ci_sha256.c:27-48 | the hash of the standard meets the hypothesis the classes put on theirs |
| `Sha256Spec.Sha256Unique` | lib/ci_sha256.c:27-93 | every function meeting it is that one |
| `Sha256.HashFile` | lib/ci_sha256.c:95-129 | however fread cuts the file, the hexadecimal digest of the whole and its length, or -1 when it cannot be opened or read |
| `Sha256.HexDigits` | lib/ci_sha256.c:119-124 | two lower-case digits a byte, high half first |
| `Sha256Spec.HexInjective` | lib/ci_sha256.c:119-124 | equal hexadecimal strings mean equal digests |
| `Sha256Words.RotrAt` | lib/ci_sha256.c:19-19 | bit k of a rotation is bit (k + n) mod 32 of the word: nothing is shifted out |
| `Sha256Words.BigSigmasAt` | lib/ci_sha256.c:22-23 | bit k of either function is the parity of its three rotated bits |
| `Sha256Words.SmallSigmasAt` | lib/ci_sha256.c:24-25 | the same for two rotations and a shift |
| `Sha256Words.ChMajAt` | lib/ci_sha256.c:20-21 | choice and majority, bit by bit |
| `Sha256Constants.PrimesInOrder` | lib/ci_sha256.c:6-17 | the table lists the first 64 primes |
| `Sha256Constants.ConstantsAreRoots` | lib/ci_sha256.c:6-17 | the round constants are the first 32 fractional bits of the cube roots of these primes, the initial values those of the square roots of the first eight |
| `BitVector.XorNum` | lib/ci_sha256.c:20-25 | exclusive-or on bit vectors is that on words |
| `BitVector.Step` | lib/ci_sha256.c:36-44 | one round in terms of bit vectors |
| `Sha256Abc.AbcKnown` | tests/test_lib.c:423 | the digest of "abc" is the published one |
| `Receiver.NBlocksExact` | lib/ci_svu.c:28-34 | the block count is the ceiling unless the 32-bit sum wraps, and then it is 0 |
| `Receiver.BlockInside` | lib/ci_svu.c:37-49 | every block is a non-empty range within the payload |
| `Receiver.DigestBlock` | lib/ci_svu.c:37-49 | the digest of block b of a source |
| `Receiver.BuildManifest` | lib/ci_svu.c:51-66 | the digests of all blocks, in order |
| `Receiver.Tracker.Create` | lib/ci_svu.c:68-93 | a fresh empty receiver for the given manifest, or null exactly when the block count is 0 or disagrees |
| `Receiver.Tracker.Deliver` | lib/ci_svu.c:106-125 | -1 and nothing changed when the fragment runs past the payload, else bytes and flags written and the count kept equal to the number of flags |
| `Receiver.Tracker.HashBlock` | lib/ci_svu.c:37-49 | the digest of block b of the reassembled data |
| `Receiver.Tracker.Verify` | lib/ci_svu.c:148-200 | the verdict, the full length of the repair list, and its prefix in the caller's array, the rest of which is untouched |
| `Receiver.Tracker.ListHoles` | lib/ci_svu.c:161-176 | the coalescing scan lists the uncovered runs |
| `Receiver.Tracker.ListBad` | lib/ci_svu.c:177-194 | the block scan lists the blocks whose digest differs |
| `Receiver.PushInterval` | lib/ci_svu.c:138-146 | writes only while there is room, always counts |
| `Receiver.CountFull` | lib/ci_svu.c:161-161 | the count reaches the total exactly when every byte is covered |
| `Repair.HoleListed` | lib/ci_svu.c:164-176 | resumed at any run boundary, the scan lists a range if and only if it is a maximal hole from there on |
| `Repair.HolesExact` | lib/ci_svu.c:161-176 | INCOMPLETE: exactly the maximal uncovered runs, ascending, never adjacent, with lengths adding up to the bytes missing |
| `Repair.BadBlocksExact` | lib/ci_svu.c:177-194 | CORRUPT: exactly the ranges of the blocks whose digest differs, in order |
| `Repair.VerdictExact` | lib/ci_svu.h:28-32 | VERIFIED if and only if every byte arrived and every digest matches; INCOMPLETE if and only if a byte is missing |
| `Repair.UnverifiedHasRepairs` | svu/svu_session.c:204-207 | an unverified receiver always has a range to ask for, so no re-request means "whole file" |
| `Delivery.CoveredAfter` | lib/ci_svu.c:106-125 | a byte is covered if and only if it was or some accepted fragment contains it |
| `Delivery.LastWriterWins` | lib/ci_svu.h:66-71 | each byte is that of the last accepted fragment containing it, or as before |
| `Delivery.DeliverSource` | lib/ci_svu.c:106-125 | fragments of the source write source bytes wherever they land and nothing elsewhere |
| `Delivery.TileExact` | svu/svu_serve.c:67-84 | the frames of a blast tile the interval: each begins where the last ended, all full but the last |
| `Delivery.TileHits` | svu/svu_serve.c:67-84 | they are pieces of the source and contain exactly the bytes of the interval |
| `Delivery.BlastHits` | svu/svu_serve.c:142-156 | the frames of a request contain exactly the bytes of its ranges, each clamped to the file |
| `Delivery.BlastThenAccept` | svu/svu_serve.c:67-84 | delivered in any order and any number of times, they put the source in the requested ranges and change nothing else |
| `Bytes.Get32Le32` | svu/svu_proto.h:43-55 | reading a written 32-bit field gives it back |
| `Bytes.Le32Get32` | svu/svu_proto.h:43-55 | writing a field read gives its four bytes back |
| `Wire.Put32` | svu/svu_proto.h:43-49 | four little-endian bytes written, the rest of the buffer kept |
| `Wire.ReqEncode` | svu/svu_proto.h:75-92 | the buffer begins with the encoding, at most 32 intervals, and is otherwise untouched |
| `Wire.ReqDecode` | svu/svu_proto.h:95-118 | the decoded request, or none exactly for a short, foreign or over-long one |
| `Wire.DecodeEncode` | svu/svu_proto.h:75-118 | every request with the magic and at most 32 intervals survives the wire with its fields and intervals |
| `Wire.EncodeDecode` | svu/svu_proto.h:75-118 | whatever decodes is the encoding of what it decodes to, up to trailing bytes |
| `Wire.AnnounceEncode` | svu/svu_proto.h:127-145 | the buffer begins with the announce, cut to what fits |
| `Wire.AnnounceDecode` | svu/svu_proto.h:149-171 | mode and path as read, terminated, cut to the caller's buffer |
| `Wire.AnnounceRoundTrip` | svu/svu_proto.h:121-171 | mode and longest fitting prefix arrive if and only if it is not a mode-0 path of 8 bytes or more that begins with the magic |
| `Wire.LegacyCollision` | svu/svu_proto.h:154-157 | such a path, and the wrong mode it is read with |
| `Server.SendManifest` | svu/svu_serve.c:51-64 | the manifest cut into 200-byte chunks, in order |
| `Server.FillPacket` | svu/svu_serve.c:77-80 | offset, session and payload of one data packet |
| `Server.BlastInterval` | svu/svu_serve.c:67-84 | the packets of the tiling, in order |
| `Server.BlastReply` | svu/svu_serve.c:142-156 | no interval means the whole file, else each clamped non-empty interval |
| `Server.ServeRequest` | svu/svu_serve.c:111-156 | the header, the manifest and the blast for a well-formed request, nothing for another |
| `Server.ServeLoop` | svu/svu_serve.c:86-164 | each request answered by itself, from one manifest computed at the start |
| `Server.ReadDataPacket` | svu/svu_session.c:45-48 | the client reads back the offset and payload the server packed |
| `Wire.RequestLayout` | svu/svu_proto.h:75-92 | the offset of every field and interval in an encoded request |
| `Answers.RequestRead` | svu/svu_proto.h:95-118 | the server decodes exactly the request the client encoded |
| `Answers.AnswerExact` | svu/svu_serve.c:142-156 | the frames of the answer are pieces of the file of at most the size asked for, and contain a byte if and only if it was asked for; for a request without ranges they tile the file |
| `Answers.AnswerControl` | svu/svu_serve.c:128-140 | the header under the client's session, then the manifest |
| `Answers.AnswerSession` | svu/svu_serve.c:77-80 | every data packet bears the client's session |
| `Answers.RequestAnswered` | svu/svu_session.c:146-157 | the request a run sends in round k is answered by what the client lacks then |
| `Session.FillManifest` | svu/svu_session.c:94-115 | the manifest buffer is what the chunks hold, cut to its size, or failure when they run out |
| `Session.CtrlExchange` | svu/svu_session.c:57-123 | 0 with header and manifest, or -1 for a refusal, a lost or foreign header or a lost chunk; the request sent is the encoding |
| `Session.CtrlRetry` | svu/svu_session.c:165-176 | the first of at most eight exchanges that succeeds |
| `Session.DrainData` | svu/svu_session.c:40-54 | every packet longer than its header is accepted in order and counted |
| `Session.DrainUntilQuiet` | svu/svu_session.c:190-203 | drains until verified or until a window brings nothing; the list left is that of the final state |
| `Progress.DrainExact` | svu/svu_session.c:196-203 | draining delivers the windows up to and including the first that is idle or completes a verified file, and nothing after |
| `Session.RunRound` | svu/svu_session.c:143-210 | one round is one step of the state machine, manifests after the first being ignored |
| `Session.RunRounds` | svu/svu_session.c:143-215 | the round loop ends in the state of the machine after max_rounds, having sent one request a round for what was then missing |
| `Session.ClientRun` | svu/svu_session.c:125-231 | 0 and the verified bytes written if and only if the run ends verified and the file opens, else -1 and nothing written |
| `Session.Settled` | svu/svu_session.c:204-206 | a client that has stopped or finished stays so |
| `Safety.Gate` | lib/ci_svu.c:177-194 | a verified receiver with the true manifest holds the source, or a block collides |
| `Safety.SetUpKept` | svu/svu_session.c:177-188 | at every step the receiver is the one the first manifest set up, and finishing means verified |
| `Safety.EndToEnd` | svu/svu_session.c:125-231 | any data channel, any later manifests: success means the source, or an explicit collision |
| `Control.ReadExactly` | svu/svu_session.c:94-115 | the reading loop leaves its buffer if and only if a sum wraps, fails if and only if the chunks are too short, and else holds their first bytes |
| `Control.ExchangeExact` | svu/svu_session.c:80-122 | the outcome of an exchange in terms of its packets alone |
| `Control.ShortExact` | svu/svu_session.c:177-186 | a manifest that was read is too short for the receiver if and only if the count is at least 2^27 and agrees with the sizes |
| `Control.OutcomeExact` | svu/svu_session.c:94-115 | the connections that overrun the buffer, and those that over-read it |
| `Control.RoundUndefinedIff` | svu/svu_session.c:159-188 | a round leaves defined behaviour if and only if the first of its eight attempts that does not plainly fail is such a connection |
| `Control.UndefinedIff` | svu/svu_session.c:143-210 | a run does if and only if a round it still runs does |
| `Control.OverReadOccurs` | svu/svu_session.c:94-101 | a header with 2^27 one-byte blocks does it |
| `Control.OverrunOccurs` | svu/svu_session.c:108-113 | 2^26 chunks of 64 bytes for 2^27 - 1 blocks do it |
| `Control.WrappedCountRefused` | lib/ci_svu.c:71-74 | a wrapped count that disagrees with the sizes makes the client give up cleanly |
| `Safety.HeaderKept` | svu/svu_session.c:80-122 | with the header, an exchange succeeds if and only if no chunk was lost |
| `Safety.HeaderLost` | svu/svu_session.c:80-92 | without it, if and only if the first chunk passes for a header and the rest fill what it announces, and never with the server's manifest |
| `Safety.ManifestDelivery` | svu/svu_session.c:80-122 | if no chunk can pose as a reply, an exchange succeeds if and only if nothing of the reply was lost, header or chunk, and then the manifest is the server's byte for byte |
| `Safety.AnswerAccepted` | svu/svu_serve.c:128-140 | the whole answer to the client's own request is accepted as the server's manifest |
| `Safety.LossHarmlessIff` | svu/svu_session.c:80-122 | no loss makes the client accept another manifest if and only if no chunk can pose as a reply |
| `Safety.PosesExact` | svu/svu_serve.c:51-64 | which chunk can, in terms of the manifest's bytes at multiples of 200 |
| `Safety.ImpostorOccurs` | svu/svu_session.c:81-92 | a hash and a file for which one can |
| `Safety.SubsequenceShorter` | svu/svu_session.c:100-115 | losing any chunk shortens what is read |
| `Safety.JoinChunks` | svu/svu_serve.c:51-64 | the chunks put together are the manifest |
| `Safety.SafeAgainstServer` | svu/svu_session.c:125-231 | control connections to the server that lose any packets, any data channel: if no chunk can pose as a reply, defined behaviour throughout, and success means the source or a collision |
| `Safety.NeverUndefined` | svu/svu_session.c:94-115 | against the server, on the same condition, the manifest buffer is never overrun or over-read |
| `Control.DefinedWhenModest` | svu/svu_session.c:94-115 | nor against anybody, while the announced manifest stays a packet short of 2^32 bytes |
| `Progress.FillHoles` | svu/svu_session.c:204-207 | filling exactly the first m holes leaves exactly the others |
| `Progress.RepairBlocks` | svu/svu_session.c:204-207 | patching exactly the first m bad blocks leaves exactly the others bad |
| `Progress.CleanRound` | svu/svu_session.c:143-210 | a round whose frames all arrive ends the transfer, or removes exactly the first 32 entries of the list and touches no other byte |
| `Progress.RemainingFalls` | svu/svu_session.c:143-210 | the number of rounds still needed falls |
| `Progress.SteadyAfter` | svu/svu_session.c:204-207 | after its first round a running client asks for the first 32 entries of its list |
| `Progress.CleanRoundsSuffice` | svu/svu_session.c:143-210 | ceil(holes/32) + ceil(blocks/32) clean rounds end it verified |
| `Identity.TileGenuine` | svu/svu_serve.c:67-84 | a blast over a range on fragment boundaries consists of frames of the whole-file blast |
| `Identity.HoleOnBoundaries` | lib/ci_svu.c:161-176 | the holes of a receiver fed only such frames are on fragment boundaries |
| `Identity.NotCorrupt` | lib/ci_svu.c:177-194 | such a receiver never reads CORRUPT, and verifies only with the source |
| `Identity.IdentityIsStable` | svu/svu_session.c:143-210 | over a channel that only drops, repeats and reorders every frame of every round is one of the first blast, CORRUPT is unreachable, success means the source |
| `Identity.KeyIsNumber` | lib/ci_dtp.c:15-22 | the injector keys fragment f of the file as f when its mtu is the session's and its overhead 8 |
| `Injector.DataFate` | inject/ci_drop_iface.c:10-61 | in identity mode a data packet is freed if and only if the rule covers its port and drops its key, passed through if it does not cover it, else forwarded |
| `Injector.InjectorPasses` | inject/ci_drop_iface.c:10-61 | among any other traffic and whatever it has seen before, the injector passes on exactly the data packets the rule does not drop |
| `Injector.InjectorIsFilter` | inject/ci_drop_iface.c:10-61 | over a run, with its state carried along, it acts on the data channel as a filter on the rule's decision |
| `Identity.SurvivingFragments` | lib/ci_rule.c:94-122 | what the client reads is what was sent less the fragments dropped |
| `Injector.DroppedStaysMissing` | apm/csp_loss_apm.c:25-31 | a fragment the rule drops is missing after every round, so the client never succeeds |
| `Identity.NothingDropped` | svu/svu_session.c:190-206 | with no fragment dropped the first round delivers the source |
| `Identity.KeepsGoing` | svu/svu_session.c:143-210 | the client neither leaves defined behaviour nor gives up before its rounds are spent |
| `Injector.ConvergesIff` | apm/csp_loss_apm.c:25-31 | through the shim in identity mode the transfer ends verified within any number of rounds if and only if the rule drops no fragment number of the file; else the client is still asking at the end |
| `Witness.CleanRoundExists` | svu/svu_serve.c:111-156 | whatever a client asks for, there is a round in which the server's answer gets through |
| `Witness.InjectedRunExists` | apm/csp_loss_apm.c:25-31 | for every rule and every number of rounds there is a run through the injector |
| `Witness.SuccessOccurs` | svu/svu_session.c:125-231 | with nothing dropped every file is transferred |
| `Witness.FailureOccurs` | apm/csp_loss_apm.c:25-31 | dropping any one fragment of a file prevents success in any number of rounds |
| `Bits.ClosedIffAligned` | scripts/calibrate-injector.py:10-20 | exclusive-or with s maps [0, n) to itself if and only if n is a multiple of the power of two above s |
| `Mixer.SplitMixInjective` | lib/ci_prng.h:19-24 | different inputs never mix to the same value |
| `Mixer.DrawInjective` | lib/ci_prng.h:27-29 | under one seed no two indices have the same draw |
| `Mixer.KnownValues` | tests/test_lib.c:123 | the mixer's values at 0, 1 and 2 |
| `Calibrate.SameInputsIffAligned` | scripts/calibrate-injector.py:10-20 | a seed feeds the mixer the same inputs as seed 0 if and only if the fragment count is aligned with it |
| `Calibrate.DropsCount` | scripts/calibrate-injector.py:34-36 | the list of dropped fragments has each of them once |
| `Calibrate.SeedPermutes` | scripts/calibrate-injector.py:10-20 | on an aligned count the dropped set is that of seed 0 with the seed exclusive-ored in, and as large |
| `Calibrate.DriftExact` | scripts/calibrate-injector.py:17-20 | off alignment the counts differ by exactly what they differ among the fragments past the last aligned index, and by no more than their number |
| `Calibrate.Seeds123NotAlignedAt267` | scripts/calibrate-injector.py:13-15 | the reported configuration is not aligned |
| `Calibrate.PredictionIsDecision` | scripts/calibrate-injector.py:2-8 | for every probability the script lists exactly the indices the injector's rule drops |
| `Ge.LossyIff` | lib/ci_ge.c:60-70 | the chain is lossy if and only if, since it was last good, a draw fell below the first threshold and none below the second |
| `Ge.ThresholdExact` | lib/ci_ge.c:30-43 | which draws fall below the threshold of a probability |
| `Ge.Controls` | lib/ci_ge.c:32-43 | with probability 0 of entering the lossy state it is never entered, with 0 of leaving never left |
| `Ge.Fill` | lib/ci_ge.c:45-72 | entry i is 1 if and only if the chain is lossy after i transitions; all 0, or 1 ever after, for the two controls |
| `Ge.Chain.constructor` | lib/ci_ge.c:74-86 | the chain starts good, with the mixed seed and both thresholds |
| `Ge.Chain.Step` | lib/ci_ge.c:88-108 | the n-th answer is the state after n transitions, so the answers are the vector filled for the same seed |
| `Rule.TrailerRead` | lib/ci_rdp.c:12-24 | a trailer before the CRC32, if there is one, is read back field by field |
| `Rule.TrailerMissing` | lib/ci_rdp.c:12-24 | nothing is read if and only if the packet is shorter than 5 bytes, or 9 with a CRC32 |
| `Rule.RdpKey` | lib/ci_rule.c:68-84 | an RDP packet is keyed by the two bytes of its sequence number; one without a trailer is keyed 0 and changes nothing |
| `Rule.OffsetKey` | lib/ci_dtp.c:3-22 | a data packet is keyed by the fragment its offset lies in |
| `Rule.SynRule` | lib/ci_rule.c:34-50 | a rule for connection requests picks the RDP packets with the SYN bit in their trailer |
| `Rule.ReplayReproduces` | lib/ci_rule.c:99-105 | replaying recorded decisions decides the same again and keeps what was not recorded |
| `Rule.FlowTracker.constructor` | lib/ci_rule.c:52-62 | no packet seen, epoch 0 |
| `Rule.FlowTracker.Index` | lib/ci_rule.c:68-92 | the key of the packet and the tracker after it, with 0 for what cannot be parsed |
| `Rule.FlowTracker.Fragment` | lib/ci_rule.c:86-91 | the fragment index of a packet that is not RDP, 0 when there is none |
| `Shim.DropIface.constructor` | inject/ci_drop_iface.c:63-80 | counters and log empty, identity mode |
| `Shim.DropIface.EnableGe` | inject/ci_drop_iface.c:82-90 | from then on the chain seeded from the rule decides |
| `Shim.DropIface.Send` | inject/ci_drop_iface.c:10-61 | one packet: passed through, freed or forwarded, with counters, log, tracker and chain as the specification says |
| `Shim.Conservation` | inject/ci_drop_iface.c:10-61 | over any run and in both modes each packet has one fate, each counter counts its kind, and the three add up to the packets seen |
| `Shim.LogIsTheRule` | inject/ci_drop_iface.c:31-42 | in identity mode every logged decision is the rule's for the logged index |
| `Shim.LogIsTheFate` | inject/ci_drop_iface.c:35-53 | in both modes each packet in scope has its own log entry under its key, which says dropped if and only if the packet was freed |
| `Shim.LogIsThePacket` | inject/ci_drop_iface.c:35-42 | the rest of the entry: addresses, flags, and for RDP the epoch that makes up the index with the sequence number |
| `Shim.FateIsTheChain` | inject/ci_drop_iface.c:31-60 | in per-attempt mode it is freed if and only if the chain is lossy after as many steps as packets were in scope before it |
| `Shim.FateIsTheRule` | inject/ci_drop_iface.c:31-60 | in identity mode it is freed if and only if the rule drops its key, else forwarded |
| `Shim.NeverBoth` | README.md:54-55 | under any repetition and reordering the packets of one key are all freed or all forwarded |
| `SeqTracker.Tracker.constructor` | lib/ci_meas.c:33-37 | an empty tracker with a clear bitmap |
| `SeqTracker.Tracker.BitSet` | lib/ci_meas.c:24-31 | sets or clears one of the 2048 packed flags and no other |
| `SeqTracker.Tracker.ClearFrom` | lib/ci_meas.c:61-67 | clears the slots of a range of positions |
| `SeqTracker.Tracker.Advance` | lib/ci_meas.c:59-77 | a packet ahead of the head: the newly exposed slots cleared, the head moved, the gap counted |
| `SeqTracker.Tracker.FeedOne` | lib/ci_meas.c:39-88 | the class and the whole new tracker for one packet |
| `SeqTracker.FeedRefines` | lib/ci_meas.c:39-88 | within the window one feed agrees with an unbounded set and keeps agreeing |
| `SeqTracker.BitmapRefinesSet` | lib/ci_meas.c:5-17 | over any run inside the window the circular bitmap is the set of unwrapped positions |
| `SeqTracker.Accounts` | lib/ci_meas.h:31-42 | after every feed, with no hypothesis: seen = distinct + duplicate and span + reorder = distinct + gap |
| `SeqTracker.LossExact` | lib/ci_meas.c:90-96 | the loss is the holes less the packets from below the first, at least 0; it is the holes if and only if there are none of one or the other |
| `SeqTracker.TrustExact` | lib/ci_meas.c:98-109 | trusted if and only if the span is under 64 or at most 7/8 of it looks lost, so always at 30% |
| `Rtt.Pairing.constructor` | lib/ci_meas.c:113-117 | an empty ring |
| `Rtt.Pairing.Data` | lib/ci_meas.c:119-128 | the record is written at the cursor, which moves on and wraps |
| `Rtt.Pairing.Ack` | lib/ci_meas.c:130-147 | the round-trip time found by the newest-first search, that record consumed and no other |
| `Rtt.BackIsSlot` | lib/ci_meas.c:137-137 | the search still names the right slots after the 32-bit cursor has wrapped |
| `Rtt.AckRefines` | lib/ci_meas.c:130-147 | the ring answers as the whole history does |
| `Rtt.RingRefinesHistory` | lib/ci_meas.c:119-147 | after any run the answer is from the newest unpaired record of that number among the last 256 |
| `Rtt.RttExact` | lib/ci_meas.c:130-147 | a reported time is that from a data packet with the acknowledged number, among the last 256, to the acknowledgement |
| `Rtt.NeverPairedTwice` | lib/ci_meas.c:142-142 | no record is paired twice |
| `FlowKey.WrapExact` | lib/ci_rule.c:25-32 | the wrap test is true exactly when a forward step of under 2^15 enters another epoch |
| `FlowKey.KeyExact` | lib/ci_rule.c:68-84 | the key is the true index plus 65536 for each backward step over an epoch boundary so far |
| `FlowKey.KeysTrueIff` | lib/ci_rule.h:64-71 | every packet is keyed truly if and only if there is no such step |
| `FlowKey.RetransmissionChangesKey` | lib/ci_rule.h:64-71 | a retransmission whose key is not the one it had |
| `FlowKey.PositionsTrueIff` | lib/ci_meas.c:55-72 | the monitor places every packet truly if and only if none strays 2^15 from the highest before it |
| `FlowKey.ClassExact` | lib/ci_meas.h:45-47 | within the window the class of a packet is in order, gap, duplicate or reorder by its true index |
| `FlowKey.KeysAgreeIff` | lib/ci_rule.c:68-84 | within 2^15 the two unwrappings agree with the truth, the injector's if and only if no step back crossed a boundary |
| `TwoOracle.BetweenExact` | lib/ci_meas.h:25-27 | the drops between the first and last kept packet are the span less the packets kept |
| `TwoOracle.MonitorCounts` | lib/ci_meas.c:39-88 | fed ascending positions with wraps, the monitor ends at the last of them having counted each once |
| `TwoOracle.LogIsTrue` | inject/ci_drop_iface.c:28-61 | each packet of a stream in order is logged under its true index and passed if and only if logged as kept |
| `TwoOracle.ObservedIsKept` | apm/csp_monitor_apm.c:178-184 | the monitor is fed exactly the kept packets |
| `TwoOracle.StepBehind` | lib/ci_meas.c:55-86 | one packet any distance ahead: how far the monitor falls behind, in turns of the 16-bit circle |
| `TwoOracle.TurnsCounted` | lib/ci_meas.c:39-88 | on ascending positions of any spacing it is behind by no turn if and only if no step is as long as 2^15 |
| `TwoOracle.LossTrueIff` | lib/ci_meas.c:90-96 | its loss is the number of missing positions, and its head the last one, if and only if no step is as long as 2^15 |
| `TwoOracle.LossIsDrops` | lib/ci_meas.c:90-96 | its loss on the kept packets is the number of drops between the first and the last if and only if no 32767 in a row were dropped |
| `TwoOracle.OraclesAgree` | inject/ci_drop_iface.c:28-61 | the monitor's loss equals the logged drops between the first and last packet passed, and its head the last logged index up to the first one's epoch, each if and only if no 32767 packets in a row were dropped between them |
| `TwoOracle.ShortestHiddenRun` | lib/ci_meas.c:55-57 | across 32767 drops in a row between two packets the monitor reports no loss |
| `Bridge.Pumper.Turn` | tests/e2e/ci_inject_bridge.c:264-307 | one frame: discarded as repeat or echo, given to the injector, or sent back, with its one counter |
| `Bridge.NoEchoForwarded` | tests/e2e/ci_inject_bridge.c:250-263 | however often a transport reflects what the bridge sent, no echo is forwarded again, with dedup on or off |
| `Bridge.FramesConserved` | tests/e2e/ci_inject_bridge.c:264-317 | in every reachable state the frames read on each side are the sum of that side's counters |
| `Bridge.CountersExact` | tests/e2e/ci_inject_bridge.c:273-302 | each counter counts the discarded repeats or echoes of its side, or the frames sent back |
| `Bridge.DiscardedIffEcho` | tests/e2e/ci_inject_bridge.c:250-303 | where transports bring only genuine frames and echoes, a frame is discarded if and only if it is an echo or dedup calls it a repeat |

## Left out

What the statements assume:

- Receiver.Manifest: payloads are below 2^32 bytes, as the 32-bit size of the source has it.
- Server.ServeRequest: total plus payload size and the manifest size plus one chunk stay below 2^32, and an mtu
  below 2^16; beyond that the loops of `svu/svu_serve.c` wrap their counters or write past their packets.
- Safety.SafeAgainstServer: the manifest fits in 32 bits (`nblocks * 32 < 2^32`), and the control connection keeps
  order and does not repeat packets.
- Session.ClientRun: the run does not leave defined behaviour; `Control.UndefinedIff` says when it does.
- Wire.Announce: the caller gives a non-legacy announce at least the 8 bytes its header takes.
- FlowKey.KeyExact: at most 2^32 packets, so that the 32-bit epoch does not wrap.
- Injector.ConvergesIff: the control exchange works in every round, the next interface refuses no data packet, and
  what the injector passes arrives in that round, in any order and number, without an idle window before the last
  of it.
- Prng.Threshold: probabilities are exact reals, so the rounding of a double product is not modelled.

What is not modelled:

- Memory allocation failure (also of no bytes, as a wrapped manifest size asks for), exhausted packet buffers and
  null arguments. A blast or a manifest that stops because no buffer is left is a lossy channel here.
- Counters declared 64 bits wide (packets seen, dropped, forwarded, tracker positions) are unbounded numbers.
- Results of writing the output file; only whether it opens.
- Timestamps in the drop log, and the case of no drop log at all: the log is always kept.
- CSP, ZMQ and CAN calls, threads, timeouts, sleeps, pacing and air-time accounting. The drain loop ends because
  every pass but the last consumes packets that were in flight.
- `ci_ge_params`, which turns a mean burst length into probabilities by floating point, and every statistical claim
  about realised loss.
- `proxy/zmqproxy.c`, whose flow index repeats `ci_flow_index`, and its random modes.
- CMP counters, the measurement-suspect flags and the percentage verdicts of the monitor and link commands.
- Command front-ends, option parsing, CSV output, plotting, harness scripts and captures.

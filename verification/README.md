# A verified model of trailryx

trailryx is a store for the records of software agents. It keeps them in per-shard journals that survive crashes,
links them into hash chains, summarises them under tree roots that an external authority timestamps, and hands out
evidence packs that anybody can check. What a customer wants forgotten is forgotten by destroying a key. This project
models the parts of it where a mistake is silent: the arithmetic under a signature, the two crash protocols, the
evidence verifier, the DER codec, the streaming hashes, the calendar, the assembler, the canonical rendering and the
string a storage request is signed over. Code that changes things step by step is an imperative method or a class
here, proved against a function that says what it computes; the properties are proved of that function.

## What is proved

**Arithmetic** (`Limbs`, `LimbBytes`, `Modular`, `BigNum`, `Rsa`). The limb loops are proved to the last carry: rows,
subtraction, doubling, Newton's inverse, Montgomery multiplication, square and multiply. `pow` returns base^e mod n
for every odd modulus up to 256 limbs and every 64-bit exponent, and signature verification is exactly the relation of
section 8.2.2 of RFC 8017 against the one block of section 9.2.

**The journal** (`Record`, `Disk`, `Shards`, `Simulation`). The checksum sees every one-byte change because each bit
step is injective, and it is the published CRC-32. Over a disk that writes short, refuses, fails to flush and keeps
any prefix past the durable bytes when the power goes, the whole simulation loses no acknowledged record in any run,
as long as a flush that reports success is honest. The report is exact: its crashes are the power cuts the
configuration and the words call for, and its violations are the promises those cuts broke, counted one by one; a disk
whose every flush lies is caught at every cut. Nothing is assumed of the random draws: they are a parameter.

**Key custody** (`Hybrid`, `Custody`, `Persisted`). The shared secret binds all six inputs of the combiner, on both
sides and by the places of their bytes, and a wrapped key and a key file are each bound to their id. Runs are
sequences of calls, each with whatever the file system does to it, and power cuts. A reported destruction is final and
a handed-out blob opens until a destruction begins, in every run in which the process dies with a failed flush of the
directory, that is, in which a call that could not flush is followed by a power cut and not by another call
(`DisciplinedDestruction`, `DisciplinedWrap`). In any other run they hold for each call that found no rename of its
own id waiting for a flush (`DestructionHolds`, `WrapHolds`). Beyond that both promises fail:
`RetriedDestroyComesBack` and `RetriedWrapIsLost` are the runs, and `DestroyIsFinal` and `WrapIsKept` say exactly when
a call keeps its promise. The persisted custodian and the one in memory are the same machine.

**Evidence** (`Strings`, `Varint`, `Merkle`, `Sorting`, `Evidence`, `Verifier`, `Chain`). The verifier's report is
free of broken findings if and only if every check holds, and `PackExactly`, `ShardExactly` and `SegmentExactly` say
what holds then without its loops: chains that run on from segment to segment, and trees over them. Two verified packs
with one store root hold the same shards, segments, manifests and records, or two of the strings that were hashed have
one digest. Under the root of a numeric index the records of any range of numbers are one run, and under an index of
names those of any agent or run, so an answer can be shown to be complete. What every digest is over is stated by the
places of its bytes. Collisions are always between strings that were actually hashed; that some collision exists
somewhere is true of every hash and says nothing.

**Codec and timestamps** (`Der`, `Tsp`, `TokenShape`, `Instants`, `DerTime`, `TimeText`, `Dates`). Reader and writer
are exact inverses: tags, lengths, integers and object identifiers have one encoding. A timestamp token is believed if
and only if the pinned key signed attributes that bind the very content the claim is read from, and `BelievedExactly`
says so without a reader, in shapes written as nested values with identifiers spelled out. The texts of RFC 3339 that
are accepted are exactly those written from a counted day, a time of day, a fraction and an offset, and the answer is
what these mean. Both closed forms for dates are counting days, and they undo each other. Times in a token have
several spellings that are read, and one of them is that of DER.

**The rest** (`Hashing`, `Assembly`, `Rendering`, `SharedKey`). Any chunking of a message gives one digest and HMAC is
its formula; causal edges do not depend on the order of a batch; two values are rendered alike exactly when they are
equal up to the order of members; the canonical resource is its declarative form.

## Where the code and its documentation differ

The model follows the code.

- `NotReduced` is for a value at least as large as the modulus (bignum.rs:61-64). Line 124 cuts a wider base to the
  limbs of the modulus before `pow` compares, so some such bases are raised instead. `PowMeetsIntent` gives the exact
  condition and `WideBaseIsNotRefused` a base. RSA verification never reaches it, since a signature has the modulus's
  length.
- `NotOddModulus` is for a modulus of zero and `ModulusTooSmall` for one below three (bignum.rs:54-60); the code calls
  zero too small and two not odd, which is what `Modulus.New` states.
- `inv_2_64` speaks of five steps from three correct bits (bignum.rs:233-234); the loop takes six from one.
- The verifier says that every section must be reached (trailryx_verify.py:535-536), and checks it of segments. A
  record set for no segment is never looked at (`OrphanRecordsPass`, `RecordsAgreeExactly`); the verifier written in
  Rust reports such a set.
- Where a segment is sealed (segment.rs:54-78 of the index crate) and in the verifier in Rust, an index name is hashed
  with the number of its bytes. The Python verifier, which is to compute the same root, takes `len` of the decoded
  text (trailryx_verify.py:160-163) and so the number of its characters. `SealedAgrees` and `SealedRootAgrees` say
  that the two are equal exactly when every name is ASCII, as the names of the dimensions it can key are;
  `AccentedName` is a difference.
- The DER crate enforces the canonical spelling (lib.rs:12-17 of the asn1 crate), but `parse_generalized_time` reads a
  fraction that ends in zero, which section 11.7 of X.690 forbids. `TwoSpellings` is a time read from two texts and
  `DerExactly` says which of them is the one DER allows.
- `varint` of the Python verifier refuses a number wider than 64 bits (trailryx_verify.py:380-381), but only before it
  reads an eleventh byte, so numbers of up to 70 bits are read (`WideNumber`). `SixtyFourBitsExactly` says which. With
  such a sequence number or recording time the conversion to eight bytes (lines 132-139, 476-490) raises an
  `OverflowError`, which nothing turns into a finding; the same goes for a text of the record that is not UTF-8. The
  decoder of this model gives 64-bit fields or a refusal, and such a body is a refusal.
- `destroy` promises a destruction that is on the disk. When an earlier attempt renamed the tombstone and failed to
  flush the directory, the next one finds it and answers `Already` without a flush (persisted.rs:595-600). A `wrap`
  that finds a key pair left by such an attempt is the same.
- `base64_decode` says that it takes one spelling of the bytes (sharedkey.rs:210). It takes padding in any group and
  does not look at unused bits (`LooseSpellings`); `OneStrictSpelling` says which spelling is the encoder's.

## How the source is read

- A precondition is what the source asserts of its callers, or a counter that does not run out: a journal is shorter
  than 2^64 records, a chain shorter than 2^64 links, fewer than 2^124 ids are minted.
- `Simulation.Run` takes runs with at least one shard or no steps; with steps and no shards the source indexes an
  empty vector.
- Random draws, clocks and file-system outcomes are parameters. Hash compressions, the KEM, the key agreement, the
  cipher and the key derivation are parameters too; where their behaviour matters it is stated as ideal.
- Machine widths are explicit: limbs, 128-bit sums, wrapping products, the truncating division of Rust, the checked
  additions of the time parser, the counters of the hashes.

## Model

| member | source | states |
|---|---|---|

| BigNum.Modulus.PowMod | crates/trailryx-anchor/src/bignum.rs:122-152 | Raising to a power by square and multiply over Montgomery limbs returns exactly what the specification says: `TooWide` past 256 limbs, `NotReduced` when the loaded base is not below the modulus, and otherwise base^exponent mod n, big-endian in `byte_len` bytes, for every 64-bit exponent |
| BigNum.Modulus.PowMeetsIntent | crates/trailryx-anchor/src/bignum.rs:122-127 | Refusing every base at or above the modulus, and raising every other, is kept on exactly the bases where the cut to the modulus's limbs does not hide the excess |
| BigNum.WideBaseIsNotRefused | crates/trailryx-anchor/src/bignum.rs:123-127 | A valid modulus, 13, and a base above it, 2^64 + 5, for which the answer is 5 and not a refusal |
| BigNum.Modulus.FittingBaseIsLoadedWhole | crates/trailryx-anchor/src/bignum.rs:122-127 | A base of at most as many bytes as the modulus has limbs' worth loses nothing when it is loaded |
| BigNum.Modulus.PowResidue | crates/trailryx-anchor/src/bignum.rs:135-151 | Into Montgomery form, through the bits of the exponent from the top, and out again is base^exponent mod n |
| BigNum.Modulus.SquareMultiply | crates/trailryx-anchor/src/bignum.rs:142-147 | One pass over an exponent bit squares the number held, multiplied by the base when the bit is set |
| BigNum.Modulus.MontMul | crates/trailryx-anchor/src/bignum.rs:157-204 | For reduced operands the product r is below n and r * 2^(64k) is congruent to a * b mod n: the accumulator stays below 2n, no carry is lost and one subtraction is enough |
| BigNum.ReductionClears | crates/trailryx-anchor/src/bignum.rs:181-183 | The multiplier chosen from the low limb makes that limb vanish, so the shift by a limb is exact |
| BigNum.ReduceOnce | crates/trailryx-anchor/src/bignum.rs:196-203 | The one conditional subtraction brings an accumulator below 2n to the number below n it stands for |
| Limbs.MulAddRow | crates/trailryx-anchor/src/bignum.rs:169-177 | The row t + a * b leaves the carry in the limbs, the top limb and an overflow of at most one, with the value accounted for to the last bit |
| Limbs.FoldRow | crates/trailryx-anchor/src/bignum.rs:181-192 | Adding m * n and dropping the zero limb leaves the exact quotient by 2^64, overflow included |
| Limbs.Compare | crates/trailryx-anchor/src/bignum.rs:249-258 | Comparing limbs from the top is comparing the numbers, in all three answers |
| Limbs.SubInPlace | crates/trailryx-anchor/src/bignum.rs:260-268 | Subtraction with borrow leaves the difference, wrapped once when it is negative |
| Limbs.DoubleInPlace | crates/trailryx-anchor/src/bignum.rs:218-223 | Shifting by one bit leaves twice the number between the limbs and the carry |
| BigNum.DoubleMod | crates/trailryx-anchor/src/bignum.rs:216-227 | One pass of the doubling loop is doubling modulo n |
| BigNum.ComputeR2 | crates/trailryx-anchor/src/bignum.rs:212-229 | 128k doublings of one leave R^2 mod n |
| BigNum.Inv64 | crates/trailryx-anchor/src/bignum.rs:235-247 | Newton's iteration leaves the inverse of any odd number modulo 2^64 |
| BigNum.NewtonStep | crates/trailryx-anchor/src/bignum.rs:244-246 | One step doubles the number of correct bits, from any number of them |
| BigNum.Modulus.New | crates/trailryx-anchor/src/bignum.rs:91-105 | The order of the refusals, and a modulus that stands for exactly the number given and satisfies all the invariants of the arithmetic |
| BigNum.Modulus.ByteLenBounds | crates/trailryx-anchor/src/bignum.rs:112-115 | `byte_len` is the least number of bytes that hold the modulus |
| LimbBytes.FromBeBytes | crates/trailryx-anchor/src/bignum.rs:271-288 | Reading limbs keeps the number, trims them to the least count, and refuses exactly more than 256 limbs |
| LimbBytes.ToBeBytes | crates/trailryx-anchor/src/bignum.rs:290-304 | Writing limbs gives exactly the width asked for, and the number modulo its range |
| LimbBytes.LimbOf | crates/trailryx-anchor/src/bignum.rs:280-286 | A chunk of up to eight bytes is read as the number it spells |
| Rsa.RsaPublicKey.Verify | crates/trailryx-anchor/src/rsa.rs:221-255 | A signature is accepted if and only if the digest has its kind's length, the key is wide enough, the signature has the modulus's length, is below it, and s^e mod n is the number of the one expected block; and which refusal is given when |
| Rsa.RsaPublicKey.AcceptsOneDigest | crates/trailryx-anchor/src/rsa.rs:221-284 | One signature is accepted for one digest of one kind only |
| Rsa.ExpectedBlock | crates/trailryx-anchor/src/rsa.rs:256-278 | The block filled in place is the one of section 9.2 of RFC 8017, or the key is refused as too small |
| Rsa.BlockLayout | crates/trailryx-anchor/src/rsa.rs:256-284 | The block by the places of its octets: zero, one, at least eight of 0xFF, zero, and the DigestInfo to the end |
| Rsa.BlockInjective | crates/trailryx-anchor/src/rsa.rs:256-284 | Two digests, of whatever kinds, have different blocks |
| Rsa.WriteDigestInfo | crates/trailryx-anchor/src/rsa.rs:279-284 | The DigestInfo written by the DER writer is the published prefix of the digest kind and the digest |
| Rsa.FromPkcs1 | crates/trailryx-anchor/src/rsa.rs:186-211 | A key is read from exactly the canonical encodings, and refused for an even exponent or one below three, a small modulus or a bad one, in the order of the source |
| Rsa.Pkcs1Exact | crates/trailryx-anchor/src/rsa.rs:186-211 | A modulus and an exponent are read from one encoding and from no other |
| Rsa.FromSpki | crates/trailryx-anchor/src/rsa.rs:172-185 | The key inside a SubjectPublicKeyInfo is the PKCS#1 key in its bit string, under the RSA algorithm only |
| TokenShape.SpkiExactly | crates/trailryx-anchor/src/rsa.rs:172-185 | The key is taken out of exactly the strings that are a SubjectPublicKeyInfo of rsaEncryption, by its identifier, around a bit string of whole bytes |
| TokenShape.NotRsaExactly | crates/trailryx-anchor/src/rsa.rs:175-178 | A key is said to be of another kind exactly when its algorithm can be read and is another one |
| Simulation.Run | crates/trailryx-core/src/sim.rs:93-214 | For every configuration and all words drawn: the crashes of the report are the power cuts that were taken, one in exactly the steps the configuration or the word drawn says, and its violations are the promises those cuts broke, one for each shard and cut whose surviving bytes were fewer than its acknowledged records take; none while no flush lies, at least one a power cut on a disk whose every flush lies, and without faults or cuts the totals are those of the turns the words gave each shard and of what a flush every `sync_every` records covers |
| Simulation.LyingDisk | crates/trailryx-core/src/sim.rs:158-182 | A run over a disk that lies about its flush: one record is acknowledged, the power cut keeps none of its bytes, and the report counts one crash and one violation |
| Simulation.Broken | crates/trailryx-core/src/sim.rs:159-181 | A power cut breaks no promise when everything acknowledged is durable, and does when nothing is durable and the words keep nothing more |
| Simulation.AllLostBound | crates/trailryx-core/src/sim.rs:166-181 | No run counts more violations than power cuts times shards |
| Simulation.NextFlush | crates/trailryx-core/src/shard.rs:213-235 | One record more is covered by a flush when it makes `sync_every` of them, and waits otherwise |
| Simulation.Steps | crates/trailryx-core/src/sim.rs:121-198 | The whole loop keeps the fleet and the books: every file holds its shard's records, every crash is one the words call for, and the violations are the sum over the cuts of what each broke |
| Simulation.Step | crates/trailryx-core/src/sim.rs:121-198 | One pass has the shard of the word take its turn, cuts the power when the step or the next word says so, and then counts one crash and adds what it broke |
| Simulation.Outage | crates/trailryx-core/src/sim.rs:158-197 | A crash and the recovery after it: what was kept of each file is what the words say, the violations are the shards whose promise is not covered by it, none on an honest disk and some on a doomed one, and the fleet is on track again with nobody ahead of before |
| Simulation.CrashAll | crates/trailryx-core/src/sim.rs:158-197 | Each file is cut to what the words drawn for it leave, every shard recovers in order, and one violation is counted for each whose acknowledged records were cut off |
| Simulation.RecoverAll | crates/trailryx-core/src/sim.rs:166-196 | The recovery loop counts as violations exactly the shards whose acknowledged records were cut off |
| Simulation.BringBack | crates/trailryx-core/src/sim.rs:167-181 | One shard is a violation exactly when fewer bytes were kept than its promise takes |
| Simulation.NothingLost | crates/trailryx-core/src/sim.rs:178-180 | The count of violations is zero exactly when every shard kept what it promised, and never more than one a shard |
| Simulation.CrashLeavesCut | crates/trailryx-core/src/sim.rs:163-173 | What a crash leaves of a tracked file is a prefix of a clean journal, so the order invariant cannot trip |
| Simulation.RecoverShard | crates/trailryx-core/src/sim.rs:166-177 | A cut shard comes back at the last whole record, which is durable, its watermark is lowered to it, and one more recovery is counted |
| Simulation.FleetTurn | crates/trailryx-core/src/sim.rs:125-140 | One shard's turn leaves every other shard and file alone |
| Simulation.RunShard | crates/trailryx-core/src/sim.rs:125-140 | The chosen shard writes one record or none and the others nothing, and one when nothing fails |
| Simulation.CrashNow | crates/trailryx-core/src/sim.rs:155-156 | A crash happens at the configured step without a draw, and otherwise exactly when the next word drawn is a hit for the configured rate |
| Simulation.OpenAll | crates/trailryx-core/src/sim.rs:108-118 | Every shard starts on an empty file of its own |
| Simulation.Open | crates/trailryx-core/src/shard.rs:54-95 | Opening a new journal creates and recovers an empty file, and fails only when there is no room |
| Simulation.FleetTotals | crates/trailryx-core/src/sim.rs:200-213 | What the invariant of the loop says about the totals of the report: without faults a record for every turn, and acknowledged all but the rest of each count by the flush interval |
| Simulation.Total | crates/trailryx-core/src/sim.rs:210-212 | The totals are sums over the shards |
| Shards.Shard.Tick | crates/trailryx-core/src/shard.rs:193-247 | A tick finishes the outstanding record before it starts another, flushes exactly when due, and acknowledges everything written on exactly a successful flush; an honest disk then holds every acknowledged byte durably |
| Shards.Shard.PushPending | crates/trailryx-core/src/shard.rs:144-190 | The outstanding record lands whole or goes on from where it stopped |
| Shards.Shard.PushOnce | crates/trailryx-core/src/shard.rs:154-177 | One append moves the outstanding record on or stalls it, and touches nothing else |
| Shards.Shard.StartRecord | crates/trailryx-core/src/shard.rs:205-210 | A new record is started only when none is outstanding |
| Shards.Shard.FinishRecord | crates/trailryx-core/src/shard.rs:179-189 | A record whose bytes all landed is counted once |
| Shards.Shard.SyncIfDue | crates/trailryx-core/src/shard.rs:213-235 | The watermark moves on exactly a successful flush, and then to everything written |
| Shards.Shard.Recover | crates/trailryx-core/src/shard.rs:97-135 | Recovery of any cut journal finds its whole records, truncates the torn tail away, and lowers the watermark to what is there |
| Shards.Shard.Adopt | crates/trailryx-core/src/shard.rs:128-133 | What the shard remembers after a recovery |
| Shards.CutJournalRecovers | crates/trailryx-core/src/shard.rs:107-121 | Any cut of a clean journal reads back as its whole records, in order |
| Record.Crc32 | crates/trailryx-core/src/record.rs:16-26 | The checksum loop over an unsigned 32-bit word computes the shift register of the specification |
| Record.CrcSeesOneByte | crates/trailryx-core/src/record.rs:16-26 | Changing any one byte of any input changes the checksum |
| Record.CheckValue | crates/trailryx-core/src/record.rs:16-26 | The checksum over the digits one to nine is the published check value of CRC-32 |
| Record.BitStepInjective | crates/trailryx-core/src/record.rs:19-23 | One bit step of the shift register loses nothing |
| Record.EncodeRecord | crates/trailryx-core/src/record.rs:28-36 | The record is the magic byte, the sequence number and the checksum, least byte first |
| Record.WellFormedExactly | crates/trailryx-core/src/record.rs:53-83 | A 13-byte string passes the checks if and only if it is the encoding of the number it carries |
| Record.OneByteBreaksRecord | crates/trailryx-core/src/record.rs:53-83 | An encoding with any one byte altered passes no check |
| Record.Recover | crates/trailryx-core/src/record.rs:53-83 | The reading loop returns what walking the records one at a time does |
| Record.PrefixRecovers | crates/trailryx-core/src/record.rs:53-83 | Of any p-byte prefix of records 1 to n, p div 13 are recovered, the rest is torn, and nothing is out of order |
| Record.CorruptionStops | crates/trailryx-core/src/record.rs:53-83 | Altering any one byte of record j stops the recovery at exactly j-1, not out of order |
| Disk.SimIo.constructor | crates/trailryx-sim/src/io.rs:134-144 | A disk starts without files |
| Disk.SimIo.Create | crates/trailryx-sim/src/io.rs:185-198 | A name is created once, and opened after that |
| Disk.SimIo.Append | crates/trailryx-sim/src/io.rs:199-222 | Which prefix of the data is accepted, or which refusal is given, as the words drawn say: all of it, a part below its length when the second chance hits, or none |
| Disk.SimIo.Fsync | crates/trailryx-sim/src/io.rs:223-244 | The first chance says whether the flush lies and the second whether it fails: an honest success makes all the bytes durable and nothing else changes a file; a file that does not exist is not found unless the flush lies or fails |
| Disk.SimIo.Truncate | crates/trailryx-sim/src/io.rs:245-259 | The contents are cut, and no durable byte before the cut is lost; a file that does not exist is not found |
| Disk.SimIo.ReadAll | crates/trailryx-sim/src/io.rs:260-267 | Reading gives the durable bytes and then the others, or that there is no such file |
| Disk.SimIo.Crash | crates/trailryx-sim/src/io.rs:146-161 | A crash keeps of each file the durable bytes and as many of the others as its word says, the files in order and one word for each that has others |
| Disk.SimIo.EveryCut | crates/trailryx-sim/src/io.rs:146-161 | Any number of the bytes that are not durable can be what a crash keeps |
| Disk.SimIo.DirtyCounted | crates/trailryx-sim/src/io.rs:146-161 | The words a crash has drawn before a file are as many as the files before it with bytes to lose |
| Disk.SimIo.ShortExactly | crates/trailryx-sim/src/io.rs:199-220 | An append is short exactly when its second chance hits and there is more than one byte |
| Disk.SimRng.Below | crates/trailryx-sim/src/rng.rs:15-17 | A draw below n is the next word modulo n, and zero without a draw when n is zero |
| Disk.SimRng.ChancePpm | crates/trailryx-sim/src/rng.rs:20-25 | A hit exactly when the next word modulo a million is below the rate; a rate of zero draws nothing and never hits |
| Disk.HitRate | crates/trailryx-sim/src/rng.rs:20-25 | A rate is that many words in every million |
| Persisted.DestructionHolds | crates/trailryx-crypto-aws/src/persisted.rs:595-615 | In every run of calls, power cuts and restarts, once a destruction has been reported `Now`, or `Already` when no rename of that id was waiting for a flush, nothing under that id is wrapped or opened again |
| Persisted.WrapHolds | crates/trailryx-crypto-aws/src/persisted.rs:509-593 | In every run from files that hold matching halves, a blob that was handed out when no rename of its id was waiting for a flush opens to its key until a destruction of that id begins |
| Persisted.DisciplineFlushes | crates/trailryx-crypto-aws/src/persisted.rs:685-704 | From a flushed directory, in a run where every call that answered `Unavailable` after a failed flush is followed by a power cut, no call finds a rename waiting for a flush |
| Persisted.StepFlushes | crates/trailryx-crypto-aws/src/persisted.rs:495-615 | On a flushed directory a call leaves it flushed or is one whose flush failed, and a power cut leaves any directory flushed |
| Persisted.DisciplinedDestruction | crates/trailryx-crypto-aws/src/persisted.rs:595-615 | When the process dies with a failed flush, every reported destruction is final, whatever the report said |
| Persisted.DisciplinedWrap | crates/trailryx-crypto-aws/src/persisted.rs:509-593 | When the process dies with a failed flush, every blob that was handed out opens to its key until a destruction of its id begins |
| Persisted.DestroyIsFinal | crates/trailryx-crypto-aws/src/persisted.rs:595-615 | A reported destruction bars the id for good exactly when it was not `Already` found over a tombstone that is not yet durable |
| Persisted.RetriedDestroyComesBack | crates/trailryx-crypto-aws/src/persisted.rs:595-600 | A run in which a destruction fails to flush, is retried and answered `Already`, and after a power cut the key opens again |
| Persisted.RetriedWrapIsLost | crates/trailryx-crypto-aws/src/persisted.rs:509-545 | A run in which a wrap fails to flush its new key, is retried with success, and after a power cut the blob does not open |
| Persisted.WrapIsKept | crates/trailryx-crypto-aws/src/persisted.rs:509-545 | A successful wrap leaves the key kept exactly when it did not find a key pair that is not yet durable |
| Persisted.BarredForever | crates/trailryx-crypto-aws/src/persisted.rs:509-615 | A barred id stays barred through any events, and no answer about it opens anything |
| Persisted.UnbarredReopens | crates/trailryx-crypto-aws/src/persisted.rs:509-615 | An id that is not barred can be wrapped under, at once or after a power cut, so barred is no more than is needed |
| Persisted.KeptUntilDestroy | crates/trailryx-crypto-aws/src/persisted.rs:552-593 | A kept key stays kept through any events but its destruction, and answers every readable unwrap |
| Persisted.SameMachine | crates/trailryx-crypto-aws/src/persisted.rs:509-615 | Over any untroubled calls the persisted custodian answers what the in-memory one does |
| Persisted.SameFromTheStart | crates/trailryx-crypto-aws/src/persisted.rs:509-615 | So an empty directory and a custodian without keys answer any untroubled calls alike |
| Persisted.ServeMirrors | crates/trailryx-crypto-aws/src/persisted.rs:509-615 | One untroubled call keeps the two machines in step: absent, live or destroyed together |
| Persisted.CallStates | crates/trailryx-crypto-aws/src/persisted.rs:424-615 | A call touches its own id only, and moves it only from absent to live or to destroyed |
| Persisted.CrashStates | crates/trailryx-crypto-aws/src/persisted.rs:685-704 | A power cut leaves of each file its durable state or its current one |
| Persisted.PutStates | crates/trailryx-crypto-aws/src/persisted.rs:495-499 | Writing a file leaves the old state or the new one, on both sides of the flush, and no other file touched |
| Persisted.FlushReachesAll | crates/trailryx-crypto-aws/src/persisted.rs:685-704 | A file that is put with success leaves no rename of any id waiting for a flush |
| Persisted.EncodedState | crates/trailryx-crypto-aws/src/persisted.rs:424-442 | A file that was written reads back as the state it was written for |
| Persisted.DecodeEncode | crates/trailryx-crypto-aws/src/persisted.rs:445-492 | Opening a sealed key file gives the kind and the body that were sealed |
| Persisted.FileLayout | crates/trailryx-crypto-aws/src/persisted.rs:445-472 | A key file by the places of its bytes: magic, version, nonce, and the kind with the body sealed for its id; made whenever a key can be derived and a nonce drawn |
| Persisted.FileIsOfItsId | crates/trailryx-crypto-aws/src/persisted.rs:622-634 | Under a cipher bound to its associated data, a key file renamed onto another id is unusable there |
| Persisted.KindsOnDisk | crates/trailryx-crypto-aws/src/persisted.rs:424-442 | Kind one is a live key when its body parses, kind two is a tombstone, and no other byte is either |
| Persisted.ThereIsNotAbsent | crates/trailryx-crypto-aws/src/persisted.rs:424-442 | A file that is there is never taken for one that is not, whatever its bytes |
| Persisted.Directory.CommitFile | crates/trailryx-crypto-aws/src/persisted.rs:685-704 | Temporary, flush, rename, directory flush tried twice: how far it gets is what the failures of these operations say, the file is replaced whole or not at all, success is reported exactly when the rename is durable, and no name ever holds unflushed bytes |
| Persisted.Directory.PowerCut | crates/trailryx-crypto-aws/src/persisted.rs:685-704 | The unflushed entries fall to the old side or the new one, whole |
| Persisted.PersistedKeyProvider.Look | crates/trailryx-crypto-aws/src/persisted.rs:424-442 | Only a file that is not there says `Absent`; one that cannot be read or opened is unusable, and it cannot be read exactly when the read fails |
| Persisted.PersistedKeyProvider.PutFile | crates/trailryx-crypto-aws/src/persisted.rs:495-499 | The file is sealed under its id and committed |
| Persisted.PersistedKeyProvider.Wrap | crates/trailryx-crypto-aws/src/persisted.rs:509-545 | A wrap moves the files and answers as its event does, which is the call with the failures its operations met: the key file is durable before a blob leaves |
| Persisted.PersistedKeyProvider.Unwrap | crates/trailryx-crypto-aws/src/persisted.rs:552-593 | An unwrap changes nothing and answers as its event does |
| Persisted.PersistedKeyProvider.Destroy | crates/trailryx-crypto-aws/src/persisted.rs:595-615 | A destruction moves the files and answers as its event does, which is the call with the failures its operations met: the tombstone is durable before `Now` |
| Custody.HybridKeyProvider.constructor | crates/trailryx-crypto-aws/src/custody.rs:121-127 | A custodian starts with no keys and no tombstones |
| Custody.HybridKeyProvider.Wrap | crates/trailryx-crypto-aws/src/custody.rs:136-174 | Mints on first use, refuses a destroyed id, and answers as the in-memory machine does |
| Custody.HybridKeyProvider.Unwrap | crates/trailryx-crypto-aws/src/custody.rs:176-202 | Opens only under a live id, by the layout of the blob, changing nothing |
| Custody.HybridKeyProvider.Destroy | crates/trailryx-crypto-aws/src/custody.rs:204-215 | `Now` for a live key, `Already` otherwise, and always a tombstone |
| Custody.ExistsExactly | crates/trailryx-crypto-aws/src/custody.rs:136-219 | After any calls an id exists if and only if one of them wrapped under it with a key pair to draw and none of them destroyed it, before or after |
| Custody.BlobOpens | crates/trailryx-crypto-aws/src/custody.rs:136-202 | Unwrapping what was wrapped for a recipient gives the key back |
| Custody.BlobLayout | crates/trailryx-crypto-aws/src/custody.rs:136-174 | A wrapped key by the places of its bytes: version, ciphertext, nonce, and the key sealed under the shared secret for its id; made whenever the primitives answer |
| Custody.OpensExactly | crates/trailryx-crypto-aws/src/custody.rs:176-202 | What opens is a blob of version one that is long enough, whose ciphertext gives a secret under which the rest opens for this id; everything else is rejected |
| Custody.BlobIsOfItsId | crates/trailryx-crypto-aws/src/custody.rs:136-202 | Under a cipher bound to its associated data, a key wrapped under one id does not open under another, whoever holds it |
| Hybrid.SidesAgree | crates/trailryx-crypto-aws/src/hybrid.rs:448-499 | Over an ideal exchange and an ideal encapsulation, the two sides derive one secret, and the ciphertext has 1120 bytes |
| Hybrid.CombineDecides | crates/trailryx-crypto-aws/src/hybrid.rs:183-215 | Under a derivation whose answers can be told apart, one combined key comes from one set of inputs: all six are bound, the post-quantum secret first |
| Hybrid.CombineLayout | crates/trailryx-crypto-aws/src/hybrid.rs:183-215 | What the combiner derives from, by the places of its bytes: the ML-KEM secret in 0..32, the X25519 secret in 32..64, both ciphertexts to 1184, both public keys to 2400, and the label |
| Hybrid.SentSecret | crates/trailryx-crypto-aws/src/hybrid.rs:470-499 | The sender's secret is derived from the secret its encapsulation made, the secret agreed with the classical key, everything sent and the public key it was sent to |
| Hybrid.ReceivedSecret | crates/trailryx-crypto-aws/src/hybrid.rs:448-465 | The recipient's secret is derived from what both of its private halves make of the ciphertext, the ciphertext, and its own public key |
| Hybrid.SharedSecretDecides | crates/trailryx-crypto-aws/src/hybrid.rs:448-499 | A sender and a recipient with one secret agree on both secrets, the whole ciphertext and the whole public key |
| Hybrid.ReceivedSecretDecides | crates/trailryx-crypto-aws/src/hybrid.rs:448-465 | Two ciphertexts give one secret only when they are one ciphertext to one public key |
| Hybrid.RefusalsAreNamed | crates/trailryx-crypto-aws/src/hybrid.rs:448-499 | Nothing but a wrong length and the refusal of a primitive keeps either side from its secret |
| Hybrid.FillSecret | crates/trailryx-crypto-aws/src/hybrid.rs:383-398 | The buffer filled part by part is the layout of the secret, or refused when a part has another length |
| Hybrid.SecretRoundTrip | crates/trailryx-crypto-aws/src/hybrid.rs:383-418 | A stored secret reads back as a recipient if and only if it is what that recipient writes and its key parses |
| Hybrid.SecretReadsBack | crates/trailryx-crypto-aws/src/hybrid.rs:383-418 | A written recipient is read back whole, or refused when its key does not parse |
| Verifier.Verify | verifier-py/trailryx_verify.py:521-642 | A pack has no BROKEN finding if and only if it checks out in the sense of `PackExactly`, and every segment under a listed shard is counted as checked |
| Evidence.StoreRootDecides | verifier-py/trailryx_verify.py:521-642 | Two verified packs with one store root hold the same shards, segments and manifests, and the same records of every segment both carry records for, or two strings that were hashed collide |
| Evidence.RecordsAgreeExactly | verifier-py/trailryx_verify.py:529-545 | Packs that agree on every shard have the same record sets exactly when they carry sets for the same segments and agree on the sets no segment reaches |
| Evidence.OrphanRecordsPass | verifier-py/trailryx_verify.py:533-545 | Adding a record set for a segment that is not there leaves verified evidence verified |
| Evidence.RootDecidesShards | verifier-py/trailryx_verify.py:553-603 | The store root pins down the shard list |
| Evidence.ShardDecides | verifier-py/trailryx_verify.py:564-597 | A shard's root pins down its segments and their manifests |
| Evidence.SegmentDecides | verifier-py/trailryx_verify.py:645-690 | A segment's manifest pins down its record bodies, in order |
| Evidence.LinksDecide | verifier-py/trailryx_verify.py:654-670 | The links of a chain pin down its records, their order and, if there are any, where it started |
| Evidence.ChainPreimageDecides | verifier-py/trailryx_verify.py:132-139 | What a link is hashed from determines the link before, the number and the body |
| Evidence.ChainLayout | verifier-py/trailryx_verify.py:132-139 | What a link is hashed from, by the places of its bytes |
| Evidence.ManifestPreimageDecides | verifier-py/trailryx_verify.py:148-167 | What a manifest is hashed from determines every field of it, names of any characters included |
| Evidence.ManifestLayout | verifier-py/trailryx_verify.py:148-167 | What a manifest is hashed from, by the places of its bytes: every field at its own |
| Evidence.RootsBytesDecide | verifier-py/trailryx_verify.py:160-163 | The index roots of a manifest can be told apart by the numbers of characters in their names, whatever the characters |
| Evidence.RootLayout | verifier-py/trailryx_verify.py:160-163 | An index root in a manifest by the places of its bytes |
| Evidence.SealedAgrees | verifier-py/trailryx_verify.py:160-163 | This verifier hashes what was sealed, which counts the bytes of a name, if and only if every index name of the manifest is ASCII |
| Evidence.SealedRootAgrees | verifier-py/trailryx_verify.py:587-593 | A sealed shard root is the one this verifier computes if and only if every index name of the shard is ASCII, or two strings that were hashed collide |
| Evidence.AccentedName | verifier-py/trailryx_verify.py:160-163 | One accented letter is counted as one here and as two where it was sealed, and the two preimages differ |
| Evidence.KnownIsAscii | verifier-py/trailryx_verify.py:476-490 | Every dimension this verifier can key is named in ASCII, so its indexes are hashed as they were sealed |
| Strings.TextDecides | verifier-py/trailryx_verify.py:220-225 | A text and what follows it can be told apart in UTF-8 once the number of characters is known |
| Strings.ByteCount | verifier-py/trailryx_verify.py:161-162 | A text has as many bytes as characters exactly when it is ASCII, and never fewer |
| Varint.ReadVarint | verifier-py/trailryx_verify.py:375-385 | The shifting loop reads the number of the bytes up to the first that ends it, refuses more than ten, and refuses a string that stops |
| Varint.RefusalsExactly | verifier-py/trailryx_verify.py:375-385 | Too wide exactly when ten bytes say that another follows, truncated exactly when fewer are there and all say so |
| Varint.WrittenReadsBack | verifier-py/trailryx_verify.py:375-385 | Any number of up to 70 bits, written seven bits a byte, is read back whatever follows it |
| Varint.SixtyFourBitsExactly | verifier-py/trailryx_verify.py:375-385 | A number that is read has up to 70 bits, and no more than 64 if and only if it took fewer than ten bytes or its tenth is zero or one |
| Varint.WideNumber | verifier-py/trailryx_verify.py:380-381 | Ten bytes that are read as 2^64 |
| Evidence.ShardPreimageDecides | verifier-py/trailryx_verify.py:170-178 | What a shard leaf is hashed from determines the shard, the count and the root |
| Evidence.ShardLayout | verifier-py/trailryx_verify.py:170-178 | What a shard leaf is hashed from, by the places of its bytes |
| Evidence.EntryLayout | verifier-py/trailryx_verify.py:142-145 | What an index leaf is hashed from, by the places of its bytes |
| Evidence.SegmentExactly | verifier-py/trailryx_verify.py:645-747 | A segment checks out exactly when there is a chain of as many records as it says from the head before it to the head after it, the records numbered from one, the tree over its links the history root, and every index in order |
| Evidence.ShardExactly | verifier-py/trailryx_verify.py:554-594 | With different segment numbers, a shard checks out exactly when its segments lined up by number are as many as it says, each starts at the head the one before left, their tree has its root, and those with records check out |
| Evidence.SegmentsInOrder | verifier-py/trailryx_verify.py:555 | The segments of a shard are taken by number, and those with one number in the order they came |
| Evidence.StoreExactly | verifier-py/trailryx_verify.py:554-598 | The leaves under a store root are the shards lined up by number, each with the count of its segments and its root |
| Evidence.PackExactly | verifier-py/trailryx_verify.py:521-642 | A pack checks out exactly when no two record sets are for one segment, every segment names a listed shard, the list is as long as the header says, every shard checks out, the tree over them has the store root and every anchor is over it |
| Evidence.IndexIsOfTheOneArrangement | verifier-py/trailryx_verify.py:713-747 | In a segment that checks out, a recognised index is the tree over the only strictly ascending arrangement of one entry per record |
| Evidence.EntriesApart | verifier-py/trailryx_verify.py:713-726 | Contiguous sequence numbers keep any two index entries apart |
| Evidence.RangeIsComplete | verifier-py/trailryx_verify.py:476-490 | In a segment that checks out, the tree under a numeric index holds exactly the records whose number is in a range as one contiguous run, with smaller numbers before it and greater ones after it, for every range |
| Evidence.NameIsComplete | verifier-py/trailryx_verify.py:476-490 | In a segment that checks out, for any name, the tree under an `agent_id` index holds exactly the records of that agent as one contiguous run, and that under a `run_id` index those of that run |
| Evidence.EntryIsOfItsRecord | verifier-py/trailryx_verify.py:713-726 | An entry carries its record's number and the link at it |
| Evidence.RangeIsOneRun | verifier-py/trailryx_verify.py:729-740 | In any strictly ascending entries the keys of any byte range are one contiguous run, with smaller keys before it and greater keys after it |
| Sorting.PrecedesIsNumeric | verifier-py/trailryx_verify.py:476-497 | Byte order on big-endian keys of one length is the order of the numbers |
| Sorting.OneArrangement | verifier-py/trailryx_verify.py:729 | A collection has one strictly ascending arrangement |
| Sorting.SortedIsStable | verifier-py/trailryx_verify.py:554-555 | Sorting keeps the order of values that tie |
| Sorting.SortedWeak | verifier-py/trailryx_verify.py:554-555 | Sorting puts no value before a lesser one, ties or not |
| Merkle.MerkleRoot | verifier-py/trailryx_verify.py:97-129 | The stack and the dictionary compute the tree hash of section 2.1 of RFC 6962 for every list of leaves, and visit exactly 2n-1 spans |
| Merkle.ListSpans | verifier-py/trailryx_verify.py:103-117 | The stack lists exactly 2n-1 spans, each before the two it splits into, so that both are always computed when they are wanted |
| Merkle.FindSplit | verifier-py/trailryx_verify.py:110-114 | The doubling loop finds the split point |
| Merkle.SplitPointIsPower | verifier-py/trailryx_verify.py:110-114 | The split point is a power of two |
| Merkle.RootIsTreeHash | verifier-py/trailryx_verify.py:97-129 | The root over hashed leaves is the recursive tree hash over the entries |
| Merkle.ThreeEntries | verifier-py/trailryx_verify.py:97-129 | The tree over up to three entries written out: leaves start with zero, nodes with one, and three split two and one |
| Merkle.RootDecides | verifier-py/trailryx_verify.py:87-129 | The root pins down the entries and their count, whatever the two lengths |
| Verifier.CheckSegment | verifier-py/trailryx_verify.py:645-756 | No finding if and only if the count, the decoding, the chain, the history root, the sequence 1 to n and every recognised index hold |
| Verifier.ChainRecords | verifier-py/trailryx_verify.py:654-670 | The links are those of the chain, and a record that does not decode stops it |
| Verifier.CheckChain | verifier-py/trailryx_verify.py:672-683 | The two ways the chain is compared with the head say one thing |
| Verifier.CheckSequence | verifier-py/trailryx_verify.py:702-711 | No finding if and only if the numbers are exactly 1 to n |
| Verifier.BuildEntries | verifier-py/trailryx_verify.py:714-728 | One entry a record, or none for a dimension that is not known |
| Verifier.HasRepeat | verifier-py/trailryx_verify.py:732-739 | Reports exactly two neighbours with one key and one number |
| Verifier.CheckIndex | verifier-py/trailryx_verify.py:713-747 | No finding if and only if the index is the tree over the sorted entries |
| Verifier.CheckIndexes | verifier-py/trailryx_verify.py:713-747 | All the indexes of a segment |
| Verifier.CheckSegments | verifier-py/trailryx_verify.py:565-585 | Every segment with records is checked, and every one goes on where the one before stopped |
| Verifier.CheckShard | verifier-py/trailryx_verify.py:555-593 | No finding if and only if the count, the segments and the root of a shard hold |
| Verifier.CheckShards | verifier-py/trailryx_verify.py:553-596 | Every shard, in order of its number, and the leaf of each |
| Verifier.CheckListed | verifier-py/trailryx_verify.py:537-545 | No finding if and only if every segment is under a listed shard |
| Verifier.CheckAnchors | verifier-py/trailryx_verify.py:627-640 | No finding if and only if every anchor is over the store root |
| Verifier.GroupByShard | verifier-py/trailryx_verify.py:526-528 | The dictionary holds each shard's segments in the order they came |
| Verifier.MapRecords | verifier-py/trailryx_verify.py:529-531 | The later of two record sets for one segment is the one that counts |
| Verifier.MapSize | verifier-py/trailryx_verify.py:532-533 | The dictionary is as long as the list exactly when no two sets are for one segment |
| Chain.ChainState.constructor | crates/trailryx-crypto/src/chain.rs:64-66 | A chain resumes at any head and length |
| Chain.ChainState.Append | crates/trailryx-crypto/src/chain.rs:77-82 | A record is numbered one past the length and linked to the head, which moves on |
| Chain.WriterAgrees | crates/trailryx-crypto/src/chain.rs:77-82 | The head a writer leaves is the one the verifier computes from the records |
| Chain.LinkVouchesForOne | crates/trailryx-crypto/src/chain.rs:85-87 | A link verifies against one predecessor, number and record, or two strings collide |
| Der.SplitTlv | crates/trailryx-asn1/src/lib.rs:378-426 | The length loop reads what the specification reads, and refuses with the same error |
| Der.SplitAcceptsExactly | crates/trailryx-asn1/src/lib.rs:378-426 | A tag, contents and a rest are read if and only if the input is that TLV, written minimally, and that rest |
| Der.SplitRoundTrip | crates/trailryx-asn1/src/lib.rs:378-426 | Reading what was written gives back the tag, the contents and the rest |
| Der.SplitCanonical | crates/trailryx-asn1/src/lib.rs:378-426 | Everything accepted is what the writer writes |
| Der.SplitRefusals | crates/trailryx-asn1/src/lib.rs:378-426 | Which refusal is for what: a high tag number, an indefinite length, one of more than eight bytes, one that is longer than it needs; everything else is truncated |
| Der.CutIsTruncated | crates/trailryx-asn1/src/lib.rs:378-426 | What is refused and can be completed is truncated |
| Der.NoProperPrefixIsAccepted | crates/trailryx-asn1/src/lib.rs:378-426 | A TLV cut short anywhere is refused as truncated |
| Der.TlvUnique | crates/trailryx-asn1/src/lib.rs:538-560 | What is written can be read in one way only |
| Der.WriteLength | crates/trailryx-asn1/src/lib.rs:546-560 | The length is written in the least number of bytes |
| Der.WriteTlv | crates/trailryx-asn1/src/lib.rs:538-545 | Tag, length and contents |
| Der.MagnitudeExact | crates/trailryx-asn1/src/lib.rs:427-438 | A magnitude is read from its one minimal spelling, with a sign byte exactly when it needs one |
| Der.Value64Exact | crates/trailryx-asn1/src/lib.rs:242-257 | A 64-bit number is read from the one body the writer gives it |
| Der.Integer64Exact | crates/trailryx-asn1/src/lib.rs:242-257 | A 64-bit INTEGER is read if and only if the writer wrote it, and the rest is what follows |
| Der.WriteInteger64 | crates/trailryx-asn1/src/lib.rs:584-593 | The writer's INTEGER is that spelling |
| Der.MagnitudeReadExactly | crates/trailryx-asn1/src/lib.rs:264-276 | A magnitude of any width is read if and only if it is written canonically |
| Der.ValidateOid | crates/trailryx-asn1/src/lib.rs:440-459 | Exactly the bodies whose every arc ends, with no padded arc, are object identifiers |
| Der.OidContentsExactly | crates/trailryx-asn1/src/lib.rs:440-459 | The contents that pass are exactly the encodings of lists of numbers, each in its least count of octets |
| Der.TakeExact | crates/trailryx-asn1/src/lib.rs:175-187 | A value is taken under a tag if and only if the input starts with its TLV |
| Der.Reader.TakeBody | crates/trailryx-asn1/src/lib.rs:175-187 | The cursor moves past the value, or stays where it was |
| Der.Reader.TakeAny | crates/trailryx-asn1/src/lib.rs:188-195 | As above, under any tag |
| Der.Reader.TakeNested | crates/trailryx-asn1/src/lib.rs:196-212 | The inner cursor covers exactly the contents, one level deeper, and the sixteenth level is the last |
| Der.Reader.TakeRaw | crates/trailryx-asn1/src/lib.rs:213-221 | The bytes handed out are the bytes that arrived |
| Der.Reader.SkipIf | crates/trailryx-asn1/src/lib.rs:229-240 | Only a value under the tag asked for is skipped |
| Der.Reader.Integer64 | crates/trailryx-asn1/src/lib.rs:242-257 | The number of the canonical INTEGER at the cursor, or its refusal |
| Der.Reader.IntegerBytes | crates/trailryx-asn1/src/lib.rs:264-276 | The magnitude of the canonical INTEGER at the cursor, or its refusal |
| Der.Reader.Oid | crates/trailryx-asn1/src/lib.rs:298-302 | The object identifier at the cursor, or its refusal |
| Der.Reader.AlgorithmIdentifier | crates/trailryx-asn1/src/lib.rs:309-324 | An identifier, optional parameters and nothing more |
| Der.Reader.BitString | crates/trailryx-asn1/src/lib.rs:325-340 | A bit string with no unused bits |
| Tsp.Attest | crates/trailryx-anchor/src/tsp.rs:290-296 | A token is believed if and only if the pinned key signed the attributes under the tag SET OF, exactly one message digest among them is the digest of the content, exactly one content type names TSTInfo, and the content is a claim; the claim returned is read from that very content, and a refusal is that of the first step that fails |
| TokenShape.BelievedExactly | crates/trailryx-anchor/src/tsp.rs:290-296 | The believed tokens, without a reader: exactly those of the nested shapes of a content, a signer and a claim, whose attributes bind the digest of that content and whose signature is the key's over the attributes under the tag of a SET; what is returned is that claim and that digest |
| TokenShape.SignedUnderSet | crates/trailryx-anchor/src/tsp.rs:498-503 | The string that is signed starts with the octet 0x31 and is otherwise the attributes as they stand in the token |
| Tsp.SignatureDecidesClaim | crates/trailryx-anchor/src/tsp.rs:490-511 | Two believed tokens with one signature carry one content, one set of attributes and one claim, or two strings that were hashed collide |
| Tsp.OneContentDigest | crates/trailryx-anchor/src/tsp.rs:518-575 | Signed attributes accept one content digest only |
| Tsp.CheckSignedAttrs | crates/trailryx-anchor/src/tsp.rs:518-575 | The two flags of the loop accept exactly one message digest that matches and exactly one content type that does, and otherwise give the first refusal |
| Tsp.ChecksAreExact | crates/trailryx-anchor/src/tsp.rs:518-575 | Taking the attributes one at a time with two flags is counting them all |
| TokenShape.AttributesBindExactly | crates/trailryx-anchor/src/tsp.rs:518-575 | The attributes that pass are exactly strings of attributes of which one and no other is a message digest, this one, and one and no other is a content type, TSTInfo |
| Tsp.CheckAttribute | crates/trailryx-anchor/src/tsp.rs:532-562 | One attribute is refused for its value or as the second of its kind, with the refusal that comes first |
| TokenShape.AttributeRefused | crates/trailryx-anchor/src/tsp.rs:532-562 | What is wrong with a binding attribute's value comes before that it is the second of its kind |
| Tsp.ReadContent | crates/trailryx-anchor/src/tsp.rs:333-379 | The content is what the structure of section 5 of RFC 5652 puts there, under the TSTInfo type; anything else is refused by the name of the field |
| TokenShape.ContentExactly | crates/trailryx-anchor/src/tsp.rs:333-379 | A content is read from exactly the tokens of the nested shape around it, parts that are not looked at included |
| TokenShape.ContentRefused | crates/trailryx-anchor/src/tsp.rs:365-379 | A content with anything behind it is refused by that name |
| Tsp.ReadSigner | crates/trailryx-anchor/src/tsp.rs:406-480 | One signer, with attributes, a signature, and a digest that its algorithm goes with, or the refusal of the field that is not so |
| TokenShape.SignerExactly | crates/trailryx-anchor/src/tsp.rs:406-480 | The attributes, signature and digest are read from exactly the tokens of the nested shape around one signer, with the digest and the signature algorithm given by the octets of their identifiers |
| TokenShape.DigestIsNamed | crates/trailryx-anchor/src/rsa.rs:108-116 | The digest of a signer is SHA-256 or SHA-384 exactly when its identifier is the nine octets of that digest, which are those in the padded block; any other is none |
| TokenShape.AlgorithmAgrees | crates/trailryx-anchor/src/rsa.rs:138-159 | A signature algorithm goes with a digest exactly when it is rsaEncryption or the one that names that digest |
| TokenShape.AlgorithmsRefused | crates/trailryx-anchor/src/tsp.rs:449-472 | A third digest or a fourth signature algorithm is unsupported, and one that names the other digest disagrees |
| TokenShape.DottedNames | crates/trailryx-anchor/src/oid.rs:12-38 | The identifiers in the dotted form of their standards |
| Tsp.ReadClaim | crates/trailryx-anchor/src/tsp.rs:585-652 | The claim is the version, the imprint, the serial number, the time and the nonce the content holds, or the refusal of the first that is not there |
| TokenShape.ClaimExactly | crates/trailryx-anchor/src/tsp.rs:585-652 | A claim is read from exactly the contents of the shape that holds it, with two optional fields and a nonce that may be there |
| Tsp.ReadImprint | crates/trailryx-anchor/src/tsp.rs:599-619 | A SHA-384 imprint of its own length, or the refusal |
| TokenShape.ImprintRefused | crates/trailryx-anchor/src/tsp.rs:599-619 | An imprint by another digest, of another length, or with anything behind it, and its refusal |
| Tsp.ReadTime | crates/trailryx-anchor/src/tsp.rs:625-627 | The time is a GeneralizedTime in UTC, in seconds, or a bad one |
| Tsp.ReadNonce | crates/trailryx-anchor/src/tsp.rs:632-644 | The nonce is found behind the optional fields, or is not there, or does not parse |
| Tsp.TokenFromResponse | crates/trailryx-anchor/src/tsp.rs:155-198 | The token of a response, or the refusal its status asks for |
| Tsp.GrantedGivesToken | crates/trailryx-anchor/src/tsp.rs:155-198 | A granted response gives its token byte for byte |
| Tsp.TokenIsGranted | crates/trailryx-anchor/src/tsp.rs:155-198 | A token comes only out of a granted response around it |
| TokenShape.ResponseRefused | crates/trailryx-anchor/src/tsp.rs:155-198 | A response without a grant, without a token, or with anything behind its token, and its refusal |
| Hashing.HashChunks384 | crates/trailryx-crypto/src/sha384.rs:209-259 | Any sequence of updates and a finish is the fold of the compression over the padded blocks of the message the chunks make |
| Hashing.Sha384.Update | crates/trailryx-crypto/src/sha384.rs:210-237 | An update takes in exactly its data, whatever was buffered |
| Hashing.Sha384.Finish | crates/trailryx-crypto/src/sha384.rs:239-259 | The padding fed byte by byte is that of section 5.1.2 of FIPS 180-4, and the digest is of everything taken in |
| Hashing.Sha384.PadZeros | crates/trailryx-crypto/src/sha384.rs:242-249 | The loop stops at the first length that leaves room for the counter |
| Hashing.HashChunks256 | crates/trailryx-crypto/src/sha256.rs:76-141 | The same for SHA-256, whose counter counts modulo 2^64 |
| Hashing.Sha256.Update | crates/trailryx-crypto/src/sha256.rs:76-112 | An update takes in exactly its data, and counts its bits |
| Hashing.Sha256.UpdateRaw | crates/trailryx-crypto/src/sha256.rs:131-141 | Padding is taken in and not counted |
| Hashing.Sha256.PadZeros | crates/trailryx-crypto/src/sha256.rs:114-124 | The loop stops at the first length that leaves room for the counter |
| Hashing.Sha256.Finish | crates/trailryx-crypto/src/sha256.rs:114-128 | The padding is that of section 5.1.1 of FIPS 180-4, and the digest is of everything taken in |
| Hashing.PaddingFits | crates/trailryx-crypto/src/sha384.rs:239-259 | Both paddings fill whole blocks, and no more of them than they must |
| Hashing.PaddingDecides | crates/trailryx-crypto/src/sha384.rs:239-259 | Within the range of the counter, a padded message determines the message |
| Hashing.PaddedLayout | crates/trailryx-crypto/src/sha384.rs:239-259 | A padded message by the places of its bytes: the message, 0x80, zeros, and the count of its bits in the last bytes |
| Hashing.WordAt | crates/trailryx-crypto/src/sha384.rs:251-259 | The words of a digest stand in it in their order, the greatest byte first |
| Hashing.HmacSha256 | crates/trailryx-crypto/src/hmac.rs:26-52 | The tag is the formula of section 2 of RFC 2104, for keys of every length |
| Hashing.HmacBlocks | crates/trailryx-crypto/src/hmac.rs:26-52 | The two blocks of a tag octet by octet: the key or its digest, zeros, and the masks 0x36 and 0x5C |
| Hashing.VerifyTag | crates/trailryx-crypto/src/hmac.rs:55-64 | The comparison that does not stop early is equality |
| Dates.DaysFromCivilCounts | crates/trailryx-asn1/src/lib.rs:519-527 | The closed form is counting days one at a time from 1970-01-01, forwards and backwards, with truncating division |
| Dates.CountedNext | crates/trailryx-asn1/src/lib.rs:519-527 | The reference is a calendar: the date after n days is followed by the date after n + 1, before 1970 as after |
| Dates.DaysFromCivilNext | crates/trailryx-agentevent/src/time.rs:116-124 | The day after is one more |
| Dates.CivilFromDaysCounts | crates/trailryx-azure/src/client.rs:132-144 | The other closed form is the date that many days from 1970-01-01 |
| Dates.CivilFromDaysNext | crates/trailryx-azure/src/client.rs:132-144 | One more day is the next date, for every count of days |
| Dates.ClosedFormsAreInverse | crates/trailryx-azure/src/client.rs:132-144 | The two closed forms undo each other, both ways, for every date and every count |
| Dates.CivilUndoesDays | crates/trailryx-azure/src/client.rs:132-144 | A date comes back from its day number |
| Dates.YearOfEraExact | crates/trailryx-azure/src/client.rs:136-138 | The year and the day of the year are recovered from a day of a 400-year era |
| Dates.LeapIsGregorian | crates/trailryx-agentevent/src/time.rs:136-138 | The truncating test is the Gregorian rule, for negative years too |
| Instants.ParseRfc3339 | crates/trailryx-agentevent/src/time.rs:33-114 | A text is an instant exactly when it is legal and its nanoseconds are in range; refused, never wrapped |
| Instants.ParsedExactly | crates/trailryx-agentevent/src/time.rs:33-114 | A number comes out if and only if some legal spelling of the text stands for it |
| TimeText.AcceptedExactly | crates/trailryx-agentevent/src/time.rs:33-114 | The accepted texts are exactly those written from a day number, a time of day, a fraction and an offset, and the answer is the nanoseconds these mean, with the date counted one day at a time and the offset taken off to the east and added to the west |
| TimeText.OffsetMoves | crates/trailryx-agentevent/src/time.rs:87-113 | For every date, time and fraction, an offset of hours and minutes east of UTC takes that much off the instant with `Z` and one west adds it, and is refused exactly when that leaves the range |
| TimeText.NanosAreWhole | crates/trailryx-agentevent/src/time.rs:64-85 | What is read of a fraction is its whole nanoseconds, the rest cut off |
| TimeText.KnownInstants | crates/trailryx-agentevent/src/time.rs:142-160 | One second in three spellings, two of them with offsets |
| Instants.CutDecides | crates/trailryx-agentevent/src/time.rs:45-104 | A legal text is cut into date, fraction and offset in one way |
| Instants.ReadDigits | crates/trailryx-agentevent/src/time.rs:38-44 | The digits between two places, or nothing |
| Instants.ReadFront | crates/trailryx-agentevent/src/time.rs:45-65 | The first nineteen bytes are a day that exists and a time of it |
| Instants.ReadFraction | crates/trailryx-agentevent/src/time.rs:67-88 | Nine digits of the fraction count, fewer are scaled up, more are dropped |
| Instants.ReadOffset | crates/trailryx-agentevent/src/time.rs:90-104 | `Z` in either case, or a signed offset in hours and minutes, positive to the east |
| Instants.Combine | crates/trailryx-agentevent/src/time.rs:106-113 | The checked sum is the sum, or nothing outside the range |
| Instants.ParseGeneralizedTime | crates/trailryx-asn1/src/lib.rs:461-500 | The seconds of fourteen digits that are a day and a time, with `Z` and any fraction of at least one digit, which is dropped; anything else is refused |
| TimeText.TimesExactly | crates/trailryx-asn1/src/lib.rs:461-500 | The accepted times are exactly the fourteen digits of a second, a fraction that may be there, and `Z`, and the answer is that second |
| DerTime.OneDerSpelling | crates/trailryx-asn1/src/lib.rs:461-500 | Two accepted times are one instant, fraction included, if and only if they have one spelling under section 11.7 of X.690 |
| DerTime.DerExactly | crates/trailryx-asn1/src/lib.rs:470-477 | An accepted time is that spelling if and only if it has no fraction or one that does not end in zero |
| DerTime.DerSpellingIsRead | crates/trailryx-asn1/src/lib.rs:461-500 | That spelling is accepted too, as the same second, and is no longer |
| DerTime.ZeroFraction | crates/trailryx-asn1/src/lib.rs:470-477 | Every second is read without a fraction and with one of zero |
| DerTime.TwoSpellings | crates/trailryx-asn1/src/lib.rs:470-477 | Two accepted texts of New Year 2026 |
| DerTime.StampDecides | crates/trailryx-asn1/src/lib.rs:478-499 | One second has one string of fourteen digits |
| Assembly.Assembler.AdoptBatch | crates/trailryx-assemble/src/lib.rs:267-283 | Ids ascend, no unit causes itself, edges made and edges lost add up to the parents named, and in a batch of fresh names every edge goes where the batch and the window say |
| Assembly.TargetsDoNotDependOnOrder | crates/trailryx-assemble/src/lib.rs:267-283 | Where an edge goes is the same for every ordering of the batch |
| Assembly.SameEdges | crates/trailryx-assemble/src/lib.rs:267-283 | Two orderings of one fresh batch give the same edges: between the same units, from the same older records, and to the same units none |
| Assembly.CausesExactly | crates/trailryx-assemble/src/lib.rs:300-337 | One record of a fresh batch causes another exactly when the other unit names it as its target |
| Assembly.EdgeIsTarget | crates/trailryx-assemble/src/lib.rs:300-337 | An edge found in the window after the batch is named is the one the batch asks for |
| Assembly.EdgesAndLosses | crates/trailryx-assemble/src/lib.rs:300-337 | Every parent named is an edge or a loss, and no edge goes to itself |
| Assembly.FreshBatchWindow | crates/trailryx-assemble/src/lib.rs:267-277 | What the window holds after a batch of fresh names: the newest names, each once, with the ids minted for them |
| Assembly.RememberSound | crates/trailryx-assemble/src/correlation.rs:65-76 | The map and the queue keep the same keys, each once, within the capacity |
| Assembly.Correlation.Remember | crates/trailryx-assemble/src/correlation.rs:65-76 | The first id of a key stays, and a new key pushes out the oldest when the window is full |
| Assembly.Ids.Mint | crates/trailryx-assemble/src/ids.rs:61-75 | Ids ascend strictly while there are any left, whatever the clock and the draws; an id is of its record's own millisecond, with the bits drawn, whenever that is past the last one's, and one past the last id when it is before it |
| Assembly.Assembler.constructor | crates/trailryx-assemble/src/lib.rs:141-149 | An assembler starts with an empty window and no losses |
| Assembly.Ids.constructor | crates/trailryx-assemble/src/ids.rs:56-58 | Nothing is minted yet |
| Assembly.Correlation.constructor | crates/trailryx-assemble/src/correlation.rs:46-53 | An empty window of the capacity asked for, or of one when that is zero |
| Assembly.Assembler.Finish | crates/trailryx-assemble/src/lib.rs:300-337 | The edge the window gives, unless it is to itself; a parent without one is a loss |
| Assembly.Assembler.NoteLoss | crates/trailryx-assemble/src/lib.rs:316-331 | A loss is counted in all and by run, for no more runs than the window is wide, in 32 bits that stay at their greatest value |
| Assembly.Assembler.NameAll | crates/trailryx-assemble/src/lib.rs:267-277 | Every unit is named before any is finished |
| Assembly.Assembler.FinishAll | crates/trailryx-assemble/src/lib.rs:279-282 | Every unit is finished against that one window |
| Assembly.Assembler.Adopt | crates/trailryx-assemble/src/lib.rs:290-296 | A single unit: one edge or one loss for a parent, and never to itself |
| Assembly.Assembler.LostEdgeEvents | crates/trailryx-assemble/src/lib.rs:192-229 | One event for each run with losses, in the order of the runs, with its count, and the tally starts again |
| Rendering.RenderDecides | crates/trailryx-agentevent/src/lib.rs:1474-1551 | Two values are rendered alike if and only if they are equal up to the order of members at every depth, numbers by their digits |
| Rendering.PrintDecides | crates/trailryx-agentevent/src/lib.rs:1493-1551 | A rendering can be read in one way only, whatever follows it |
| Rendering.SameIsNormal | crates/trailryx-agentevent/src/lib.rs:1537 | Sorting the members at every depth decides equality up to their order |
| Rendering.RenderInto | crates/trailryx-agentevent/src/lib.rs:1493-1551 | The recursive writer appends the text of the value with its members sorted |
| Rendering.KnownWords | crates/trailryx-agentevent/src/lib.rs:1493-1551 | The words and brackets of a rendering, and an array of two |
| Rendering.KnownObject | crates/trailryx-agentevent/src/lib.rs:1493-1551 | An object of two members, the lesser name first whichever came first |
| Rendering.QuoteInto | crates/trailryx-agentevent/src/lib.rs:1555-1568 | A string is quoted with its separators escaped |
| Rendering.KnownEscapes | crates/trailryx-agentevent/src/lib.rs:1555-1568 | The escapes octet by octet, with and without quotes |
| Rendering.LinesSplitBack | crates/trailryx-agentevent/src/lib.rs:1446-1471 | The payload splits back into exactly its keys and values, so none of them forges a line |
| Rendering.EscapedReadsBack | crates/trailryx-agentevent/src/lib.rs:1585-1595 | An escaped field is read back up to the separator that ends it, for every content |
| Rendering.Payload | crates/trailryx-agentevent/src/lib.rs:1446-1471 | The lines are the members sorted by key and then the chain when it was not kept, and no lines are no payload |
| Rendering.LinesInOrder | crates/trailryx-agentevent/src/lib.rs:1446-1471 | The lines of a payload ascend by key, and those with one key stand in the order they came |
| Rendering.PushLine | crates/trailryx-agentevent/src/lib.rs:1578-1583 | A line is appended |
| Rendering.EscapeInto | crates/trailryx-agentevent/src/lib.rs:1585-1595 | A field is appended with its separators escaped |
| SharedKey.CanonicalResource | crates/trailryx-azure/src/sharedkey.rs:112-134 | The grouping loop writes the declarative form: each lower-cased name once, ascending, with its values sorted and joined by commas |
| SharedKey.ResourceIgnoresOrder | crates/trailryx-azure/src/sharedkey.rs:112-134 | No permutation of the query changes it |
| SharedKey.ResourceIgnoresCase | crates/trailryx-azure/src/sharedkey.rs:112-134 | The ASCII case of names does not change it |
| SharedKey.ThreeParameters | crates/trailryx-azure/src/sharedkey.rs:112-134 | A query of three parameters in full: slash, account and path, a line a name in order, values in order between commas |
| SharedKey.NamesAreUnique | crates/trailryx-azure/src/sharedkey.rs:117-124 | A query has one ascending list of names |
| SharedKey.GroupByName | crates/trailryx-azure/src/sharedkey.rs:117-124 | Each name is grouped once with its values in the order they came |
| SharedKey.RoundTrip | crates/trailryx-azure/src/sharedkey.rs:185-242 | Decoding an encoding gives the bytes back, and nothing when there are none |
| SharedKey.OneStrictSpelling | crates/trailryx-azure/src/sharedkey.rs:210-242 | Of the texts that decode to the same bytes, the encoder's is exactly the one padded in its last group only, with nothing in the unused bits |
| SharedKey.EncodingSpells | crates/trailryx-azure/src/sharedkey.rs:185-209 | Whole groups are encoded as the letters that spell the number of the bytes in base 64 |
| SharedKey.PaddedGroup | crates/trailryx-azure/src/sharedkey.rs:185-209 | A last group that is not whole is that of the bytes with zeros behind them, with padding for the letters that have none of their bits |
| SharedKey.KnownEncodings | crates/trailryx-azure/src/sharedkey.rs:185-209 | Three test vectors of section 10 of RFC 4648 |
| SharedKey.LooseSpellings | crates/trailryx-azure/src/sharedkey.rs:210-242 | Two texts that are accepted and are not the encoder's: one padded in the middle, one with unused bits set |
| SharedKey.Base64Encode | crates/trailryx-azure/src/sharedkey.rs:185-209 | The loop over chunks of three writes the encoding the round trip is about |
| SharedKey.Base64Decode | crates/trailryx-azure/src/sharedkey.rs:211-242 | The loop over groups of four reads the decoding the round trip is about |

## Left out

- Messages between shards and the words the generator draws for them, the simulated bus, the clock, traces and their digests, and the statistics of the simulated disk: no durability property depends on them.
- `StdIo`, the journal on a real file system: only the simulated disk is modelled.
- Opening a custodian, its root key file, file permissions, `exists` and `live_keys` of the persisted custodian: one look at a file each, and configuration.
- A read of a key file that fails is one outcome, unusable, as in the source; which failure it was is not modelled.
- A power cut in the middle of a call: it is the call that failed at that point, followed by a power cut.
- Cryptographic strength: the hash, the ciphers, the KEM and the key derivation are parameters, and the rounds and constants of the two compression functions are not modelled.
- Clearing of secrets from memory: it has no effect on any value that is returned.
- The sentences errors are shown with: every refusal has its variant and, in a timestamp token, the name of its field.
- Reading the evidence file and the record codec: the file's sections are values, and decoding a record body is a parameter that gives 64-bit fields or a refusal.
- Exceptions of the Python verifier other than its own: a body that would raise one is a refusal of the decoder.
- Details of findings, and the checks of signatures and witnesses, which the Python verifier does not make either.
- The verifier in Rust, the index and journal crates, and completeness proofs as files: only what a sorted index gives them is proved (`Evidence.RangeIsOneRun`).
- Boolean reading in the DER cursor, the `skip` without a condition, and the request a timestamp is asked for with.
- `claim_of`, `covered` and `binds_to`: a parse without a signature, the offsets of its parts, and two comparisons.
- Civil dates beyond the 64-bit range: the functions are on unbounded integers, and the parsers reach four-digit years only.
- Messages of 2^125 bytes or more for SHA-384: its 128-bit counter is unbounded here.
- `http_date`, canonical headers, the string to sign and the authorization header: formatting around what is modelled.
- The map that groups query parameters is a list of groups sorted at the end, so the order of insertion inside the map is not modelled.
- Fields of an assembled record other than its identity and its causes.
- The units an assembler drops or keeps in batches with repeated names, or with names the window already holds: edges and losses are counted for them, but where each edge goes is stated for fresh names.
- Two units of one batch naming each other both get an edge: acyclicity does not hold and is not stated.
- The JSON reader, its limits and its refusals: rendering starts from the value that was read.
- The mapping of envelope members to record fields, the compliance table, and the Azure operations around the canonical resource.

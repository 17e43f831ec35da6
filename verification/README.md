# Orizon OS: verified models of the network stack, the installer and two drivers

This project models, in Dafny, the parts of the Orizon OS x86_64 tree that carry the hardest
correctness obligations, and proves what they compute for all inputs and all runs:

- **Curve25519 and RSA arithmetic** of the TLS client: five-limb field arithmetic modulo 2^255-19, the
  X25519 ladder of RFC 7748, and big-number RSA signature verification (sections 5.2.2, 8.2.2 and 9.2
  of RFC 8017). Modules `Machine`, `ModArith`, `Bits`, `Endian`, `Field51`, `Field51Codec`,
  `MontgomeryCurve`, `X25519`, `BigNum`, `Rsa`.
- **The Limine installer**: a one-block write-back cache with an undo journal refines a flat disk and
  rolls back; the journal file, table-driven CRC-32 and GPT embedding sit on top. Modules `Journal`,
  `BlockCache`, `InstallRun`, `UninstallFile`, `Crc32`, `GptLayout`, `GptContents`, `GptInstall`,
  `GptOnDisk`.
- **VirtIO network rings** shared with a concurrent device. Modules `Rings`, `VirtioQueue`, `VirtioNet`.
- **NVMe** queue pair with phase bits and the 512-byte sector shim. Modules `NvmeQueue`, `NvmeShim`.
- **TCP**: the one-connection server as a state machine over whole runs, and the blocking receive loop
  with its deadline, down to the bytes on the wire. Modules `TcpServer`, `TcpRuns`, `TcpLaws`, `TcpWire`,
  `TcpReceive`.
- **Packets, PRF and configuration**: Internet checksum, packet builders and parsers, the TLS 1.2
  pseudo-random function, the static address file. Modules `Checksum`, `PacketFormat`, `PacketLayout`,
  `PacketSend`, `Prf`, `StaticConfig`, `Ipv4Text`, `ConfigFile`.

`dafny verify dfyconfig.toml` checks everything.

## How the code is modelled

- Fixed-width integers are the types of `Machine`; every expression of such a type carries the proof
  that the C computation does not wrap. Intended wrap-around (sequence numbers, ring indices, the IP
  identification, 16-bit half sizes) is written out with `%` or `if`.
- Shifts and masks are written as `/`, `%` and `*`; an or of disjoint fields as the sum, justified by
  `Bits.OrDisjoint` where the fields come from limbs.
- Buffers updated in place are arrays, records updated in place are classes. Ring memory shared with a
  device is kept as sequences in a field that both sides reassign.
- Concurrency is a nondeterministic method (`DeviceMoves`, `ControllerMoves`) called at every point
  where the driver touches shared memory, so a contract holds for every interleaving.
- Raw accesses fail nondeterministically: a failed block read leaves arbitrary bytes in the cache, a
  failed block write leaves a prefix of it written. The ghost counters `faults` and `polls` record
  failures and polls, so that contracts can say an operation fails only for a reason.
- The clock, the wire, the hash function and memory allocation are parameters or nondeterministic.

## Findings

- A write that spans blocks and fails at its second block is not in the journal. Rollback then restores
  a byte of its first block exactly when an earlier record covers it or the write left it alone
  (`BlockCache.HalfDoneRestoredIff`, with a lost byte in `BlockCache.HalfDoneLosesAByte`).
- The second GPT half overwrites the secondary header exactly when that header's block is among the
  last blocks of the 32 from the secondary array on that the half takes (`GptLayout.SecondHalfOverlaps`,
  `GptInstall.SecondaryHeaderLost`). The usual four-block array on 4096-byte blocks is not such a case:
  there the half lies wholly behind the header (`GptLayout.FourBlockArray`).
- Embedding needs two journal records for each entry to clear and eleven more, out of 256. Without a
  failed access a table is embedded into if and only if its used entries fit the shrunken array and
  those records suffice (`GptInstall.PlanFate`, decided by `GptInstall.BiosInstall`). A table of at most
  128 entries of 128 bytes on 4096-byte blocks therefore always rolls back (`GptInstall.ShippedFate` has
  the numbers for the image compiled in).
- Clearing the secondary array takes its entry size from the secondary header and its zeros from a
  buffer of the primary entry size, so a larger secondary size reads past the buffer
  (`GptInstall.ShippedOverRead`); a primary entry size of zero is divided by (`GptInstall.Embed`).
- An empty journal record makes both storing and loading the uninstall file fail, because a transfer of
  zero bytes counts as a failure (`UninstallFile.Save`). The image compiled in, of 21547 bytes, has two
  non-empty halves; with it only a secondary entry size of zero leaves such a record
  (`GptInstall.ShippedEmpty`).
- The uninstall file's record count is not checked against the 256-place table
  (`UninstallFile.Load`, `UninstallFile.OverrunReached`).
- Two ring entries in use at once can share a slot across the 16-bit wrap exactly when the remainder
  of 65536 by the queue size is neither zero nor at least the number of buffers (`Rings.WrapCollides`):
  a queue of 24 with 24 receive buffers is such a case, one of 96 with 32 is not (`Rings.TwentyFour`).
  `virtio_queue_prepare` accepts both.
- A TCP segment larger than the caller's buffer is acknowledged whole and delivered in part
  (`TcpRuns.DeliveredWholeIff`, `TcpRuns.TruncatedDelivery`).
- The checksum loop's 32-bit accumulator can wrap from 131076 bytes on, far beyond any packet
  (`Checksum.RightIff`, `Checksum.FirstWrap`).

## Model

| member | source | states |
|---|---|---|
| `Field51.CarryRound` | orizon-os-x86_64/kernel/drivers/netstack.c:2903-2922 | one carry round whose sums stay in 64 bits keeps the represented field element and leaves every limb but the first below 2^51, all of them when an earlier round has prepared them |
| `Field51.Reduce` | orizon-os-x86_64/kernel/drivers/netstack.c:2903-2922 | two carry rounds suffice for all limbs whose first-round sums stay in 64 bits: every limb ends below 2^51 and the element mod 2^255-19 is unchanged |
| `Field51.Add` | orizon-os-x86_64/kernel/drivers/netstack.c:3001-3006 | exact field addition on limbs below 2^51, no 64-bit overflow, output may be either input |
| `Field51.Sub` | orizon-os-x86_64/kernel/drivers/netstack.c:3008-3016 | exact field subtraction; adding four times the prime makes every limb difference non-negative, so nothing underflows |
| `Field51.Columns` | orizon-os-x86_64/kernel/drivers/netstack.c:3018-3042 | the five 128-bit column sums are the convolution of the limbs with wrapped terms times 19, and stay far below 2^128 |
| `Field51.Convolution` | orizon-os-x86_64/kernel/drivers/netstack.c:3018-3042 | the column sums represent the product of the two values up to a multiple of the prime |
| `Field51.FoldColumns` | orizon-os-x86_64/kernel/drivers/netstack.c:3044-3053 | carrying the columns into limbs loses nothing but a multiple of the prime and leaves limbs that reduction accepts |
| `Field51.Mul` | orizon-os-x86_64/kernel/drivers/netstack.c:3018-3055 | exact field multiplication with fully reduced limbs, for any aliasing of output and inputs |
| `Field51.Square` | orizon-os-x86_64/kernel/drivers/netstack.c:3057-3059 | exact field squaring |
| `Field51.MaskedSwap` | orizon-os-x86_64/kernel/drivers/netstack.c:3085-3092 | the mask, and and exclusive-or arithmetic on one limb pair swaps it for an all-ones mask and leaves it for zero |
| `Field51.ConditionalSwap` | orizon-os-x86_64/kernel/drivers/netstack.c:3085-3092 | swaps two elements exactly when the swap bit is one |
| `Field51.ExponentIsPMinus2` | orizon-os-x86_64/kernel/drivers/netstack.c:3061-3066 | the bits that exponent_pminus2_bit reports, read from the top, spell p - 2 |
| `Field51.Invert` | orizon-os-x86_64/kernel/drivers/netstack.c:3068-3083 | square-and-multiply over those bits computes z^(p-2), in place too |
| `Field51Codec.LoadLe64` | orizon-os-x86_64/kernel/drivers/netstack.c:2895-2901 | a little-endian 64-bit load from any offset |
| `Field51Codec.FromBytes` | orizon-os-x86_64/kernel/drivers/netstack.c:2942-2948 | the five overlapping loads, shifts and masks decode 32 bytes to their value mod 2^255, in limbs below 2^51 |
| `Field51Codec.AtLeastP` | orizon-os-x86_64/kernel/drivers/netstack.c:2950-2962 | the limb comparison decides value >= p, in both directions |
| `Field51Codec.SubtractP` | orizon-os-x86_64/kernel/drivers/netstack.c:2964-2974 | limb-wise subtraction of p never borrows where the value is at least p, and subtracts exactly p |
| `Field51Codec.PackedWords` | orizon-os-x86_64/kernel/drivers/netstack.c:2990-2993 | the four shifted-and-ored words hold the same number as the five limbs |
| `Field51Codec.StoreLe64` | orizon-os-x86_64/kernel/drivers/netstack.c:2976-2980 | a little-endian 64-bit store that touches only its eight bytes |
| `Field51Codec.ToBytes` | orizon-os-x86_64/kernel/drivers/netstack.c:2982-2999 | the output is the unique encoding below p of the element, in 32 bytes |
| `X25519.DoubleAndAddLimbs` | orizon-os-x86_64/kernel/drivers/netstack.c:3127-3144 | the field calls of one ladder iteration compute the differential double-and-add of section 5 of RFC 7748 |
| `X25519.ClampInPlace` | orizon-os-x86_64/kernel/drivers/netstack.c:3094-3098 | clamping clears the three low bits and sets the two top ones as RFC 7748 decodes scalars |
| `X25519.ClampValue` | orizon-os-x86_64/kernel/drivers/netstack.c:3094-3098 | the clamped scalar is a multiple of eight in [2^254, 2^255) |
| `X25519.RunLadder` | orizon-os-x86_64/kernel/drivers/netstack.c:3115-3148 | 255 iterations with deferred swaps end in the last state of the reference ladder, for every scalar and point |
| `X25519.ScalarMult` | orizon-os-x86_64/kernel/drivers/netstack.c:3100-3152 | for every scalar and u-coordinate, with any aliasing, the output bytes are the canonical encoding of the RFC 7748 ladder's result, which is the affine coordinate of the clamped scalar's multiple of the point by doubling and adding |
| `X25519.DecodeUIs` | orizon-os-x86_64/kernel/drivers/netstack.c:3110-3112 | the top bit of the coordinate is ignored |
| `MontgomeryCurve.RungIs` | orizon-os-x86_64/kernel/drivers/netstack.c:3127-3144 | modulo the prime, one iteration turns X : Z and Y : W into (X^2 - Z^2)^2 : 4XZ(X^2 + 486662 XZ + Z^2) and 4(XY - ZW)^2 : 4 x1 (YZ - WX)^2 |
| `MontgomeryCurve.LadderIsMultiples` | orizon-os-x86_64/kernel/drivers/netstack.c:3120-3148 | in every state of the ladder the rungs, their pending swap done, are the n-fold and the (n + 1)-fold for the number n that the scalar bits handled so far spell |
| `MontgomeryCurve.MontgomeryIs` | orizon-os-x86_64/kernel/drivers/netstack.c:3120-3152 | for clamped scalars the reference ladder is the plain binary recursion n to 2n and 2n + 1 |
| `MontgomeryCurve.AffineDivides` | orizon-os-x86_64/kernel/drivers/netstack.c:3149-3152 | where Fermat's theorem holds for Z the result times Z is X |
| `MontgomeryCurve.DoubleIsTangent` | orizon-os-x86_64/kernel/drivers/netstack.c:3127-3144 | the doubling formula is what the tangent at a point of the curve gives |
| `MontgomeryCurve.AddIsSum` | orizon-os-x86_64/kernel/drivers/netstack.c:3127-3144 | the addition formula gives the coordinate of the sum of two points of the curve, as the chord does, when x1 is the coordinate of their difference |
| `BigNum.AtLeast` | orizon-os-x86_64/kernel/drivers/netstack.c:2656-2666 | the byte-wise comparison decides >= of the big-endian values |
| `BigNum.SubtractAt` | orizon-os-x86_64/kernel/drivers/netstack.c:2668-2706 | the borrow loop subtracts, with the borrow that is left over stated exactly |
| `BigNum.AddWide` | orizon-os-x86_64/kernel/drivers/netstack.c:2713-2719 | the carry loop gives the exact sum in one extra byte |
| `BigNum.ReduceSum` | orizon-os-x86_64/kernel/drivers/netstack.c:2721-2723 | comparing and subtracting once over the extended array reduces a sum of two residues |
| `BigNum.AddMod` | orizon-os-x86_64/kernel/drivers/netstack.c:2708-2725 | modular addition, also with the output aliasing an input or both inputs the same (doubling) |
| `BigNum.MulByte` | orizon-os-x86_64/kernel/drivers/netstack.c:2744-2750 | the eight bits of one byte advance the double-and-add partial product by those bits |
| `BigNum.MulMod` | orizon-os-x86_64/kernel/drivers/netstack.c:2732-2753 | modular multiplication for every length, the output aliasing either factor |
| `Rsa.LeftPad` | orizon-os-x86_64/kernel/drivers/netstack.c:2755-2763 | padding succeeds exactly when the input fits and keeps its value |
| `Rsa.SquareSixteen` | orizon-os-x86_64/kernel/drivers/netstack.c:2779-2783 | sixteen in-place squarings give the 65536th power |
| `Rsa.ModExp65537` | orizon-os-x86_64/kernel/drivers/netstack.c:2765-2786 | Some exactly when the lengths fit and the signature is below the modulus, and then the 65537th power mod n |
| `Rsa.CheckPkcs1` | orizon-os-x86_64/kernel/drivers/netstack.c:2788-2814 | accepts exactly the EMSA-PKCS1-v1_5 encoding of the digest (section 9.2 of RFC 8017) in that length, which must be at least 62 |
| `Rsa.EmsaLayout` | orizon-os-x86_64/kernel/drivers/netstack.c:2788-2814 | the encoding is zero, one, ones, zero, the prefix and the digest |
| `Rsa.DigestInfoIs` | orizon-os-x86_64/kernel/drivers/netstack.c:2790-2792 | prefix and digest are, read as DER, the SHA-256 identifier with null parameters and the digest as an octet string |
| `Rsa.VerifyCertSignature` | orizon-os-x86_64/kernel/drivers/netstack.c:2816-2834 | accepts if and only if the flags and sizes are right, the signature is below n and its 65537th power mod n is the encoding of the digest |
| `Journal.ReplayReversed` | orizon-os-x86_64/limine/limine.c:327-333 | replaying a journal backwards leaves each byte at what its earliest record holds and bytes without a record alone |
| `Journal.RecoverableWrite` | orizon-os-x86_64/limine/limine.c:448-497 | a journalled write, overlapping or not, keeps every byte recoverable from the medium and the journal |
| `Journal.RecoverableDamage` | orizon-os-x86_64/limine/limine.c:448-497 | a write that stops half way spoils at most the bytes it covers |
| `Journal.RollbackRestores` | orizon-os-x86_64/limine/limine.c:504-528 | from a recoverable state the medium without the cached block replays back to the original, byte by byte |
| `Journal.RestoredIff` | orizon-os-x86_64/limine/limine.c:499-549 | after damage without a record a byte is restored if and only if an earlier record covers it or it was not damaged |
| `BlockCache.Device.Init` | orizon-os-x86_64/limine/limine.c:232-263 | the first of 512, 2048 and 4096 whose first block can be read is taken, with block 0 cached; gives up exactly when all three fail or the cache cannot be allocated |
| `BlockCache.Device.FlushCache` | orizon-os-x86_64/limine/limine.c:265-284 | after a successful flush the medium is the logical disk; flushing never changes the logical disk and a partial block write touches only cached bytes |
| `BlockCache.Device.CacheBlock` | orizon-os-x86_64/limine/limine.c:286-311 | switching blocks keeps the logical disk, even when the write-back or the read fails, and fails only if an access failed |
| `BlockCache.Device.Read` | orizon-os-x86_64/limine/limine.c:426-446 | a chunked read over any offset and length returns the logical bytes; it fails only if an access failed |
| `BlockCache.Device.Store` | orizon-os-x86_64/limine/limine.c:473-491 | a chunked write changes exactly [loc, loc+count) of the logical disk, and on failure nothing outside it |
| `BlockCache.Device.Write` | orizon-os-x86_64/limine/limine.c:448-497 | a completed write appends one record of the bytes it replaced and keeps the device undoable; it fails only on a failed access or allocation or a full journal of 256 |
| `BlockCache.Device.Restore` | orizon-os-x86_64/limine/limine.c:510-527 | restoring one record with its single retry: a true result means the record is in the logical disk |
| `BlockCache.Device.Uninstall` | orizon-os-x86_64/limine/limine.c:499-549 | a true result means the medium is the old medium with the whole journal replayed in order; a false one that an access failed |
| `BlockCache.Device.ReverseJournal` | orizon-os-x86_64/limine/limine.c:327-333 | the journal is turned round exactly |
| `BlockCache.Device.Abort` | orizon-os-x86_64/limine/limine.c:1062-1067 | dropping the dirty block and replaying the reversed journal makes the medium exactly that replay, which restores every byte outside a half-done write |
| `BlockCache.Device.FirstBlock` | orizon-os-x86_64/limine/limine.c:476-491 | the first block of a write that spans blocks reaches the medium before the second block is read |
| `BlockCache.HalfDoneRestoredIff` | orizon-os-x86_64/limine/limine.c:473-496 | when the second block then cannot be read, rollback restores a byte of the write if and only if an earlier record covers it or the write did not change it |
| `BlockCache.HalfDoneLosesAByte` | orizon-os-x86_64/limine/limine.c:473-496 | on a blank two-block medium with an empty journal such a write is not undone |
| `InstallRun.Perform` | orizon-os-x86_64/limine/limine.c:426-497 | one cached operation is one operation on a flat byte array |
| `InstallRun.PerformAll` | orizon-os-x86_64/limine/limine.c:426-497 | over any run each read returns what was last written, and the logical disk is the flat disk after all writes |
| `InstallRun.Install` | orizon-os-x86_64/limine/limine.c:1049-1070 | a run ends with the medium equal to the flat disk and a journal that undoes it, or rolled back; without a failed access it succeeds if and only if it writes at most 256 times, and the rollback restores every byte; with one, all but the bytes of a write that spans blocks |
| `InstallRun.WholeRollback` | orizon-os-x86_64/limine/limine.c:327-333 | the reversed journal of a completed run gives the whole original back |
| `UninstallFile.Save` | orizon-os-x86_64/limine/limine.c:341-379 | succeeds exactly when every record has data and the file fits, and then the file is the encoded journal |
| `UninstallFile.FileLayout` | orizon-os-x86_64/limine/limine.c:341-379 | the file is the number of records, then for each its place, length and data, the numbers in eight little-endian bytes |
| `UninstallFile.Load` | orizon-os-x86_64/limine/limine.c:381-424 | for every file: returns what it decodes to; with enough memory it refuses exactly the files that do not decode, and runs past its 256-place table exactly for those that claim more than 256 records and hold 256 |
| `UninstallFile.OverrunReached` | orizon-os-x86_64/limine/limine.c:395-413 | any 256 records under a count of 257 send the loader past its table |
| `UninstallFile.DecodeEncode` | orizon-os-x86_64/limine/limine.c:341-424 | a stored journal is read back whatever follows it in the file |
| `UninstallFile.DecodeExact` | orizon-os-x86_64/limine/limine.c:381-424 | the loader accepts a file as journal rs if and only if rs is storable and the file starts with its encoding |
| `UninstallFile.UninstallFrom` | orizon-os-x86_64/limine/limine.c:655-664 | for every file: a restored result means the medium has the decoded journal replayed; an incomplete one that the file does not decode, memory ran out or an access failed |
| `UninstallFile.SaveThenUninstall` | orizon-os-x86_64/limine/limine.c:341-424 | storing a journal and uninstalling with the file in a later process replays exactly that journal |
| `UninstallFile.InstallThenUninstall` | orizon-os-x86_64/limine/limine.c:655-664 | installing, storing the journal, and uninstalling in a later process restores the device |
| `Crc32.TableEntry` | orizon-os-x86_64/limine/limine.c:115-159 | every one of the 256 table entries is eight steps of the bit-at-a-time CRC |
| `Crc32.EightLinear` | orizon-os-x86_64/limine/limine.c:161-171 | the bit-at-a-time register is linear over exclusive or |
| `Crc32.ByteStep` | orizon-os-x86_64/limine/limine.c:165-167 | one table step equals eight bit steps for every register value |
| `Crc32.Compute` | orizon-os-x86_64/limine/limine.c:161-171 | the table-driven loop equals the bit-at-a-time CRC-32 of every byte string |
| `Crc32.CheckValue` | orizon-os-x86_64/limine/limine.c:161-171 | the nine ASCII digits have the check value 0xCBF43926 |
| `GptLayout.PlaceIs` | orizon-os-x86_64/limine/limine.c:935-940 | rounding down from the end of the 32 blocks gives the block-aligned place, inside those blocks |
| `GptLayout.SecondHalfClears` | orizon-os-x86_64/limine/limine.c:938-940 | the second half ends below the secondary header if and only if the secondary array has 32 blocks before that header |
| `GptLayout.SecondHalfOverlaps` | orizon-os-x86_64/limine/limine.c:938-940 | the second half overwrites part of the secondary header if and only if that header's block is one of the last blocks of the 32 that the half takes |
| `GptLayout.SixteenBlockArray` | orizon-os-x86_64/limine/limine.c:938-940 | it does for 512-byte blocks, an array of 16 blocks before the header and a half of 10752 bytes |
| `GptLayout.FourBlockArray` | orizon-os-x86_64/limine/limine.c:938-940 | with 4096-byte blocks and the usual four-block array any 16-bit half lies wholly beyond the header, at least twelve blocks behind it |
| `GptLayout.PlanApart` | orizon-os-x86_64/limine/limine.c:935-947 | for a table regular in all else, nothing the installer writes overlaps if and only if the secondary array has 32 blocks before its header |
| `GptLayout.PlanInRange` | orizon-os-x86_64/limine/limine.c:935-947 | in-range tables give places and array ends that stay in 64 bits |
| `GptContents.ZeroEntriesAt` | orizon-os-x86_64/limine/limine.c:959-969 | the zeroing loop clears exactly the bytes of the entries it names |
| `GptContents.HeaderRecords` | orizon-os-x86_64/limine/limine.c:989-1006 | a rewritten header records the new count and array checksum, carries the checksum of its first 92 bytes with that field zeroed, and is otherwise unchanged |
| `GptContents.BootSector` | orizon-os-x86_64/limine/limine.c:1019-1047 | the boot sector is the image with the pointers to the halves, and the old timestamp and partition table |
| `GptContents.HalfAt` | orizon-os-x86_64/limine/limine.c:1029-1041 | the two halves of the second stage arrive at the places the boot sector names |
| `GptContents.HeaderOverwritten` | orizon-os-x86_64/limine/limine.c:1004-1031 | where the second half reaches the secondary header the finished device has the half there |
| `GptContents.ArraysAfter` | orizon-os-x86_64/limine/limine.c:959-969 | in both arrays the kept entries stay and the other retained ones become zero |
| `GptContents.EmbeddingResult` | orizon-os-x86_64/limine/limine.c:959-1006 | the finished device has both arrays as described, and both headers record the checksum of the array actually behind them |
| `GptContents.BothRecorded` | orizon-os-x86_64/limine/limine.c:979-1006 | read back from the finished device, both headers hold the right count, array checksum and own checksum |
| `GptContents.Untouched` | orizon-os-x86_64/limine/limine.c:920-1047 | every other byte of the device is unchanged |
| `GptInstall.Scan` | orizon-os-x86_64/limine/limine.c:920-933 | the scan finds the end of the used entries: the last kept one is used and none after it |
| `GptInstall.UpdateHeader` | orizon-os-x86_64/limine/limine.c:989-993 | the field assignments build the header GptContents describes, the own checksum taken with the field zeroed |
| `GptInstall.Plans` | orizon-os-x86_64/limine/limine.c:874-883 | the installer's computation of sizes, places and entry count agrees with the closed form |
| `GptInstall.WriteStages` | orizon-os-x86_64/limine/limine.c:1019-1047 | the writes common to every installation produce the described boot sector and halves, with one journal record each; they stop only after a failed access or for want of nine records, and name the one write that may be half done |
| `GptInstall.ZeroArray` | orizon-os-x86_64/limine/limine.c:956-969 | clears exactly the named entries, with one record each; stops only after a failed access or for want of records; reads past the buffer of zeros only if the entries of this array are larger than it |
| `GptInstall.WriteHeaders` | orizon-os-x86_64/limine/limine.c:972-1006 | both headers are rewritten with the checksum of the array as it now stands, the empty one included |
| `GptInstall.WriteTables` | orizon-os-x86_64/limine/limine.c:956-1006 | arrays, then headers, with the point at which the journal or the buffer ends it decided by the plan |
| `GptInstall.Embed` | orizon-os-x86_64/limine/limine.c:920-1047 | for every table whose addresses stay in 64 bits: without a failed access it succeeds, is refused, reads past its buffer or divides by zero exactly as the table decides; on success the logical device is the result of the listed writes in order, with one journal record each |
| `GptInstall.LargeBlocksOverflow` | orizon-os-x86_64/limine/limine.c:959-969 | 4096-byte blocks with 128-byte entries leave more entries to zero than the journal can record |
| `GptInstall.ShippedFate` | orizon-os-x86_64/limine/limine.c:874-969 | for the image compiled in and 128-byte entries: 512-byte blocks are embedded into if and only if the used entries are among the first 44, 4096-byte blocks if and only if 806 to 928 must stay |
| `GptInstall.ShippedOverRead` | orizon-os-x86_64/limine/limine.c:956-969 | for that image, 512-byte blocks and 128-byte entries the buffer of zeros is read past its end if and only if the secondary header gives larger entries and fewer than 44 must stay |
| `GptInstall.ShippedEmpty` | orizon-os-x86_64/limine/limine.c:965-1031 | for that image a journal record is empty if and only if the secondary header gives the entry size zero and there is an entry to clear |
| `GptInstall.BiosInstall` | orizon-os-x86_64/limine/limine.c:667-1070 | for every such table: without a failed access the outcome is the one the table on the device decides, and undoing restores every byte; with one it is that or the rollback, which restores every byte outside at most one planned write that spans blocks; success leaves the described medium and a journal that undoes it; a table of at most 128 entries of 128 bytes on 4096-byte blocks always ends in the rollback |
| `GptOnDisk.Install` | orizon-os-x86_64/limine/limine.c:667-1070 | told by the bytes of the device alone: after success on a table with room both arrays lie where bytes 72 to 80 of the two headers put them, each half is in the 32 blocks from its own array behind what is left of it, the boot sector points to both, the headers record count and checksums, and every used entry is in both arrays; without a failed access it succeeds if and only if the used entries are among those retained and 256 records suffice, and else restores everything |
| `GptInstall.InstallThenUninstall` | orizon-os-x86_64/limine/limine.c:655-1070 | embedding, storing the journal and uninstalling later restores the device; an embedding that leaves an empty record is never stored |
| `GptInstall.SecondaryHeaderLost` | orizon-os-x86_64/limine/limine.c:935-1031 | where the halves overlap the secondary header, a device successfully installed on has image bytes in place of that header |
| `GptInstall.UsedEntrySurvives` | orizon-os-x86_64/limine/limine.c:920-969 | every used entry of a well-formed table is byte for byte the same in both arrays of the finished device |
| `GptInstall.HeadersRecordArrays` | orizon-os-x86_64/limine/limine.c:979-1006 | both headers of a device installed on with a well-formed table are right about count and checksums |
| `Rings.WrapVisible` | orizon-os-x86_64/kernel/drivers/net.c:975-983 | 16-bit ring indices address the same slots as unbounded counters if and only if the queue size divides 65536 |
| `Rings.WrapCollides` | orizon-os-x86_64/kernel/drivers/net.c:949-983 | of the at most count entries in use at once two can share a slot if and only if 0 < 65536 mod size < count |
| `Rings.TwentyFour` | orizon-os-x86_64/kernel/drivers/net.c:863-871 | a queue of 24 with 24 receive buffers collides at the wrap, one of 96 with 32 does not |
| `Rings.SlotsApart` | orizon-os-x86_64/kernel/drivers/net.c:975-983 | in every other queue no two entries in use share a slot, across the wrap of the 16-bit index too |
| `Rings.WindowPush` | orizon-os-x86_64/kernel/drivers/net.c:1031-1034 | storing at the index slot appends to the ring's window and moves no other entry |
| `Rings.WindowPop` | orizon-os-x86_64/kernel/drivers/net.c:976-983 | advancing the index drops exactly the oldest entry |
| `Rings.PartitionPost` | orizon-os-x86_64/kernel/drivers/net.c:1031-1034 | handing a free buffer over keeps each id in exactly one place |
| `Rings.PartitionReap` | orizon-os-x86_64/kernel/drivers/net.c:976-983 | consuming a used entry moves its id back to the free set and nowhere else |
| `VirtioQueue.PostKeeps` | orizon-os-x86_64/kernel/drivers/net.c:1031-1034 | publishing an entry and then the index keeps the queue invariant across index wrap |
| `VirtioQueue.ReapKeeps` | orizon-os-x86_64/kernel/drivers/net.c:976-983 | consuming the entry at last_used keeps the invariant and reads the oldest answer |
| `VirtioQueue.UsedIdxTest` | orizon-os-x86_64/kernel/drivers/net.c:975-976 | comparing 16-bit last_used with the used index decides whether an answer is waiting |
| `VirtioQueue.EntryKeeps` | orizon-os-x86_64/kernel/drivers/net.c:1030-1033 | a ring entry written before its index is invisible to the device |
| `VirtioQueue.EveryPostingAccounted` | orizon-os-x86_64/kernel/drivers/net.c:949-1091 | in every state of every run of a transmit queue from the empty one, each posting is exactly once waiting, held or answered, with the bytes it was posted with |
| `VirtioQueue.RunKeeps` | orizon-os-x86_64/kernel/drivers/net.c:949-1091 | the invariant holds in every state of every interleaving of driver and device steps from the empty queue, for every queue size whose entries in use cannot collide |
| `VirtioNet.TxDriver.Reclaim` | orizon-os-x86_64/kernel/drivers/net.c:969-984 | clears exactly the flags of answered slots, terminating while the device keeps answering |
| `VirtioNet.FindFree` | orizon-os-x86_64/kernel/drivers/net.c:995-1005 | the first slot from virtio_tx_next on that is not in flight, or none when all are |
| `VirtioNet.TxDriver.Fill` | orizon-os-x86_64/kernel/drivers/net.c:1007-1028 | only a slot the driver owns is written; no buffer the device may read changes |
| `VirtioNet.TxDriver.SendEthernet` | orizon-os-x86_64/kernel/drivers/net.c:986-1039 | a frame is submitted with exactly its padded bytes, or refused only when every slot is with the device; in flight means not free after every call |
| `VirtioNet.FrameLayout` | orizon-os-x86_64/kernel/drivers/net.c:1006-1020 | in the bytes handed over the destination comes first, then the source, the type most significant byte first, the payload, and zeros to 60 bytes behind the VirtIO header |
| `VirtioNet.RxDriver.constructor` | orizon-os-x86_64/kernel/drivers/net.c:949-967 | seeding hands every buffer to the device and keeps none |
| `VirtioNet.RxDriver.RecvEthernet` | orizon-os-x86_64/kernel/drivers/net.c:1041-1091 | frames come out once each in answer order, truncated and checked as the code does, and every buffer is available, held or used again on return |
| `VirtioNet.SentIsDelivered` | orizon-os-x86_64/kernel/drivers/net.c:1006-1091 | a frame sent is delivered by the receive path with its sender, its type and its payload filled up to 46 bytes, if and only if the caller has room |
| `VirtioNet.DeliveredParts` | orizon-os-x86_64/kernel/drivers/net.c:1058-1085 | any frame is delivered as the six bytes of its sender, its type and what follows, at most 1504 bytes; refused if and only if it is empty or the caller has no room |
| `NvmeQueue.PhaseStep` | orizon-os-x86_64/kernel/drivers/storage.c:1212-1215 | flipping the phase when the head returns to zero follows the lap count |
| `NvmeQueue.FirstLaps` | orizon-os-x86_64/kernel/drivers/storage.c:1212-1215 | the phase is one in the first lap and zero in the second |
| `NvmeQueue.StaleEntry` | orizon-os-x86_64/kernel/drivers/storage.c:1202-1203 | until the controller writes it, the head entry shows the phase of the previous lap |
| `NvmeQueue.QueuePair.EntryIsNew` | orizon-os-x86_64/kernel/drivers/storage.c:1202-1211 | the head entry shows the expected phase exactly when the command just submitted is completed, and it is that command's entry |
| `NvmeQueue.QueuePair.SubmitSync` | orizon-os-x86_64/kernel/drivers/storage.c:1185-1238 | at any controller pace the completion accepted is for the command just submitted, indices and phase stay functions of the completion count, and a timeout means no completion by the last of 10000000 polls |
| `NvmeQueue.SubmitAll` | orizon-os-x86_64/kernel/drivers/storage.c:1239-1250 | over a whole run each result is the status of its own command, in order |
| `NvmeShim.SectorAfterWrite` | orizon-os-x86_64/kernel/drivers/storage.c:1427-1440 | patching a native block changes one 512-byte sector and no neighbour |
| `NvmeShim.SectorIsFlat` | orizon-os-x86_64/kernel/drivers/storage.c:1427-1440 | sector k is bytes 512 k to 512 k + 512 of the medium whatever the native block size |
| `NvmeShim.Namespace.WriteSector` | orizon-os-x86_64/kernel/drivers/storage.c:1421-1440 | one sector written, all others kept, or nothing changed |
| `NvmeShim.Namespace.Io` | orizon-os-x86_64/kernel/drivers/storage.c:1412-1446 | a transfer moves exactly the first `done` sectors, all of them if and only if no native command failed and a block fits the scratch buffer |
| `NvmeShim.ReadBack` | orizon-os-x86_64/kernel/drivers/storage.c:1412-1446 | sectors read after a write are those written |
| `TcpServer.TcpServerRecord.Poll` | orizon-os-x86_64/kernel/drivers/netstack.c:1360-1496 | the fields after a poll, its result code, the bytes delivered and the segment handed to the link are those of the transition function, on every branch |
| `TcpServer.TcpServerRecord.Close` | orizon-os-x86_64/kernel/drivers/netstack.c:1329-1341 | closing disables the server and forgets the peer, and an established connection gets a FIN with its numbers |
| `TcpServer.TcpServerRecord.Reset` | orizon-os-x86_64/kernel/drivers/netstack.c:1303-1312 | resetting the peer returns to LISTEN, or CLOSED when disabled |
| `TcpRuns.StepKeeps` | orizon-os-x86_64/kernel/drivers/netstack.c:1289-1496 | every init, poll and close keeps: CLOSED iff disabled, LISTEN without peer and numbers, and seq and ack counted from ISS and the peer's ISN mod 2^32 |
| `TcpRuns.RunKeeps` | orizon-os-x86_64/kernel/drivers/netstack.c:1289-1496 | the same over every run from netstack_tcp_server_init on |
| `TcpLaws.OpensIff` | orizon-os-x86_64/kernel/drivers/netstack.c:1410-1434 | from LISTEN a connection is opened if and only if a SYN is heard and can be answered, with the numbers and the sender of that SYN |
| `TcpLaws.EstablishesIff` | orizon-os-x86_64/kernel/drivers/netstack.c:1436-1456 | SYN_RCVD becomes ESTABLISHED if and only if the SYN's sender acknowledges ISS + 1 without RST, and is given up if and only if it sends RST |
| `TcpLaws.LeavesIffInRuns` | orizon-os-x86_64/kernel/drivers/netstack.c:1440-1467 | in every run ESTABLISHED is left by a poll if and only if RST or FIN of the peer is heard, and is then LISTEN without peer and numbers |
| `TcpLaws.NextClient` | orizon-os-x86_64/kernel/drivers/netstack.c:1462-1467 | after the peer's FIN a SYN of any host opens the next connection |
| `TcpLaws.ForOthers` | orizon-os-x86_64/kernel/drivers/netstack.c:1394-1409 | frames for another address or port change nothing and are not answered |
| `TcpLaws.DataSent` | orizon-os-x86_64/kernel/drivers/netstack.c:1386-1392 | the caller's data goes out numbered from where the bytes sent so far end |
| `TcpLaws.SynAnswered` | orizon-os-x86_64/kernel/drivers/netstack.c:1418-1433 | a SYN is answered to its sender with the new initial number and acknowledging it |
| `TcpLaws.DataAcknowledged` | orizon-os-x86_64/kernel/drivers/netstack.c:1469-1489 | every data segment of the peer is answered with an acknowledgement of all bytes taken by then |
| `TcpLaws.FinAcknowledged` | orizon-os-x86_64/kernel/drivers/netstack.c:1462-1467 | a FIN is acknowledged with the number after it |
| `TcpLaws.SendsOnlyThen` | orizon-os-x86_64/kernel/drivers/netstack.c:1360-1496 | a poll sends nothing else |
| `TcpLaws.FarewellSent` | orizon-os-x86_64/kernel/drivers/netstack.c:1329-1341 | closing an established connection sends FIN with the numbers reached |
| `TcpLaws.CodesTell` | orizon-os-x86_64/kernel/drivers/netstack.c:1360-1496 | the result codes 3, 4, 5, 6 and -4 tell exactly establishment, data sent, loss of the connection and data taken |
| `TcpRuns.EstablishedByPeerAck` | orizon-os-x86_64/kernel/drivers/netstack.c:1445-1456 | ESTABLISHED is entered only by an ACK of ISS + 1 from the address and port that sent the SYN |
| `TcpRuns.StrangersIgnored` | orizon-os-x86_64/kernel/drivers/netstack.c:1410-1437 | outside LISTEN a segment from anyone else changes nothing but last_flags |
| `TcpRuns.DeliveredWholeIff` | orizon-os-x86_64/kernel/drivers/netstack.c:1469-1486 | an in-order segment is acknowledged whole but delivered whole if and only if the caller's buffer can take it |
| `TcpRuns.TruncatedDelivery` | orizon-os-x86_64/kernel/drivers/netstack.c:1416-1486 | a handshake and a two-byte segment for a caller with room for one acknowledges two bytes and delivers one |
| `TcpRuns.DeliveredIsPrefix` | orizon-os-x86_64/kernel/drivers/netstack.c:1410-1489 | from initialisation on and under any loss, repetition and reordering of segments cut from a stream shorter than 2^32, delivered bytes are a prefix and the acknowledgement number counts them |
| `TcpWire.CarriedIsHeard` | orizon-os-x86_64/kernel/drivers/netstack.c:1394-1409 | a frame built for a segment, with any padding, is heard by the poll as exactly that segment |
| `TcpWire.DeliveredOnWire` | orizon-os-x86_64/kernel/drivers/netstack.c:1360-1489 | for every run over frames, those of the peer built for pieces of its stream and lost, repeated or reordered at will: the bytes delivered are a prefix of that stream and exactly those are acknowledged |
| `TcpReceive.Deadlines.FromMs` | orizon-os-x86_64/kernel/drivers/netstack.c:193-204 | the deadline is the least whole number of ticks, at least one, that lasts the milliseconds; the fallback budget is restarted |
| `TcpReceive.Deadlines.Before` | orizon-os-x86_64/kernel/drivers/netstack.c:206-220 | true exactly until the deadline has passed or the timer has stood still for the whole budget |
| `TcpReceive.RecvBytes` | orizon-os-x86_64/kernel/drivers/netstack.c:1719-1795 | terminates under any traffic and any non-decreasing clock; output, acknowledgement number, acknowledgements sent and reason to stop are those of the fold over the frames received |
| `TcpReceive.FrameTaken` | orizon-os-x86_64/kernel/drivers/netstack.c:1748-1783 | data of the connection that continues it is appended as far as there is room and acknowledged whole, anything else changes nothing |
| `TcpReceive.AckOfFrame` | orizon-os-x86_64/kernel/drivers/netstack.c:1756-1777 | each data segment of the connection without RST, in order or not, is answered with the number reached |
| `TcpReceive.EndedBy` | orizon-os-x86_64/kernel/drivers/netstack.c:1752-1783 | the ending frame is the first of the connection with RST or FIN or the one that completes the data; RST comes before completion and completion before FIN, which takes one more number |
| `TcpReceive.GoesOn` | orizon-os-x86_64/kernel/drivers/netstack.c:1756-1783 | while it goes on the data is not complete and the buffer not full |
| `TcpReceive.FoldIsStream` | orizon-os-x86_64/kernel/drivers/netstack.c:1756-1783 | with one peer stream shorter than 2^32 the output is the contiguous piece of it from the acknowledgement number on entry |
| `TcpReceive.RecvStream` | orizon-os-x86_64/kernel/drivers/netstack.c:1719-1795 | run against one peer stream the receive loop returns the piece of it that starts where the connection stood on entry |
| `Checksum.Compute` | orizon-os-x86_64/kernel/drivers/netstack.c:304-320 | for every length the result is that of the word sum as 32 bits hold it, and so the one's complement checksum of every string up to 131074 bytes |
| `Checksum.PaddingRule` | orizon-os-x86_64/kernel/drivers/netstack.c:304-320 | an odd number of bytes is summed as if a zero byte followed (section 1 of RFC 1071) |
| `Checksum.WordSumIsNumber` | orizon-os-x86_64/kernel/drivers/netstack.c:304-320 | the sum is the whole string as one big-endian number modulo 2^16 - 1 |
| `Checksum.Examples` | orizon-os-x86_64/kernel/drivers/netstack.c:304-320 | the example of section 3 of RFC 1071 and a single byte |
| `Checksum.RightIff` | orizon-os-x86_64/kernel/drivers/netstack.c:304-320 | the 32-bit accumulation gives the right checksum if and only if the carries out of it are a multiple of 65535 and the wrapped sum is zero only for zero |
| `Checksum.FirstWrap` | orizon-os-x86_64/kernel/drivers/netstack.c:304-320 | 131076 bytes of ones get a wrong checksum |
| `Checksum.VerifiesIff` | orizon-os-x86_64/kernel/drivers/netstack.c:304-320 | a string verifies to zero if and only if its word sum is a positive multiple of 65535 |
| `Checksum.InsertVerifies` | orizon-os-x86_64/kernel/drivers/netstack.c:304-320 | putting the checksum into the zeroed field makes the string verify |
| `PacketFormat.HeaderVerifies` | orizon-os-x86_64/kernel/drivers/netstack.c:344-358 | every IPv4 header built verifies to zero |
| `PacketFormat.Ipv4RoundTrip` | orizon-os-x86_64/kernel/drivers/netstack.c:517-537 | every datagram built parses back to its addresses, protocol and payload, with link padding after it |
| `PacketFormat.UdpRoundTrip` | orizon-os-x86_64/kernel/drivers/netstack.c:473-500 | every UDP datagram built parses back to its addresses, ports and payload, with padding |
| `PacketFormat.TcpRoundTrip` | orizon-os-x86_64/kernel/drivers/netstack.c:1247-1277 | every segment built, with or without the option of a SYN, parses back to all its fields, with padding |
| `PacketFormat.TcpVerifies` | orizon-os-x86_64/kernel/drivers/netstack.c:1204-1244 | the transport checksum verifies over pseudo-header and segment |
| `PacketLayout.FlagBits` | orizon-os-x86_64/kernel/drivers/netstack.c:31-35 | FIN, SYN, RST and ACK are bits 0, 1, 2 and 4 |
| `PacketLayout.Ipv4Layout` | orizon-os-x86_64/kernel/drivers/netstack.c:338-361 | the fields of every datagram built lie where RFC 791 puts them, most significant byte first |
| `PacketLayout.UdpLayout` | orizon-os-x86_64/kernel/drivers/netstack.c:363-381 | the fields of every UDP message built lie where RFC 768 puts them |
| `PacketLayout.TcpLayout` | orizon-os-x86_64/kernel/drivers/netstack.c:1216-1244 | the fields of every segment built lie where RFC 9293 puts them, with window 8192 and segment size 1460 |
| `PacketLayout.TransportSum` | orizon-os-x86_64/kernel/drivers/netstack.c:1204-1244 | the checksum of every segment built, from its fields and its payload |
| `PacketLayout.OneByteSegment` | orizon-os-x86_64/kernel/drivers/netstack.c:1216-1244 | a segment with one byte of payload has the checksum 0x9E36 |
| `PacketLayout.TcpParsed` | orizon-os-x86_64/kernel/drivers/netstack.c:1247-1277 | any TCP packet, options included, is accepted if and only if its lengths agree, and its fields are read where they lie |
| `PacketLayout.UdpParsed` | orizon-os-x86_64/kernel/drivers/netstack.c:473-500 | the same for UDP |
| `PacketLayout.Ipv4Parsed` | orizon-os-x86_64/kernel/drivers/netstack.c:517-537 | a datagram is accepted if and only if its header verifies, and its fields are read where they lie |
| `PacketFormat.WordDamage` | orizon-os-x86_64/kernel/drivers/netstack.c:528-530 | a changed 16-bit word in a verified header is noticed if and only if it is not a flip between 0x0000 and 0xFFFF |
| `PacketSend.Sender.SendIpv4Raw` | orizon-os-x86_64/kernel/drivers/netstack.c:338-361 | the bytes handed to the link are the datagram with the next identification, or none above the MTU |
| `PacketSend.Sender.SendUdpRaw` | orizon-os-x86_64/kernel/drivers/netstack.c:363-380 | the frame built in place parses back whatever the link appends; refused exactly above the MTU |
| `PacketSend.Sender.TcpChecksum` | orizon-os-x86_64/kernel/drivers/netstack.c:1204-1214 | the checksum over pseudo-header and segment |
| `PacketSend.Sender.SendTcp` | orizon-os-x86_64/kernel/drivers/netstack.c:1216-1245 | the frame built in place parses back to the segment whatever the link appends; refused exactly when it does not fit |
| `Prf.HmacVector` | orizon-os-x86_64/kernel/drivers/netstack.c:2341-2381 | the padded-key loops and the update calls compute HMAC (RFC 2104) of the concatenated parts, for short and long keys |
| `Prf.KeyLaws` | orizon-os-x86_64/kernel/drivers/netstack.c:2341-2357 | a long key counts as its hash and a short one as if zeros followed |
| `Prf.HmacOfBlock` | orizon-os-x86_64/kernel/drivers/netstack.c:2341-2381 | for a key of one block the inner hash takes the key with 0x36, the outer one with 0x5c |
| `Prf.TlsPrf` | orizon-os-x86_64/kernel/drivers/netstack.c:2391-2432 | fills the output with exactly the first bytes of P_SHA256(secret, label + seeds), A(i) updated in place; refused exactly for seeds over 128 bytes |
| `Prf.PrefixStable` | orizon-os-x86_64/kernel/drivers/netstack.c:2391-2432 | a shorter output is a prefix of a longer one |
| `Prf.ByteOf` | orizon-os-x86_64/kernel/drivers/netstack.c:2415-2429 | byte j comes from the HMAC under A(j / 32 + 1) |
| `Prf.TwoBlocks` | orizon-os-x86_64/kernel/drivers/netstack.c:2415-2429 | the first two blocks spelled out |
| `Prf.MasterIs` | orizon-os-x86_64/kernel/drivers/netstack.c:3382-3396 | the master secret is 48 bytes from the label in ASCII and the two randoms, the client's first, or the session hash |
| `Prf.KeySchedule` | orizon-os-x86_64/kernel/drivers/netstack.c:3382-3422 | the four keys are cut 16/16/4/4 in order from the key block of the master secret, whose label is in ASCII and is followed by the server's random first, for the two AES-128-GCM suites only |
| `StaticConfig.ScanIpv4` | orizon-os-x86_64/kernel/drivers/netstack.c:264-302 | the loop with its array of parts computes the automaton that accepts four decimal parts up to 255 between spaces |
| `Ipv4Text.ParseExact` | orizon-os-x86_64/kernel/drivers/netstack.c:264-302 | a text is accepted as an address if and only if it is four decimal parts up to 255, leading zeros allowed, with dots between and spaces around, and the address is theirs |
| `Ipv4Text.AddressIs` | orizon-os-x86_64/kernel/drivers/netstack.c:258-302 | the parts of an address are its bytes, most significant first |
| `Ipv4Text.DecimalIs` | orizon-os-x86_64/kernel/drivers/netstack.c:258-262 | printed parts denote their number and have no leading zero |
| `StaticConfig.ParseFormat` | orizon-os-x86_64/kernel/drivers/netstack.c:258-302 | every address printed is parsed back |
| `ConfigFile.FindValue` | orizon-os-x86_64/kernel/drivers/netstack.c:795-832 | the line and key loops find the token after the first line with the key |
| `ConfigFile.FoundToken` | orizon-os-x86_64/kernel/drivers/netstack.c:795-832 | after the key and any blanks the value ends at a blank, the end of the line or of the text, and is refused if and only if it does not fit |
| `ConfigFile.PassedOver` | orizon-os-x86_64/kernel/drivers/netstack.c:795-832 | a line that does not begin with the key and a blank is passed over |
| `ConfigFile.Load` | orizon-os-x86_64/kernel/drivers/netstack.c:870-890 | loading a text applies mode, required keys and defaults as the functions state them |
| `ConfigFile.LoadIs` | orizon-os-x86_64/kernel/drivers/netstack.c:846-890 | a static configuration takes effect if and only if it has address and gateway and the link is up; a mask missing or zero is 255.255.255.0, a name server missing or zero the gateway |
| `ConfigFile.FileIs` | orizon-os-x86_64/kernel/drivers/netstack.c:911-917 | the saved file, line by line |
| `ConfigFile.Printed` | orizon-os-x86_64/kernel/drivers/netstack.c:258-262 | an address is printed from its most significant byte on |
| `ConfigFile.FileValues` | orizon-os-x86_64/kernel/drivers/netstack.c:911-917 | every line of a saved file is found under its key with its address |
| `ConfigFile.SaveLoad` | orizon-os-x86_64/kernel/drivers/netstack.c:892-931 | saving then loading gives the same addresses with /24 and gateway defaults; nothing without address or gateway is saved; the text fits its buffer |

## Left out

- GptInstall.BiosInstall: addresses computed from the headers stay in 64 bits and the image is one whose halves fit, as the one compiled in; nothing is said of what follows a read past the buffer.
- GptInstall.Embed: as for the whole installation, wrap-around of addresses is not modelled, and the unchecked allocation of the buffer of zeros succeeds.
- GptInstall.UsedEntrySurvives: for well-formed tables; other tables get the exact result of the writes instead.
- The MBR branch with its sanity checks and installing into a named GPT partition: not modelled.
- UninstallFile.UninstallFrom: nothing is said of what happens after the loader has run past its table.
- Field51.Reduce: limbs whose first-round carries wrap 64 bits, which no caller produces, are outside the contract.
- InstallRun.Install: bytes of a block-spanning write that failed half way are not restored, as in the source.
- BlockCache.Device.Uninstall: after a failed retry the cache is not invalidated, as in the source; the result is false and says nothing about the medium.
- NvmeQueue.QueuePair.SubmitSync: queues of at least two entries, since the doorbell value of a one-entry queue never changes; nothing is claimed about the queue after a timeout, where the source leaves the completion unconsumed.
- NvmeShim.Namespace.Io: a native command that fails leaves its block unchanged; the driver-ready checks are omitted.
- VirtioQueue.RunKeeps: queue sizes whose entries can collide at the index wrap are outside the invariant, since there an entry in use is overwritten.
- VirtioNet.TxDriver.SendEthernet: payloads within the maximum frame, which the callers guarantee; doorbell writes and queue setup registers are omitted.
- TcpServer.TcpServerRecord.Poll: ARP handling and the packet counters are not specified; whether a transmission succeeds is an input.
- TcpReceive.RecvBytes: whether an acknowledgement reaches the wire is left open, and FIN is not checked against sequence numbers, as in the source.
- PacketSend.Sender.SendTcp: the result of the link layer and ARP resolution are omitted.
- Prf.KeySchedule: the readiness flags, printable digests and the Finished message are omitted.
- ConfigFile.Load: file system calls are omitted; the text is what was written.
- SHA-256 and AES-GCM: not modelled; the hash is any function with 32-byte results.
- MontgomeryCurve.AffineDivides: that 2^255 - 19 is prime, so that Fermat's theorem gives the hypothesis, is not proved.
- Elliptic-curve group theory: doubling and addition are those of tangent and chord; that they form a group is not proved.
- tcp_connect, tcp_recv_all, DHCP, DNS, ARP, ICMP and HTTP loops: long branch-by-branch code that would add easy members.
- X.509 and TLS record parsing, status strings and logging: parsing and formatting without a law of their own.
- AHCI and VirtIO block paths: one request at a time, nothing beyond the NVMe and VirtIO network models.
- PCI, MMIO, timers, framebuffer, keyboard, scheduler, file system and the Python scripts: hardware plumbing and tooling.

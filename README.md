# Encoded attestation history (slashing protection, v2)

A validator client must not sign two conflicting attestations. To avoid that,
it keeps, per validator key, an encoded attestation history (`EncHistoryData`).
This is a flat byte buffer that records, for each recent target epoch, the
source epoch and the signing root it already signed.

This project models that codec and the one operation built on it,
`MarkAllAsAttestedSinceLatestWrittenEpoch`, and proves properties about them.

## Layout

- **Header.** An 8-byte little-endian "latest epoch written".
- **Ring of 48-byte entries.** The header is followed by a ring of entries. Target
  epoch `t` uses the entry at `8 + (t mod WeakSubjectivityPeriod) * 48`.
- **Entry contents.** Each entry holds the 8-byte little-endian source epoch, then
  the 32-byte signing root. Its last 8 bytes are never read or written.
- **Size check.** A buffer is accepted by `assertSize` when its length is
  `8 + 48k`.
- **Empty marker.** An entry whose source is `FarFutureEpoch` counts as empty.

## Modules

- `Bytes` (`bytes.dfy`): bytes, `uint64`, and the 8-byte little-endian encoding
  (`bytesutil.Uint64ToBytesLittleEndian`, `bytesutil.FromBytes8`) with both
  round trips. Also the effect of Go's `copy`.
- `AttestationHistory` (`history.dfy`): the layout constants and `assertSize`,
  `IsEmpty` and `emptyHistoryData`. It also has the getters, and the two setters
  as functions on byte sequences (`WithLatestEpochWritten`, `WithTargetData`).
  The lemmas here cover round trips, frame, modular indexing and growth.
- `HistoryBuffer` (`history_buffer.dfy`): the setters as methods on
  `array<byte>`, proved against those functions, and
  `NewAttestationHistoryArray` with its loop.
  - A Go slice is an array whose capacity equals its length.
  - A write that fits changes the array in place and returns it.
  - A write past the end returns a fresh zero-extended array and leaves the
    original as it was.
- `MarkAttested` (`mark_attested.dfy`): the filler loop, the header update and
  the final write, as methods on arrays.
  - These methods are proved against `MarkAllSpec`. That function describes the
    returned buffer, what the caller's `hist` holds afterwards, and whether the
    two are the same array.
  - The loop writes through `hist` and keeps only the last result in
    `currentHD`. `Buffers` records whether `currentHD` is `hist` itself or a
    detached grown copy.

## Model

| member | source | states |
|---|---|---|
| Bytes.Uint64ToBytes | validator/db/kv/attestation_history_v2.go:97 | `Uint64ToBytesLittleEndian` gives 8 bytes |
| Bytes.Uint64ToBytesIsLittleEndian | validator/db/kv/attestation_history_v2.go:97 | those 8 bytes are the general little-endian encoding at width 8: byte k holds bits 8k to 8k + 7 |
| Bytes.BytesToUint64 | validator/db/kv/attestation_history_v2.go:90 | `FromBytes8` reads the first byte as the least significant one |
| Bytes.DecodesTo | validator/db/kv/attestation_history_v2.go:112 | 8 bytes decode to x exactly when they are x's encoding |
| Bytes.Uint64RoundTrip | validator/db/kv/attestation_history_v2.go:97 | decoding the 8-byte little-endian encoding of any uint64 gives it back |
| Bytes.BytesRoundTrip | validator/db/kv/attestation_history_v2.go:112 | encoding the value of any 8 bytes gives the same 8 bytes back |
| Bytes.Copied | validator/db/kv/attestation_history_v2.go:114 | `copy(dst, src)` overwrites the first min(len dst, len src) bytes with `src` and keeps the rest of `dst` |
| AttestationHistory.AssertSize | validator/db/kv/attestation_history_v2.go:42-50 | fails with "too small" exactly when shorter than the 8-byte header; every error carries the buffer's length |
| AttestationHistory.AssertSizeAccepts | validator/db/kv/attestation_history_v2.go:42-50 | accepts exactly the lengths 8 + 48k, k >= 0 |
| AttestationHistory.EmptyHistoryData | validator/db/kv/attestation_history_v2.go:62-65 | the marker is empty by `IsEmpty` and has a 32-byte all-zero root |
| AttestationHistory.IsEmpty | validator/db/kv/attestation_history_v2.go:52-60 | true for a nil entry or a far-future source, whatever the root |
| AttestationHistory.IsEmptyOnRead | validator/db/kv/attestation_history_v2.go:52-60 | an entry reads as empty iff it is absent or its source bytes encode the far-future epoch |
| AttestationHistory.Slot | validator/db/kv/attestation_history_v2.go:125 | the index `i % wsPeriod` that callers pass lies below the period and addresses the same entry as the target itself |
| AttestationHistory.Cursor | validator/db/kv/attestation_history_v2.go:107 | every entry starts past the header and ends within a ring of one period, so `cursor + historySize` never wraps as a uint64 |
| AttestationHistory.GetLatestEpochWritten | validator/db/kv/attestation_history_v2.go:86-91 | fails exactly when `assertSize` fails, and then with its error |
| AttestationHistory.WithLatestEpochWritten | validator/db/kv/attestation_history_v2.go:93-99 | fails exactly when `assertSize` fails, with its error; otherwise keeps the length and a valid size |
| AttestationHistory.LatestEpochRoundTrip | validator/db/kv/attestation_history_v2.go:86-99 | after setting the header to x it reads x; the length and every byte from offset 8 on are unchanged |
| AttestationHistory.EntriesUnchangedByHeader | validator/db/kv/attestation_history_v2.go:97 | writing the header leaves every entry reading as before |
| AttestationHistory.GetTargetData | validator/db/kv/attestation_history_v2.go:101-117 | fails exactly when `assertSize` fails, and then with its error; "no entry" exactly when the buffer is shorter than cursor + 48; a read root always has 32 bytes |
| AttestationHistory.ZeroEntryReads | validator/db/kv/attestation_history_v2.go:107-115 | an entry of zero bytes reads as source 0 with a zero root |
| AttestationHistory.ZeroExtended | validator/db/kv/attestation_history_v2.go:127-130 | the grown buffer has length max(len, cursor + 48) |
| AttestationHistory.ZeroExtendedKeeps | validator/db/kv/attestation_history_v2.go:127-130 | growth keeps every old byte and adds only zeros |
| AttestationHistory.CopiedAt | validator/db/kv/attestation_history_v2.go:131-132 | a copy into a window of the buffer keeps its length |
| AttestationHistory.CopiedAtIsCopy | validator/db/kv/attestation_history_v2.go:131-132 | a copy into the window `g[lo:hi]` is Go's `copy` on that window, with the bytes outside it kept |
| AttestationHistory.EntryEndWellFormed | validator/db/kv/attestation_history_v2.go:127-130 | a buffer grown to end right after an entry passes `assertSize` |
| AttestationHistory.WithTargetData | validator/db/kv/attestation_history_v2.go:119-134 | fails exactly when `assertSize` fails, with its error; the result has a valid size and length max(len, cursor + 48) |
| AttestationHistory.EntryWriteBytes | validator/db/kv/attestation_history_v2.go:125-133 | the source bytes hold the encoded source; the root bytes hold `copy`'s result; every other byte keeps its old value, or is zero when added |
| AttestationHistory.StoredSource | validator/db/kv/attestation_history_v2.go:131 | after a write the entry lies inside the buffer and its source bytes encode the source |
| AttestationHistory.StoredRoot | validator/db/kv/attestation_history_v2.go:132 | after a write the root read back is the given root copied over the previous root bytes |
| AttestationHistory.TargetDataRoundTrip | validator/db/kv/attestation_history_v2.go:101-134 | writing then reading an entry gives the source and the `copy`-merged root; a 32-byte root reads back unchanged |
| AttestationHistory.HeaderUnchangedByEntry | validator/db/kv/attestation_history_v2.go:119-134 | writing an entry leaves the header bytes and the latest epoch written unchanged |
| AttestationHistory.DisjointEntries | validator/db/kv/attestation_history_v2.go:125-132 | an entry write touches no byte of an entry with a different residue |
| AttestationHistory.OtherEntryUnchanged | validator/db/kv/attestation_history_v2.go:119-134 | writing one entry leaves every other existing entry reading as before |
| AttestationHistory.GrownEntryReadsZero | validator/db/kv/attestation_history_v2.go:127-130 | an entry brought into range by growth, but not written, reads as source 0 with a zero root, not as "no entry" |
| AttestationHistory.SameEntryNextPeriod | validator/db/kv/attestation_history_v2.go:107 | targets t and t + period share cursor, read result and write result |
| AttestationHistory.SameEntryAsResidue | validator/db/kv/attestation_history_v2.go:125 | targets t and t mod period share cursor, read result and write result |
| HistoryBuffer.CopyInto | validator/db/kv/attestation_history_v2.go:131-132 | the array afterwards is `copy(dst[lo:hi], src)` applied to its old contents |
| HistoryBuffer.SetLatestEpochWritten | validator/db/kv/attestation_history_v2.go:93-99 | on failure the array is untouched; otherwise it is updated in place to `WithLatestEpochWritten` and returned |
| HistoryBuffer.SetTargetData | validator/db/kv/attestation_history_v2.go:119-134 | on failure untouched; returns `WithTargetData`'s contents, in the same array when the entry fits, else in a fresh one with the original left as it was |
| HistoryBuffer.NewAttestationHistoryArray | validator/db/kv/attestation_history_v2.go:69-84 | a fresh array of length 8 + (t mod period + 1) * 48; header reads 0; entries up to t mod period read `emptyHistoryData`; later ones read "no entry" |
| HistoryBuffer.MarkEmpty | validator/db/kv/attestation_history_v2.go:77-82 | one loop iteration extends the run of empty entries by one and keeps the zero header |
| HistoryBuffer.EmptyRing | validator/db/kv/attestation_history_v2.go:69-84 | a buffer of all-empty entries reads empty for every target in range and "no entry" beyond |
| MarkAttested.MaxToWrite | validator/db/kv/attestation_history_v2.go:153 | `latest + period` with uint64 wrap-around |
| MarkAttested.FillerCount | validator/db/kv/attestation_history_v2.go:154 | the loop runs at most one period of iterations without passing 2^64 |
| MarkAttested.FillerEpochs | validator/db/kv/attestation_history_v2.go:154 | the loop visits exactly the epochs i with latest < i < incoming and i <= maxToWrite; all of them lie within one period of latest |
| MarkAttested.FillerData | validator/db/kv/attestation_history_v2.go:155-157 | the filler entry is empty by `IsEmpty` and has a nil root, so its write leaves the root bytes as they were |
| MarkAttested.FillerStep | validator/db/kv/attestation_history_v2.go:155-161 | one iteration keeps the length of `hist` |
| MarkAttested.FillFrom | validator/db/kv/attestation_history_v2.go:154-162 | the filler loop, one `FillerStep` per visited epoch, keeps the length of `hist` |
| MarkAttested.FillFromSizes | validator/db/kv/attestation_history_v2.go:154-162 | `hist` and `currentHD` pass `assertSize` throughout the loop, so no loop write fails |
| MarkAttested.FillEpoch | validator/db/kv/attestation_history_v2.go:155-161 | one iteration updates `hist` and `currentHD` as `FillerStep` says, in place or through a fresh copy |
| MarkAttested.FillSkippedEpochs | validator/db/kv/attestation_history_v2.go:153-162 | the loop leaves `hist` and `currentHD` as `FillFrom` over the visited epochs says |
| MarkAttested.LatestOnCurrent | validator/db/kv/attestation_history_v2.go:163-167 | the header update on `currentHD` keeps the lengths of `hist` and `currentHD` |
| MarkAttested.LatestOnCurrentReads | validator/db/kv/attestation_history_v2.go:163-167 | after the header update, `currentHD`'s header reads the incoming target |
| MarkAttested.BeforeFinalWrite | validator/db/kv/attestation_history_v2.go:149-168 | before the final write, `hist` keeps its length |
| MarkAttested.PrepareFinalWrite | validator/db/kv/attestation_history_v2.go:149-168 | before the final write, `hist` and `currentHD` are as `BeforeFinalWrite` says |
| MarkAttested.FinalWrite | validator/db/kv/attestation_history_v2.go:169-176 | fails exactly when `currentHD` fails `assertSize`; `hist` afterwards is the result when they are one array, and as before otherwise |
| MarkAttested.MarkAllSpec | validator/db/kv/attestation_history_v2.go:138-177 | fails with the size error when `hist` fails `assertSize`; `hist` keeps its length |
| MarkAttested.MarkAllAsAttestedSinceLatestWrittenEpoch | validator/db/kv/attestation_history_v2.go:138-177 | returns `MarkAllSpec`'s buffer and leaves its `hist`, with the same aliasing (the same array, or a fresh one); on failure `hist` is untouched |
| MarkAttested.MarkAllFails | validator/db/kv/attestation_history_v2.go:145-148 | the call fails exactly when `hist` fails `assertSize` |
| MarkAttested.MarkAllHeader | validator/db/kv/attestation_history_v2.go:150-168 | the result's header is the incoming target when it is ahead of the latest written epoch, and unchanged otherwise |
| MarkAttested.BeforeFinalWriteHeader | validator/db/kv/attestation_history_v2.go:163-167 | when the final write begins, `currentHD` is well formed and its header is max(incoming, latest) |
| MarkAttested.FinalWriteHeader | validator/db/kv/attestation_history_v2.go:169-172 | the final write keeps `currentHD`'s header |
| MarkAttested.MarkAllIncomingEntry | validator/db/kv/attestation_history_v2.go:169-176 | the incoming target's entry holds the incoming source, and the whole attestation when its root has 32 bytes |
| MarkAttested.FillerStepFrame | validator/db/kv/attestation_history_v2.go:155-161 | a filler write to another entry keeps an entry's value in `hist` and in `currentHD` |
| MarkAttested.FillFromFrame | validator/db/kv/attestation_history_v2.go:154-162 | the loop keeps every entry that no visited epoch maps to |
| MarkAttested.LatestOnCurrentFrame | validator/db/kv/attestation_history_v2.go:163 | the header update keeps every entry, in `hist` and in `currentHD` |
| MarkAttested.BeforeFinalWriteFrame | validator/db/kv/attestation_history_v2.go:150-168 | before the final write, every entry no filler epoch maps to reads as in the input |
| MarkAttested.MarkAllFrame | validator/db/kv/attestation_history_v2.go:138-177 | filler writes touch only skipped epochs: an existing entry that neither a filler epoch nor the incoming target maps to reads as before, in the result and in `hist` |
| MarkAttested.SkippedEntryLost | validator/db/kv/attestation_history_v2.go:154-162 | as written, a skipped epoch can read source 0 instead of the far-future marker (period 4, one-entry buffer with header 0, target 3, epoch 1) |
| MarkAttested.MarkAllChained | validator/db/kv/attestation_history_v2.go:138-177 | the operation with the filler loop writing through `currentHD`; fails with the size error when `hist` does |
| MarkAttested.ChainedFillerStep | validator/db/kv/attestation_history_v2.go:155-161 | the corrected iteration writes through `currentHD` and keeps the length of `hist` |
| MarkAttested.ChainedFillFrom | validator/db/kv/attestation_history_v2.go:154-162 | the corrected loop keeps the length of `hist` |
| MarkAttested.ChainedBeforeFinalWrite | validator/db/kv/attestation_history_v2.go:149-168 | with the corrected loop, `hist` keeps its length until the final write |
| MarkAttested.FillerWriteMarks | validator/db/kv/attestation_history_v2.go:155-157 | a filler write marks its epoch empty |
| MarkAttested.FillerWriteKeeps | validator/db/kv/attestation_history_v2.go:155-157 | a filler write keeps the mark of an epoch in another entry |
| MarkAttested.ChainedStepMarks | validator/db/kv/attestation_history_v2.go:154-162 | one chained iteration marks its epoch and keeps the marks of the epochs before it |
| MarkAttested.ChainedFillFromMarks | validator/db/kv/attestation_history_v2.go:154-162 | the chained loop leaves every visited epoch marked empty |
| MarkAttested.LatestOnCurrentKeepsMark | validator/db/kv/attestation_history_v2.go:163 | the header update keeps every mark |
| MarkAttested.FinalWriteKeepsMark | validator/db/kv/attestation_history_v2.go:169-172 | the final write keeps the marks of epochs in other entries |
| MarkAttested.MarkAllChainedMarksSkipped | validator/db/kv/attestation_history_v2.go:154-162 | with the chained loop, every skipped epoch the loop visits reads as empty in the result, unless the incoming target shares its entry |

## Left out

- The `Store` methods of `validator/db/kv/attestation_history_v2.go` (lines 180-334) are left out. They are bbolt transactions and tracing spans.
- `validator/client/propose.go`, `validator/db/iface/interface.go` and `beacon-chain/forkchoice/protoarray/node_test.go` are not part of this model. They hold RPC and signing, an interface declaration, and getter tests.
- `bytesutil` is not part of this model. `FromBytes8` and `Uint64ToBytesLittleEndian` are modelled as 8-byte little-endian decoding and encoding. `PadTo([]byte{}, 32)` is modelled as 32 zero bytes.
- The `context.Context` arguments, tracing and logging are left out. They do not affect any byte. The error log at line 80 cannot be reached, because every write in that loop fits.
- `WeakSubjectivityPeriod` and `FarFutureEpoch` are fields of a `Config` parameter rather than read from the global beacon configuration.
- The period must be positive and small enough that `8 + period * 48` is a uint64 (`Period`). A larger period would make the cursor arithmetic at lines 71, 107 and 125 wrap.
- A nil `*HistoryData` passed to `SetTargetData`, or a nil `incomingAtt`, would panic and is not modelled. The core never passes the former, and the attestation is a value here.
- A nil buffer is modelled as a buffer of length 0. Both fail `assertSize` with the same message.
- Error values keep the `assertSize` error kind and length. They drop the message text and the `errors.Wrap` context, and the empty buffer returned beside an error is not modelled.
- The failure arms of the loop and of the two later writes (lines 158-160, 164-166, 173-175) are proved unreachable once the first size check passes. `FillerStep` and `LatestOnCurrent` map an impossible failure to "no change" only to stay total.
- Spare slice capacity is not modelled: every buffer has capacity equal to its length. When a buffer has spare capacity, `append` grows it in its own backing array instead of a fresh one. The contents returned are then the same, because each `append` writes zeros over that region again. But the aliasing differs: a grown `currentHD` then shares `hist`'s backing array, so the later in-place writes at lines 163 and 169 also change bytes of `hist`.
- MarkAllAsAttestedSinceLatestWrittenEpoch: the contents of the returned buffer hold for any capacity. What `hist` holds afterwards, and that a result not in `hist` is a fresh array, hold only when `hist` has no spare capacity.
- SetTargetData: the contents of the returned buffer hold for any capacity. That a growing write returns a fresh array and leaves the original untouched holds only when the buffer has no spare capacity.
- MarkAllIncomingEntry: states the whole entry only for a 32-byte root. For a shorter root, `copy` keeps the old trailing root bytes, as TargetDataRoundTrip states.
- MarkAllFrame: states the frame only for entries already inside `hist`. An entry that growth brings into range reads as source 0 with a zero root (GrownEntryReadsZero).

## Findings

| source | as written | input that shows it | evidently intended | confidence | as-written member | corrected member |
|---|---|---|---|---|---|---|
| validator/db/kv/attestation_history_v2.go:155 | the filler loop calls `hist.SetTargetData`, so a write that must grow `hist` returns a fresh copy of the original `hist`, and the next growing write discards the earlier ones | period 4, a 56-byte `hist` whose header reads 0, incoming target 3: epochs 1 and 2 are each written to a separate grown copy, and in the returned buffer epoch 1 reads source 0 instead of `FarFutureEpoch` | `currentHD.SetTargetData`, so that every skipped epoch the loop visits reads as empty in the result | not executed | MarkAttested.SkippedEntryLost | MarkAttested.MarkAllChainedMarksSkipped |

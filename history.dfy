/** The encoded attestation history (`EncHistoryData`) of the validator's
    slashing protection, read and written as a value.

    Layout: an 8-byte little-endian "latest epoch written" header, then a ring
    of 48-byte entries; the entry for target epoch `t` starts at
    8 + (t mod WeakSubjectivityPeriod) * 48 and holds the 8-byte little-endian
    source epoch followed by the 32-byte signing root; its last 8 bytes are
    never read or written. */
module AttestationHistory {
  import opened Bytes

  const Uint64Size: nat := 8
  const LatestEpochWrittenSize: nat := Uint64Size
  const TargetSize: nat := Uint64Size
  const SourceSize: nat := Uint64Size
  const SigningRootSize: nat := 32
  const HistorySize: nat := TargetSize + SourceSize + SigningRootSize
  const MinimalSize: nat := LatestEpochWrittenSize

  /** A weak subjectivity period: positive, and small enough that the end of
      the last entry of the ring, 8 + period * 48, is still a uint64. */
  type Period = p: int | 0 < p && MinimalSize + p * HistorySize < TWO_64 witness 1

  /** The two beacon-chain configuration values the codec reads. */
  datatype Config = Config(weakSubjectivityPeriod: Period, farFutureEpoch: uint64)

  datatype Option<T> = None | Some(value: T)

  /** One decoded entry; a nil `*HistoryData` is `None`, and a nil
      signing root is the empty sequence. */
  datatype HistoryData = HistoryData(source: uint64, signingRoot: seq<byte>)

  datatype SizeError =
    | TooSmall(size: nat)          // shorter than the header
    | NotEntryMultiple(size: nat)  // a partial entry after the header

  /** The error returned by `assertSize`, or `Pass` for nil. */
  datatype Outcome = Pass | Fail(error: SizeError)

  datatype Result<T> = Success(value: T) | Failure(error: SizeError)

  /** A size is well formed when it is the header plus whole entries. */
  ghost predicate WellFormedSize(size: nat)
  {
    exists k: nat :: size == MinimalSize + k * HistorySize
  }

  function AssertSize(hd: seq<byte>): (r: Outcome)
    ensures r == Fail(TooSmall(|hd|)) <==> |hd| < MinimalSize
    ensures r.Fail? ==> r.error.size == |hd|
  {
    if |hd| < MinimalSize then Fail(TooSmall(|hd|))
    else if (|hd| - MinimalSize) % HistorySize != 0 then Fail(NotEntryMultiple(|hd|))
    else Pass
  }

  /** `assertSize` accepts exactly the buffers of length 8 + 48 * k. */
  lemma AssertSizeAccepts(hd: seq<byte>)
    ensures AssertSize(hd).Pass? <==> WellFormedSize(|hd|)
  {
    if AssertSize(hd).Pass? {
      var k: nat := (|hd| - MinimalSize) / HistorySize;
      assert |hd| == MinimalSize + k * HistorySize;
    }
    if WellFormedSize(|hd|) {
      var k: nat :| |hd| == MinimalSize + k * HistorySize;
      assert (|hd| - MinimalSize) % HistorySize == (k * HistorySize) % HistorySize == 0;
    }
  }

  /** `IsEmpty`: no entry, or an entry whose source is the far-future marker. */
  predicate IsEmpty(cfg: Config, h: Option<HistoryData>)
  {
    h.None? || h.value.source == cfg.farFutureEpoch
  }

  /** `emptyHistoryData`: the far-future marker with an all-zero root. */
  function EmptyHistoryData(cfg: Config): (h: HistoryData)
    ensures IsEmpty(cfg, Some(h))
    ensures |h.signingRoot| == SigningRootSize
    ensures forall k :: 0 <= k < |h.signingRoot| ==> h.signingRoot[k] == 0
  {
    HistoryData(cfg.farFutureEpoch, Zeros(SigningRootSize))
  }

  /** Offset of the entry numbered `slot` in the ring. */
  function EntryStart(slot: nat): nat
  {
    LatestEpochWrittenSize + slot * HistorySize
  }

  /** `target % wsPeriod`, the index callers pass to `SetTargetData`: a ring
      index that addresses the same entry as the target itself. */
  function Slot(cfg: Config, target: uint64): (s: uint64)
    ensures s < cfg.weakSubjectivityPeriod
    ensures Cursor(cfg, s) == Cursor(cfg, target)
  {
    ModIdempotent(target, cfg.weakSubjectivityPeriod);
    target % cfg.weakSubjectivityPeriod
  }

  /** Offset of the entry that target epoch `target` reads and writes: past
      the header, and ending within a ring of one period of entries, so
      `cursor + historySize` never wraps as a uint64. */
  function Cursor(cfg: Config, target: uint64): (c: nat)
    ensures MinimalSize <= c
    ensures c + HistorySize <= MinimalSize + cfg.weakSubjectivityPeriod * HistorySize < TWO_64
  {
    EntryStart(target % cfg.weakSubjectivityPeriod)
  }

  /** Whether the entry for `target` lies inside a buffer of `size` bytes. */
  predicate Fits(cfg: Config, size: nat, target: uint64)
  {
    Cursor(cfg, target) + HistorySize <= size
  }

  /** Whether byte `p` is among the 40 bytes (source and root) that a write
      of the entry for `target` can change. */
  predicate WrittenBy(cfg: Config, p: nat, target: uint64)
  {
    Cursor(cfg, target) <= p < Cursor(cfg, target) + SourceSize + SigningRootSize
  }

  function GetLatestEpochWritten(hd: seq<byte>): (r: Result<uint64>)
    ensures r.Failure? <==> AssertSize(hd).Fail?
    ensures r.Failure? ==> r.error == AssertSize(hd).error
  {
    match AssertSize(hd)
    case Fail(e) => Failure(e)
    case Pass => Success(BytesToUint64(hd[..LatestEpochWrittenSize]))
  }

  /** The buffer `SetLatestEpochWritten` leaves behind, or its error. */
  function WithLatestEpochWritten(hd: seq<byte>, latest: uint64): (r: Result<seq<byte>>)
    ensures r.Failure? <==> AssertSize(hd).Fail?
    ensures r.Failure? ==> r.error == AssertSize(hd).error
    ensures r.Success? ==> |r.value| == |hd| && AssertSize(r.value).Pass?
  {
    match AssertSize(hd)
    case Fail(e) => Failure(e)
    case Pass =>
      Success(Copied(hd[..LatestEpochWrittenSize], Uint64ToBytes(latest)) + hd[LatestEpochWrittenSize..])
  }

  /** Writing the header of a well-formed buffer keeps its size, changes
      only bytes 0..7, and reads back the value written. */
  lemma LatestEpochRoundTrip(hd: seq<byte>, latest: uint64)
    requires AssertSize(hd).Pass?
    ensures WithLatestEpochWritten(hd, latest).Success?
    ensures var r := WithLatestEpochWritten(hd, latest).value;
      && |r| == |hd|
      && r[LatestEpochWrittenSize..] == hd[LatestEpochWrittenSize..]
      && GetLatestEpochWritten(r) == Success(latest)
  {
    var r := WithLatestEpochWritten(hd, latest).value;
    assert r[..LatestEpochWrittenSize] == Uint64ToBytes(latest);
    Uint64RoundTrip(latest);
  }

  function GetTargetData(cfg: Config, hd: seq<byte>, target: uint64): (r: Result<Option<HistoryData>>)
    ensures r.Failure? <==> AssertSize(hd).Fail?
    ensures r.Failure? ==> r.error == AssertSize(hd).error
    ensures r.Success? ==> (r.value.None? <==> !Fits(cfg, |hd|, target))
    ensures r.Success? && r.value.Some? ==> |r.value.value.signingRoot| == SigningRootSize
  {
    match AssertSize(hd)
    case Fail(e) => Failure(e)
    case Pass =>
      var cursor := Cursor(cfg, target);
      if |hd| < cursor + HistorySize then Success(None)
      else
        var source := BytesToUint64(hd[cursor..cursor + SourceSize]);
        var root := Copied(Zeros(SigningRootSize), hd[cursor + SourceSize..cursor + HistorySize]);
        Success(Some(HistoryData(source, root)))
  }

  /** `hd` after `append(hd, make([]byte, n - len(hd))...)` when it is
      shorter than `n`, and `hd` itself otherwise. */
  function ZeroExtended(hd: seq<byte>, n: nat): (g: seq<byte>)
    ensures |g| == if |hd| < n then n else |hd|
  {
    seq(if |hd| < n then n else |hd|, p requires 0 <= p => ByteOrZero(hd, p))
  }

  /** `append` keeps every old byte and adds only zeros. */
  lemma ZeroExtendedKeeps(hd: seq<byte>, n: nat)
    ensures ZeroExtended(hd, n)[..|hd|] == hd
    ensures forall p :: |hd| <= p < |ZeroExtended(hd, n)| ==> ZeroExtended(hd, n)[p] == 0
  {
    var g := ZeroExtended(hd, n);
    forall p | 0 <= p < |g|
      ensures g[p] == ByteOrZero(hd, p)
    {
    }
    assert g[..|hd|] == hd;
  }

  /** `g` after `copy(g[lo:hi], src)`. */
  function CopiedAt(g: seq<byte>, lo: nat, hi: nat, src: seq<byte>): (r: seq<byte>)
    requires lo <= hi <= |g|
    ensures |r| == |g|
  {
    seq(|g|, p requires 0 <= p < |g| => if lo <= p < hi && p - lo < |src| then src[p - lo] else g[p])
  }

  /** Copying into the window `g[lo:hi]` is `copy` on that window, with the
      bytes outside it kept. */
  lemma CopiedAtIsCopy(g: seq<byte>, lo: nat, hi: nat, src: seq<byte>)
    requires lo <= hi <= |g|
    ensures CopiedAt(g, lo, hi, src) == g[..lo] + Copied(g[lo..hi], src) + g[hi..]
  {
    var r := CopiedAt(g, lo, hi, src);
    var w := Copied(g[lo..hi], src);
    var e := g[..lo] + w + g[hi..];
    forall p | 0 <= p < |g|
      ensures r[p] == e[p]
    {
      if p < lo {
        assert e[p] == g[p];
      } else if p < hi {
        assert e[p] == w[p - lo];
      } else {
        assert e[p] == g[hi..][p - hi];
      }
    }
  }

  /** A buffer that ends right after an entry has a well-formed size. */
  lemma EntryEndWellFormed(hd: seq<byte>, slot: nat)
    requires |hd| == EntryStart(slot + 1)
    ensures AssertSize(hd).Pass?
  {
    assert EntryStart(slot + 1) - MinimalSize == (slot + 1) * HistorySize;
  }

  /** The buffer `SetTargetData` leaves behind, or its error: zero-extended
      up to the end of the entry if needed, then the source and as much of
      the signing root as `copy` takes (at most 32 bytes) are written. */
  function WithTargetData(cfg: Config, hd: seq<byte>, target: uint64, h: HistoryData): (r: Result<seq<byte>>)
    ensures r.Failure? <==> AssertSize(hd).Fail?
    ensures r.Failure? ==> r.error == AssertSize(hd).error
    ensures r.Success? ==>
      && AssertSize(r.value).Pass?
      && |r.value| == (if Fits(cfg, |hd|, target) then |hd| else Cursor(cfg, target) + HistorySize)
  {
    match AssertSize(hd)
    case Fail(e) => Failure(e)
    case Pass =>
      var c := Cursor(cfg, target);
      var g := ZeroExtended(hd, c + HistorySize);
      var withSource := CopiedAt(g, c, c + SourceSize, Uint64ToBytes(h.source));
      var r := CopiedAt(withSource, c + SourceSize, c + SourceSize + SigningRootSize, h.signingRoot);
      assert AssertSize(r).Pass? by {
        if !Fits(cfg, |hd|, target) {
          EntryEndWellFormed(r, target % cfg.weakSubjectivityPeriod);
        }
      }
      Success(r)
  }

  /** What a successful `SetTargetData` does to each byte: the 8 source
      bytes hold the encoded source, the 32 root bytes take as much of the
      given root as there is and keep their old value (or zero) beyond it,
      and every other byte keeps its old value, or is zero where the buffer
      grew. */
  lemma EntryWriteBytes(cfg: Config, hd: seq<byte>, target: uint64, h: HistoryData)
    requires AssertSize(hd).Pass?
    ensures WithTargetData(cfg, hd, target, h).Success?
    ensures var r := WithTargetData(cfg, hd, target, h).value; var c := Cursor(cfg, target);
      && |r| == (if Fits(cfg, |hd|, target) then |hd| else c + HistorySize)
      && (forall k :: 0 <= k < SourceSize ==> r[c + k] == Uint64ToBytes(h.source)[k])
      && (forall k :: 0 <= k < SigningRootSize ==>
            r[c + SourceSize + k] == Copied(RootBefore(cfg, hd, target), h.signingRoot)[k])
      && (forall p :: 0 <= p < |r| && !WrittenBy(cfg, p, target) ==> r[p] == ByteOrZero(hd, p))
  {
  }

  /** Writing an entry never changes the header. */
  lemma HeaderUnchangedByEntry(cfg: Config, hd: seq<byte>, target: uint64, h: HistoryData)
    requires AssertSize(hd).Pass?
    ensures WithTargetData(cfg, hd, target, h).Success?
    ensures WithTargetData(cfg, hd, target, h).value[..LatestEpochWrittenSize] == hd[..LatestEpochWrittenSize]
    ensures GetLatestEpochWritten(WithTargetData(cfg, hd, target, h).value) == GetLatestEpochWritten(hd)
  {
    var r := WithTargetData(cfg, hd, target, h).value;
    EntryWriteBytes(cfg, hd, target, h);
    assert forall p :: 0 <= p < LatestEpochWrittenSize ==> !WrittenBy(cfg, p, target);
    assert r[..LatestEpochWrittenSize] == hd[..LatestEpochWrittenSize];
  }

  /** The root an entry holds before a write: its stored bytes, or the
      zeros the write's extension brings. */
  function RootBefore(cfg: Config, hd: seq<byte>, target: uint64): (r: seq<byte>)
    ensures |r| == SigningRootSize
  {
    var c := Cursor(cfg, target) + SourceSize;
    ZeroExtended(hd, c + SigningRootSize)[c..c + SigningRootSize]
  }

  /** After a write, the entry's source bytes are the encoded source. */
  lemma StoredSource(cfg: Config, hd: seq<byte>, target: uint64, h: HistoryData)
    requires AssertSize(hd).Pass?
    ensures WithTargetData(cfg, hd, target, h).Success?
    ensures var r := WithTargetData(cfg, hd, target, h).value; var c := Cursor(cfg, target);
      && Fits(cfg, |r|, target)
      && r[c..c + SourceSize] == Uint64ToBytes(h.source)
  {
    EntryWriteBytes(cfg, hd, target, h);
  }

  /** After a write, the entry's root bytes, read back through `copy`,
      are the given root copied over the root that was there before. */
  lemma StoredRoot(cfg: Config, hd: seq<byte>, target: uint64, h: HistoryData)
    requires AssertSize(hd).Pass?
    ensures WithTargetData(cfg, hd, target, h).Success?
    ensures var r := WithTargetData(cfg, hd, target, h).value; var c := Cursor(cfg, target);
      && Fits(cfg, |r|, target)
      && Copied(Zeros(SigningRootSize), r[c + SourceSize..c + HistorySize])
         == Copied(RootBefore(cfg, hd, target), h.signingRoot)
  {
    EntryWriteBytes(cfg, hd, target, h);
    RootFromEntryBytes(cfg, hd, target, h, WithTargetData(cfg, hd, target, h).value);
  }

  /** The root slot of `r`, whose bytes are those `EntryWriteBytes` describes. */
  lemma RootFromEntryBytes(cfg: Config, hd: seq<byte>, target: uint64, h: HistoryData, r: seq<byte>)
    requires Fits(cfg, |r|, target)
    requires forall k :: 0 <= k < SigningRootSize ==>
      r[Cursor(cfg, target) + SourceSize + k] == Copied(RootBefore(cfg, hd, target), h.signingRoot)[k]
    ensures var c := Cursor(cfg, target);
      Copied(Zeros(SigningRootSize), r[c + SourceSize..c + HistorySize])
        == Copied(RootBefore(cfg, hd, target), h.signingRoot)
  {
    var c := Cursor(cfg, target);
    var expected := Copied(RootBefore(cfg, hd, target), h.signingRoot);
    var slot := r[c + SourceSize..c + HistorySize];
    forall k | 0 <= k < SigningRootSize
      ensures slot[k] == expected[k]
    {
      assert slot[k] == r[c + SourceSize + k];
    }
    assert Copied(Zeros(SigningRootSize), slot) == slot[..SigningRootSize];
  }

  /** Writing an entry and reading it back gives the source written and the
      root as `copy` left it; a 32-byte root reads back unchanged. */
  lemma TargetDataRoundTrip(cfg: Config, hd: seq<byte>, target: uint64, h: HistoryData)
    requires AssertSize(hd).Pass?
    ensures WithTargetData(cfg, hd, target, h).Success?
    ensures GetTargetData(cfg, WithTargetData(cfg, hd, target, h).value, target)
         == Success(Some(HistoryData(h.source, Copied(RootBefore(cfg, hd, target), h.signingRoot))))
    ensures |h.signingRoot| == SigningRootSize ==>
         GetTargetData(cfg, WithTargetData(cfg, hd, target, h).value, target) == Success(Some(h))
  {
    StoredSource(cfg, hd, target, h);
    StoredRoot(cfg, hd, target, h);
    Uint64RoundTrip(h.source);
    if |h.signingRoot| == SigningRootSize {
      assert Copied(RootBefore(cfg, hd, target), h.signingRoot) == h.signingRoot;
    }
  }

  /** Writing the header leaves every entry reading as before. */
  lemma EntriesUnchangedByHeader(cfg: Config, hd: seq<byte>, latest: uint64, target: uint64)
    requires AssertSize(hd).Pass?
    ensures WithLatestEpochWritten(hd, latest).Success?
    ensures GetTargetData(cfg, WithLatestEpochWritten(hd, latest).value, target) == GetTargetData(cfg, hd, target)
  {
    var r := WithLatestEpochWritten(hd, latest).value;
    LatestEpochRoundTrip(hd, latest);
    var c := Cursor(cfg, target);
    if Fits(cfg, |hd|, target) {
      SameSuffixSlice(r, hd, LatestEpochWrittenSize, c, c + SourceSize);
      SameSuffixSlice(r, hd, LatestEpochWrittenSize, c + SourceSize, c + HistorySize);
    }
  }

  /** Two sequences that agree from `k` on agree on every slice that starts at or after `k`. */
  lemma SameSuffixSlice(r: seq<byte>, hd: seq<byte>, k: nat, lo: nat, hi: nat)
    requires |r| == |hd| && k <= lo <= hi <= |hd| && r[k..] == hd[k..]
    ensures r[lo..hi] == hd[lo..hi]
  {
    forall p | lo <= p < hi
      ensures r[p] == hd[p]
    {
      assert r[p] == r[k..][p - k] && hd[p] == hd[k..][p - k];
    }
  }

  /** Targets one period apart share one entry: `t` and `t + period` read
      and write the same bytes. */
  lemma SameEntryNextPeriod(cfg: Config, hd: seq<byte>, t: uint64, h: HistoryData)
    requires t + cfg.weakSubjectivityPeriod < TWO_64
    ensures var u: uint64 := t + cfg.weakSubjectivityPeriod;
      && Cursor(cfg, u) == Cursor(cfg, t)
      && GetTargetData(cfg, hd, u) == GetTargetData(cfg, hd, t)
      && WithTargetData(cfg, hd, u, h) == WithTargetData(cfg, hd, t, h)
  {
    ModShift(t, cfg.weakSubjectivityPeriod);
  }

  /** A target and its residue modulo the period share one entry, so the
      `i % period` passed by callers addresses the same bytes as `i`. */
  lemma SameEntryAsResidue(cfg: Config, hd: seq<byte>, t: uint64, h: HistoryData)
    ensures var v: uint64 := t % cfg.weakSubjectivityPeriod;
      && Cursor(cfg, v) == Cursor(cfg, t)
      && GetTargetData(cfg, hd, v) == GetTargetData(cfg, hd, t)
      && WithTargetData(cfg, hd, v, h) == WithTargetData(cfg, hd, t, h)
  {
    ModIdempotent(t, cfg.weakSubjectivityPeriod);
  }

  lemma ModShift(t: nat, w: nat)
    requires 0 < w
    ensures (t + w) % w == t % w
  {
    var q, r := t / w, t % w;
    assert t + w == (q + 1) * w + r;
    DivModUnique(t + w, w, q + 1, r);
  }

  lemma DivModUnique(x: nat, w: nat, q: nat, r: nat)
    requires 0 < w && r < w && x == q * w + r
    ensures x % w == r
  {
    var q', r' := x / w, x % w;
    assert q * w + r == q' * w + r';
    if q > q' {
      MulAtLeast(q - q', w);
    } else if q < q' {
      MulAtLeast(q' - q, w);
    }
  }

  lemma MulAtLeast(a: int, w: int)
    requires 1 <= a && 0 < w
    ensures w <= a * w
  {
  }

  /** Fewer than `w` consecutive numbers have distinct residues modulo `w`. */
  lemma DistinctResidues(j: nat, i: nat, w: nat)
    requires 0 < w && j < i < j + w
    ensures j % w != i % w
  {
    var q1, q2 := j / w, i / w;
    if q2 <= q1 {
      assert q2 * w <= q1 * w;
    } else {
      MulAtLeast(q2 - q1, w);
      assert (q2 - q1) * w == q2 * w - q1 * w;
    }
  }

  lemma ModIdempotent(t: nat, w: nat)
    requires 0 < w
    ensures (t % w) % w == t % w
  {
  }

  /** Distinct entries occupy disjoint bytes. */
  lemma DisjointEntries(cfg: Config, target: uint64, other: uint64)
    requires other % cfg.weakSubjectivityPeriod != target % cfg.weakSubjectivityPeriod
    ensures forall p :: Cursor(cfg, other) <= p < Cursor(cfg, other) + HistorySize ==> !WrittenBy(cfg, p, target)
  {
  }

  /** Writing one entry leaves every other entry that already existed
      reading as before. */
  lemma OtherEntryUnchanged(cfg: Config, hd: seq<byte>, target: uint64, h: HistoryData, other: uint64)
    requires AssertSize(hd).Pass?
    requires other % cfg.weakSubjectivityPeriod != target % cfg.weakSubjectivityPeriod
    requires Fits(cfg, |hd|, other)
    ensures GetTargetData(cfg, WithTargetData(cfg, hd, target, h).value, other) == GetTargetData(cfg, hd, other)
  {
    var r := WithTargetData(cfg, hd, target, h).value;
    var c := Cursor(cfg, other);
    EntryWriteBytes(cfg, hd, target, h);
    DisjointEntries(cfg, target, other);
    assert r[c..c + SourceSize] == hd[c..c + SourceSize];
    assert r[c + SourceSize..c + HistorySize] == hd[c + SourceSize..c + HistorySize];
  }

  /** An entry that lay past the end of the buffer and that a write's
      zero-extension brought into range, without writing it, reads as
      source 0 with an all-zero root rather than as "no entry". */
  lemma GrownEntryReadsZero(cfg: Config, hd: seq<byte>, target: uint64, h: HistoryData, other: uint64)
    requires AssertSize(hd).Pass? && |hd| <= Cursor(cfg, other)
    requires other % cfg.weakSubjectivityPeriod != target % cfg.weakSubjectivityPeriod
    requires Fits(cfg, |WithTargetData(cfg, hd, target, h).value|, other)
    ensures GetTargetData(cfg, WithTargetData(cfg, hd, target, h).value, other)
         == Success(Some(HistoryData(0, Zeros(SigningRootSize))))
  {
    var r := WithTargetData(cfg, hd, target, h).value;
    GrownEntryBytes(cfg, hd, target, h, other);
    ZeroEntryReads(cfg, r, other);
  }

  lemma GrownEntryBytes(cfg: Config, hd: seq<byte>, target: uint64, h: HistoryData, other: uint64)
    requires AssertSize(hd).Pass? && |hd| <= Cursor(cfg, other)
    requires other % cfg.weakSubjectivityPeriod != target % cfg.weakSubjectivityPeriod
    requires Fits(cfg, |WithTargetData(cfg, hd, target, h).value|, other)
    ensures forall p :: Cursor(cfg, other) <= p < Cursor(cfg, other) + HistorySize ==>
      WithTargetData(cfg, hd, target, h).value[p] == 0
  {
    EntryWriteBytes(cfg, hd, target, h);
    DisjointEntries(cfg, target, other);
  }

  /** An entry of zero bytes reads as source 0 with an all-zero root. */
  lemma ZeroEntryReads(cfg: Config, hd: seq<byte>, t: uint64)
    requires AssertSize(hd).Pass? && Fits(cfg, |hd|, t)
    requires forall p :: Cursor(cfg, t) <= p < Cursor(cfg, t) + HistorySize ==> hd[p] == 0
    ensures GetTargetData(cfg, hd, t) == Success(Some(HistoryData(0, Zeros(SigningRootSize))))
  {
    var c := Cursor(cfg, t);
    ZeroWord(hd[c..c + SourceSize]);
    assert Copied(Zeros(SigningRootSize), hd[c + SourceSize..c + HistorySize]) == Zeros(SigningRootSize);
  }

  /** An entry reads as empty exactly when it is absent or its source bytes
      are the encoding of the far-future epoch. */
  lemma IsEmptyOnRead(cfg: Config, hd: seq<byte>, target: uint64)
    requires AssertSize(hd).Pass?
    ensures var c := Cursor(cfg, target);
      (IsEmpty(cfg, GetTargetData(cfg, hd, target).value)
       <==> !Fits(cfg, |hd|, target) || hd[c..c + SourceSize] == Uint64ToBytes(cfg.farFutureEpoch))
  {
    var c := Cursor(cfg, target);
    if Fits(cfg, |hd|, target) {
      var source := hd[c..c + SourceSize];
      assert GetTargetData(cfg, hd, target).value.value.source == BytesToUint64(source);
      DecodesTo(source, cfg.farFutureEpoch);
    }
  }
}

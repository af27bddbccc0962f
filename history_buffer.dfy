/** The setters of `EncHistoryData`, which update the byte slice in place.

    A slice is an `array<byte>` whose capacity equals its length (the buffers
    are made with `make`): a write that fits changes the array and returns
    it, and a write past the end returns a fresh zero-extended copy, leaving
    the original array as it was. */
module HistoryBuffer {
  import opened Bytes
  import opened AttestationHistory

  /** Go's `copy(dst[lo:hi], src)`. */
  method CopyInto(dst: array<byte>, lo: nat, hi: nat, src: seq<byte>)
    requires lo <= hi <= dst.Length
    modifies dst
    ensures dst[..] == CopiedAt(old(dst[..]), lo, hi, src)
  {
    var n := if |src| < hi - lo then |src| else hi - lo;
    forall k | lo <= k < lo + n {
      dst[k] := src[k - lo];
    }
  }

  method SetLatestEpochWritten(hd: array<byte>, latest: uint64) returns (r: Result<array<byte>>)
    modifies hd
    ensures var spec := WithLatestEpochWritten(old(hd[..]), latest);
      && (spec.Failure? ==> r == Failure(spec.error) && hd[..] == old(hd[..]))
      && (spec.Success? ==> r == Success(hd) && hd[..] == spec.value)
  {
    var check := AssertSize(hd[..]);
    if check.Fail? {
      return Failure(check.error);
    }
    ghost var before := hd[..];
    CopyInto(hd, 0, LatestEpochWrittenSize, Uint64ToBytes(latest));
    assert hd[..] == Copied(before[..LatestEpochWrittenSize], Uint64ToBytes(latest)) + before[LatestEpochWrittenSize..];
    return Success(hd);
  }

  method SetTargetData(cfg: Config, hd: array<byte>, target: uint64, h: HistoryData) returns (r: Result<array<byte>>)
    modifies hd
    ensures var spec := WithTargetData(cfg, old(hd[..]), target, h);
      && (spec.Failure? ==> r == Failure(spec.error) && hd[..] == old(hd[..]))
      && (spec.Success? ==> r.Success? && r.value[..] == spec.value)
      && (spec.Success? && Fits(cfg, hd.Length, target) ==> r.value == hd)
      && (spec.Success? && !Fits(cfg, hd.Length, target) ==> fresh(r.value) && hd[..] == old(hd[..]))
  {
    var check := AssertSize(hd[..]);
    if check.Fail? {
      return Failure(check.error);
    }
    var cursor := Cursor(cfg, target);
    var buf := hd;
    if hd.Length < cursor + HistorySize {
      buf := new byte[cursor + HistorySize](_ => 0);
      forall k | 0 <= k < hd.Length {
        buf[k] := hd[k];
      }
    }
    ghost var extended := buf[..];
    assert extended == ZeroExtended(old(hd[..]), cursor + HistorySize);
    CopyInto(buf, cursor, cursor + SourceSize, Uint64ToBytes(h.source));
    CopyInto(buf, cursor + SourceSize, cursor + SourceSize + SigningRootSize, h.signingRoot);
    return Success(buf);
  }

  /** `NewAttestationHistoryArray`: a buffer with a zero header and every
      entry up to the slot of `target` marked empty. */
  method NewAttestationHistoryArray(cfg: Config, target: uint64) returns (enc: array<byte>)
    ensures fresh(enc)
    ensures enc.Length == EntryStart(target % cfg.weakSubjectivityPeriod + 1)
    ensures GetLatestEpochWritten(enc[..]) == Success(0)
    ensures forall t: uint64 :: t % cfg.weakSubjectivityPeriod <= target % cfg.weakSubjectivityPeriod ==>
      GetTargetData(cfg, enc[..], t) == Success(Some(EmptyHistoryData(cfg)))
    ensures forall t: uint64 :: t % cfg.weakSubjectivityPeriod > target % cfg.weakSubjectivityPeriod ==>
      GetTargetData(cfg, enc[..], t) == Success(None)
  {
    var relativeTarget := target % cfg.weakSubjectivityPeriod;
    var historyDataSize := (relativeTarget + 1) * HistorySize;
    var arraySize := LatestEpochWrittenSize + historyDataSize;
    var en := new byte[arraySize](_ => 0);
    enc := en;
    var i: uint64 := 0;
    assert enc[..LatestEpochWrittenSize] == Zeros(LatestEpochWrittenSize);
    while i <= target % cfg.weakSubjectivityPeriod
      invariant i <= relativeTarget + 1
      invariant fresh(enc)
      invariant EmptyPrefix(cfg, enc[..], relativeTarget, i)
    {
      ghost var before := enc[..];
      MarkEmpty(cfg, before, relativeTarget, i);
      var r := SetTargetData(cfg, enc, i, EmptyHistoryData(cfg));
      match r {
        case Failure(_) =>
          assert false;
        case Success(a) =>
          enc := a;
      }
      i := i + 1;
    }
    EmptyRing(cfg, enc[..], relativeTarget);
  }

  /** A buffer sized for entries 0..rel, with a zero header, whose entries
      below `n` read as `emptyHistoryData`. */
  ghost predicate EmptyPrefix(cfg: Config, s: seq<byte>, rel: nat, n: nat)
  {
    && |s| == EntryStart(rel + 1)
    && s[..LatestEpochWrittenSize] == Zeros(LatestEpochWrittenSize)
    && forall j: uint64 :: j < n ==> GetTargetData(cfg, s, j) == Success(Some(EmptyHistoryData(cfg)))
  }

  lemma ModSmall(i: nat, w: nat)
    requires i < w
    ensures i % w == i
  {
    DivModUnique(i, w, 0, i);
  }

  /** Marking slot `i` empty, in place, extends the run of empty entries by one. */
  lemma MarkEmpty(cfg: Config, s: seq<byte>, rel: uint64, i: uint64)
    requires rel < cfg.weakSubjectivityPeriod && i <= rel
    requires EmptyPrefix(cfg, s, rel, i)
    ensures AssertSize(s).Pass? && Fits(cfg, |s|, i)
    ensures EmptyPrefix(cfg, WithTargetData(cfg, s, i, EmptyHistoryData(cfg)).value, rel, i + 1)
  {
    EntryEndWellFormed(s, rel);
    ModSmall(i, cfg.weakSubjectivityPeriod);
    var r := WithTargetData(cfg, s, i, EmptyHistoryData(cfg)).value;
    assert |r| == |s|;
    TargetDataRoundTrip(cfg, s, i, EmptyHistoryData(cfg));
    HeaderUnchangedByEntry(cfg, s, i, EmptyHistoryData(cfg));
    forall j: uint64 | j < i + 1
      ensures GetTargetData(cfg, r, j) == Success(Some(EmptyHistoryData(cfg)))
    {
      if j < i {
        ModSmall(j, cfg.weakSubjectivityPeriod);
        assert GetTargetData(cfg, s, j).value.Some?;
        OtherEntryUnchanged(cfg, s, i, EmptyHistoryData(cfg), j);
      }
    }
  }

  /** A buffer of `rel + 1` entries, all empty, with a zero header: the
      header reads 0, every target whose slot is at most `rel` reads empty,
      and every other target reads "no entry". */
  lemma EmptyRing(cfg: Config, s: seq<byte>, rel: uint64)
    requires rel < cfg.weakSubjectivityPeriod
    requires EmptyPrefix(cfg, s, rel, rel + 1)
    ensures GetLatestEpochWritten(s) == Success(0)
    ensures forall t: uint64 :: t % cfg.weakSubjectivityPeriod <= rel ==>
      GetTargetData(cfg, s, t) == Success(Some(EmptyHistoryData(cfg)))
    ensures forall t: uint64 :: t % cfg.weakSubjectivityPeriod > rel ==>
      GetTargetData(cfg, s, t) == Success(None)
  {
    EntryEndWellFormed(s, rel);
    ZeroWord(s[..LatestEpochWrittenSize]);
    forall t: uint64 | t % cfg.weakSubjectivityPeriod <= rel
      ensures GetTargetData(cfg, s, t) == Success(Some(EmptyHistoryData(cfg)))
    {
      var slot: uint64 := t % cfg.weakSubjectivityPeriod;
      SameEntryAsResidue(cfg, s, t, EmptyHistoryData(cfg));
      assert GetTargetData(cfg, s, slot) == Success(Some(EmptyHistoryData(cfg)));
    }
  }
}

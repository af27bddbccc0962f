/** `MarkAllAsAttestedSinceLatestWrittenEpoch`: mark every epoch skipped since
    the latest written one as empty (at most one period of them), advance the
    header, and record the incoming attestation.

    The filler loop writes through the caller's `hist` and keeps only the
    buffer returned by the last write: a write that fits changes `hist` in
    place, a write past its end yields a fresh copy of `hist` that the next
    write does not see. */
module MarkAttested {
  import opened Bytes
  import opened AttestationHistory
  import opened HistoryBuffer

  /** What `currentHD` refers to: the caller's `hist`, or a separate buffer
      returned by a write that had to grow. */
  datatype Current = SameAsHist | Detached(contents: seq<byte>)

  /** The contents of `hist` and the buffer `currentHD` refers to. */
  datatype Buffers = Buffers(hist: seq<byte>, current: Current)

  function CurrentContents(b: Buffers): seq<byte>
  {
    if b.current.SameAsHist? then b.hist else b.current.contents
  }

  /** The entry each skipped epoch receives: the far-future source and a nil
      root, so the write leaves the root bytes as they were. */
  function FillerData(cfg: Config): (h: HistoryData)
    ensures IsEmpty(cfg, Some(h)) && |h.signingRoot| == 0
  {
    HistoryData(cfg.farFutureEpoch, [])
  }

  /** `latestEpochWritten + wsPeriod`, wrapping as a uint64. */
  function MaxToWrite(cfg: Config, latest: uint64): (m: uint64)
    ensures m == if latest + cfg.weakSubjectivityPeriod < TWO_64 then latest + cfg.weakSubjectivityPeriod
                 else latest + cfg.weakSubjectivityPeriod - TWO_64
  {
    var sum := latest + cfg.weakSubjectivityPeriod;
    assert sum < TWO_64 ==> sum % TWO_64 == sum;
    assert sum >= TWO_64 ==> sum % TWO_64 == sum - TWO_64;
    sum % TWO_64
  }

  /** How many iterations the filler loop runs: `i` goes from `latest + 1`
      while `i < incoming && i <= maxToWrite`. */
  function FillerCount(cfg: Config, latest: uint64, incoming: uint64): (n: nat)
    ensures latest + 1 + n <= TWO_64 && n <= cfg.weakSubjectivityPeriod
  {
    if incoming <= latest then 0
    else
      var end := if incoming <= MaxToWrite(cfg, latest) then incoming else MaxToWrite(cfg, latest) + 1;
      if end > latest + 1 then end - (latest + 1) else 0
  }

  /** The filler loop writes exactly the epochs its guard admits, and those
      are skipped epochs at most one period past the latest written one. */
  lemma FillerEpochs(cfg: Config, latest: uint64, incoming: uint64, i: int)
    ensures latest + 1 <= i < latest + 1 + FillerCount(cfg, latest, incoming)
        <==> latest < i < incoming && i <= MaxToWrite(cfg, latest)
    ensures latest + 1 <= i < latest + 1 + FillerCount(cfg, latest, incoming)
        ==> latest < i < incoming && i <= latest + cfg.weakSubjectivityPeriod
  {
  }

  /** One iteration: `newHD, _ := hist.SetTargetData(i % wsPeriod, filler); currentHD = newHD`.
      The write cannot fail once the size has been checked (`FillFromSizes`);
      the failure arm only keeps the function total. */
  function FillerStep(cfg: Config, b: Buffers, i: uint64): (r: Buffers)
    ensures |r.hist| == |b.hist|
  {
    var slot := Slot(cfg, i);
    match WithTargetData(cfg, b.hist, slot, FillerData(cfg))
    case Failure(_) => b
    case Success(written) =>
      if Fits(cfg, |b.hist|, slot) then Buffers(written, SameAsHist) else Buffers(b.hist, Detached(written))
  }

  /** The buffers after running the filler loop from state `b` for `m`
      iterations, the first of them at epoch `i`. */
  function FillFrom(cfg: Config, b: Buffers, i: nat, m: nat): (r: Buffers)
    requires i + m <= TWO_64
    ensures |r.hist| == |b.hist|
    decreases m
  {
    if m == 0 then b else FillFrom(cfg, FillerStep(cfg, b, i), i + 1, m - 1)
  }

  /** One iteration of the filler loop moves from `b` to `next`, and what
      is left of the loop then leads to the same final buffers. */
  lemma FillFromStep(cfg: Config, b: Buffers, i: nat, m: nat, filled: Buffers) returns (next: Buffers)
    requires 0 < m && i + m <= TWO_64 && FillFrom(cfg, b, i, m) == filled
    ensures next == FillerStep(cfg, b, i) && FillFrom(cfg, next, i + 1, m - 1) == filled
  {
    next := FillerStep(cfg, b, i);
  }

  /** Every buffer the filler loop produces passes `assertSize`: `hist`
      keeps its length, and a grown copy ends right after an entry. */
  lemma {:induction false} FillFromSizes(cfg: Config, b: Buffers, i: nat, m: nat)
    requires AssertSize(b.hist).Pass? && AssertSize(CurrentContents(b)).Pass? && i + m <= TWO_64
    ensures AssertSize(FillFrom(cfg, b, i, m).hist).Pass?
    ensures AssertSize(CurrentContents(FillFrom(cfg, b, i, m))).Pass?
    decreases m
  {
    if m > 0 {
      var next := FillerStep(cfg, b, i);
      assert WithTargetData(cfg, b.hist, Slot(cfg, i), FillerData(cfg)).Success?;
      assert AssertSize(next.hist).Pass?;
      FillFromSizes(cfg, next, i + 1, m - 1);
    }
  }

  /** `currentHD.SetLatestEpochWritten(incomingTarget)`, in place on whichever
      buffer `currentHD` is; like `FillerStep`, total only for convenience. */
  function LatestOnCurrent(b: Buffers, latest: uint64): (r: Buffers)
    ensures |r.hist| == |b.hist| && |CurrentContents(r)| == |CurrentContents(b)|
  {
    match WithLatestEpochWritten(CurrentContents(b), latest)
    case Failure(_) => b
    case Success(w) => if b.current.SameAsHist? then Buffers(w, SameAsHist) else Buffers(b.hist, Detached(w))
  }

  /** On a well-formed buffer, the header update takes effect on the buffer
      `currentHD` refers to. */
  lemma LatestOnCurrentReads(b: Buffers, latest: uint64)
    requires AssertSize(CurrentContents(b)).Pass?
    ensures AssertSize(CurrentContents(LatestOnCurrent(b, latest))).Pass?
    ensures GetLatestEpochWritten(CurrentContents(LatestOnCurrent(b, latest))) == Success(latest)
  {
    LatestEpochRoundTrip(CurrentContents(b), latest);
  }

  /** The outcome of a successful call: the returned buffer, what the
      caller's `hist` holds afterwards, and whether the two are one array. */
  datatype Marked = Marked(result: seq<byte>, hist: seq<byte>, resultIsHist: bool)

  /** The buffers before the final write: after the filler loop and the
      header update when the target is ahead, the input untouched otherwise. */
  function BeforeFinalWrite(cfg: Config, h0: seq<byte>, latest: uint64, incoming: uint64): (b: Buffers)
    ensures |b.hist| == |h0|
  {
    if incoming > latest then
      LatestOnCurrent(FillFrom(cfg, Buffers(h0, SameAsHist), latest + 1, FillerCount(cfg, latest, incoming)), incoming)
    else Buffers(h0, SameAsHist)
  }

  lemma BeforeFinalWriteSizes(cfg: Config, h0: seq<byte>, latest: uint64, incoming: uint64)
    requires AssertSize(h0).Pass?
    ensures AssertSize(CurrentContents(BeforeFinalWrite(cfg, h0, latest, incoming))).Pass?
  {
    if incoming > latest {
      FillFromSizes(cfg, Buffers(h0, SameAsHist), latest + 1, FillerCount(cfg, latest, incoming));
    }
  }

  lemma BeforeFinalWriteCases(cfg: Config, h0: seq<byte>, latest: uint64, incoming: uint64)
    ensures incoming > latest ==>
      BeforeFinalWrite(cfg, h0, latest, incoming)
        == LatestOnCurrent(FillFrom(cfg, Buffers(h0, SameAsHist), latest + 1, FillerCount(cfg, latest, incoming)), incoming)
    ensures incoming <= latest ==> BeforeFinalWrite(cfg, h0, latest, incoming) == Buffers(h0, SameAsHist)
  {
  }

  /** The final `currentHD.SetTargetData(incomingTarget % wsPeriod, incomingAtt)`
      from the buffers `b`: what it returns and what `hist` then holds. */
  function FinalWrite(cfg: Config, b: Buffers, incoming: uint64, att: HistoryData): (r: Result<Marked>)
    ensures r.Failure? <==> AssertSize(CurrentContents(b)).Fail?
    ensures r.Success? ==> r.value.hist == (if r.value.resultIsHist then r.value.result else b.hist)
  {
    var slot := Slot(cfg, incoming);
    var cur := CurrentContents(b);
    match WithTargetData(cfg, cur, slot, att)
    case Failure(e) => Failure(e)
    case Success(written) =>
      if b.current.SameAsHist? && Fits(cfg, |cur|, slot) then Success(Marked(written, written, true))
      else Success(Marked(written, b.hist, false))
  }

  /** What `MarkAllAsAttestedSinceLatestWrittenEpoch` returns and leaves in `hist`. */
  function MarkAllSpec(cfg: Config, h0: seq<byte>, incoming: uint64, att: HistoryData): (r: Result<Marked>)
    ensures AssertSize(h0).Fail? ==> r == Failure(AssertSize(h0).error)
    ensures r.Success? ==> |r.value.hist| == |h0|
  {
    match GetLatestEpochWritten(h0)
    case Failure(e) => Failure(e)
    case Success(latest) => FinalWrite(cfg, BeforeFinalWrite(cfg, h0, latest, incoming), incoming, att)
  }

  /** One pass of the filler loop: `hist.SetTargetData(i % wsPeriod, filler)`,
      whose result becomes `currentHD`. */
  method FillEpoch(cfg: Config, hist: array<byte>, i: uint64, ghost b: Buffers) returns (currentHD: array<byte>)
    requires AssertSize(b.hist).Pass? && hist[..] == b.hist
    modifies hist
    ensures var next := FillerStep(cfg, b, i);
      && hist[..] == next.hist
      && (next.current.SameAsHist? ==> currentHD == hist)
      && (next.current.Detached? ==> fresh(currentHD) && currentHD[..] == next.current.contents)
  {
    var newHD := SetTargetData(cfg, hist, Slot(cfg, i), HistoryData(cfg.farFutureEpoch, []));
    match newHD {
      case Failure(_) =>
        assert false;
      case Success(a) =>
        currentHD := a;
    }
  }

  /** The filler loop of `MarkAllAsAttestedSinceLatestWrittenEpoch`: for every
      `i` from `latest + 1` while `i < incoming && i <= latest + wsPeriod`
      (wrapping), `currentHD = hist.SetTargetData(i % wsPeriod, filler)`. */
  method FillSkippedEpochs(cfg: Config, hist: array<byte>, latest: uint64, incoming: uint64)
    returns (currentHD: array<byte>)
    requires AssertSize(hist[..]).Pass? && incoming > latest
    modifies hist
    ensures var b := FillFrom(cfg, Buffers(old(hist[..]), SameAsHist), latest + 1, FillerCount(cfg, latest, incoming));
      && hist[..] == b.hist
      && (b.current.SameAsHist? ==> currentHD == hist)
      && (b.current.Detached? ==> fresh(currentHD) && currentHD[..] == b.current.contents)
  {
    ghost var h0 := hist[..];
    currentHD := hist;
    var maxToWrite := MaxToWrite(cfg, latest);
    var i: uint64 := latest + 1;
    ghost var m: nat := FillerCount(cfg, latest, incoming);
    ghost var b := Buffers(h0, SameAsHist);
    ghost var filled := FillFrom(cfg, b, i, m);
    while i < incoming && i <= maxToWrite
      invariant i + m == latest + 1 + FillerCount(cfg, latest, incoming)
      invariant FillFrom(cfg, b, i, m) == filled
      invariant |b.hist| == |h0| && hist[..] == b.hist
      invariant b.current.SameAsHist? ==> currentHD == hist
      invariant b.current.Detached? ==> fresh(currentHD) && currentHD[..] == b.current.contents
      decreases incoming - i
    {
      FillerEpochs(cfg, latest, incoming, i);
      currentHD := FillEpoch(cfg, hist, i, b);
      b := FillFromStep(cfg, b, i, m, filled);
      m := m - 1;
      i := i + 1;
    }
    FillerEpochs(cfg, latest, incoming, i);
    assert m == 0;
  }

  /** Everything before the final write: when the target is ahead of the
      latest written epoch, the filler loop and `currentHD.SetLatestEpochWritten`;
      otherwise `currentHD` is `hist` itself. */
  method PrepareFinalWrite(cfg: Config, hist: array<byte>, latest: uint64, incoming: uint64)
    returns (currentHD: array<byte>)
    requires GetLatestEpochWritten(hist[..]) == Success(latest)
    modifies hist
    ensures var b := BeforeFinalWrite(cfg, old(hist[..]), latest, incoming);
      && hist[..] == b.hist
      && (b.current.SameAsHist? ==> currentHD == hist)
      && (b.current.Detached? ==> fresh(currentHD) && currentHD[..] == b.current.contents)
  {
    ghost var h0 := hist[..];
    BeforeFinalWriteCases(cfg, h0, latest, incoming);
    currentHD := hist;
    if incoming > latest {
      currentHD := FillSkippedEpochs(cfg, hist, latest, incoming);
      FillFromSizes(cfg, Buffers(h0, SameAsHist), latest + 1, FillerCount(cfg, latest, incoming));
      var newHD := SetLatestEpochWritten(currentHD, incoming);
      match newHD {
        case Failure(_) =>
          assert false;
        case Success(a) =>
          currentHD := a;
      }
    }
  }

  method MarkAllAsAttestedSinceLatestWrittenEpoch(cfg: Config, hist: array<byte>, incomingTarget: uint64, incomingAtt: HistoryData)
    returns (r: Result<array<byte>>)
    modifies hist
    ensures var spec := MarkAllSpec(cfg, old(hist[..]), incomingTarget, incomingAtt);
      && (spec.Failure? ==> r == Failure(spec.error) && hist[..] == old(hist[..]))
      && (spec.Success? ==> r.Success? && r.value[..] == spec.value.result && hist[..] == spec.value.hist)
      && (spec.Success? && spec.value.resultIsHist ==> r.value == hist)
      && (spec.Success? && !spec.value.resultIsHist ==> fresh(r.value))
  {
    ghost var h0 := hist[..];
    var latestResult := GetLatestEpochWritten(hist[..]);
    if latestResult.Failure? {
      return Failure(latestResult.error);
    }
    var latestEpochWritten := latestResult.value;
    var currentHD := PrepareFinalWrite(cfg, hist, latestEpochWritten, incomingTarget);
    BeforeFinalWriteSizes(cfg, h0, latestEpochWritten, incomingTarget);
    var newHD := SetTargetData(cfg, currentHD, Slot(cfg, incomingTarget), HistoryData(incomingAtt.source, incomingAtt.signingRoot));
    match newHD {
      case Failure(_) =>
        assert false;
      case Success(a) =>
        r := Success(a);
    }
  }

  /** The call fails exactly when `hist` fails `assertSize`: every later
      write is to a buffer of well-formed size. */
  lemma MarkAllFails(cfg: Config, h0: seq<byte>, incoming: uint64, att: HistoryData)
    ensures MarkAllSpec(cfg, h0, incoming, att).Failure? <==> AssertSize(h0).Fail?
  {
    if AssertSize(h0).Pass? {
      BeforeFinalWriteSizes(cfg, h0, GetLatestEpochWritten(h0).value, incoming);
    }
  }

  /** The returned buffer's header is the incoming target when it is ahead
      of the latest written epoch, and the latest written epoch otherwise. */
  lemma MarkAllHeader(cfg: Config, h0: seq<byte>, incoming: uint64, att: HistoryData)
    requires AssertSize(h0).Pass?
    ensures var latest := GetLatestEpochWritten(h0).value;
      var r := MarkAllSpec(cfg, h0, incoming, att);
      && r.Success?
      && GetLatestEpochWritten(r.value.result) == Success(if incoming > latest then incoming else latest)
  {
    var latest := GetLatestEpochWritten(h0).value;
    BeforeFinalWriteHeader(cfg, h0, latest, incoming);
    FinalWriteHeader(cfg, BeforeFinalWrite(cfg, h0, latest, incoming), incoming, att);
  }

  /** When the final write begins, `currentHD`'s header holds the incoming
      target if it is ahead of the latest written epoch, and is unchanged
      otherwise. */
  lemma BeforeFinalWriteHeader(cfg: Config, h0: seq<byte>, latest: uint64, incoming: uint64)
    requires GetLatestEpochWritten(h0) == Success(latest)
    ensures AssertSize(CurrentContents(BeforeFinalWrite(cfg, h0, latest, incoming))).Pass?
    ensures GetLatestEpochWritten(CurrentContents(BeforeFinalWrite(cfg, h0, latest, incoming)))
         == Success(if incoming > latest then incoming else latest)
  {
    if incoming > latest {
      var f := FillFrom(cfg, Buffers(h0, SameAsHist), latest + 1, FillerCount(cfg, latest, incoming));
      FillFromSizes(cfg, Buffers(h0, SameAsHist), latest + 1, FillerCount(cfg, latest, incoming));
      LatestOnCurrentReads(f, incoming);
    }
  }

  /** The final write keeps `currentHD`'s header. */
  lemma FinalWriteHeader(cfg: Config, b: Buffers, incoming: uint64, att: HistoryData)
    requires AssertSize(CurrentContents(b)).Pass?
    ensures FinalWrite(cfg, b, incoming, att).Success?
    ensures GetLatestEpochWritten(FinalWrite(cfg, b, incoming, att).value.result)
         == GetLatestEpochWritten(CurrentContents(b))
  {
    HeaderUnchangedByEntry(cfg, CurrentContents(b), Slot(cfg, incoming), att);
  }

  /** The returned buffer holds the incoming attestation in the entry of
      the incoming target: its source, and its root when that has 32 bytes. */
  lemma MarkAllIncomingEntry(cfg: Config, h0: seq<byte>, incoming: uint64, att: HistoryData)
    requires AssertSize(h0).Pass?
    ensures var r := MarkAllSpec(cfg, h0, incoming, att);
      && r.Success?
      && GetTargetData(cfg, r.value.result, incoming).Success?
      && GetTargetData(cfg, r.value.result, incoming).value.Some?
      && GetTargetData(cfg, r.value.result, incoming).value.value.source == att.source
      && (|att.signingRoot| == SigningRootSize ==>
            GetTargetData(cfg, r.value.result, incoming) == Success(Some(att)))
  {
    var latest := GetLatestEpochWritten(h0).value;
    var cur := CurrentContents(BeforeFinalWrite(cfg, h0, latest, incoming));
    BeforeFinalWriteSizes(cfg, h0, latest, incoming);
    TargetDataRoundTrip(cfg, cur, Slot(cfg, incoming), att);
    var written := WithTargetData(cfg, cur, Slot(cfg, incoming), att).value;
    SameEntryAsResidue(cfg, written, incoming, att);
  }

  /** A filler write to another entry leaves the entry of `t` reading `e`. */
  lemma FillerStepFrame(cfg: Config, b: Buffers, i: uint64, t: uint64, e: HistoryData) returns (next: Buffers)
    requires AssertSize(b.hist).Pass? && GetTargetData(cfg, b.hist, t) == Success(Some(e))
    requires Slot(cfg, i) != Slot(cfg, t)
    ensures next == FillerStep(cfg, b, i) && AssertSize(next.hist).Pass?
    ensures GetTargetData(cfg, next.hist, t) == Success(Some(e))
    ensures GetTargetData(cfg, CurrentContents(next), t) == Success(Some(e))
  {
    var slot := Slot(cfg, i);
    ModIdempotent(i, cfg.weakSubjectivityPeriod);
    OtherEntryUnchanged(cfg, b.hist, slot, FillerData(cfg), t);
    var written := WithTargetData(cfg, b.hist, slot, FillerData(cfg)).value;
    next := FillerStep(cfg, b, i);
    if Fits(cfg, |b.hist|, slot) {
      assert next == Buffers(written, SameAsHist);
    } else {
      assert next == Buffers(b.hist, Detached(written));
    }
  }

  /** Filler writes to other entries leave the entry of `t` reading `e`, in
      `hist` and in the buffer `currentHD` refers to. */
  lemma {:induction false} FillFromFrame(cfg: Config, b: Buffers, i: nat, m: nat, t: uint64, e: HistoryData)
    requires AssertSize(b.hist).Pass? && i + m <= TWO_64
    requires GetTargetData(cfg, b.hist, t) == Success(Some(e))
    requires GetTargetData(cfg, CurrentContents(b), t) == Success(Some(e))
    requires forall j: uint64 :: i <= j < i + m ==> Slot(cfg, j) != Slot(cfg, t)
    ensures GetTargetData(cfg, FillFrom(cfg, b, i, m).hist, t) == Success(Some(e))
    ensures GetTargetData(cfg, CurrentContents(FillFrom(cfg, b, i, m)), t) == Success(Some(e))
    decreases m
  {
    if m > 0 {
      var next := FillerStepFrame(cfg, b, i, t, e);
      FillFromFrame(cfg, next, i + 1, m - 1, t, e);
    }
  }

  /** Filler writes touch only the skipped epochs: an entry that existed,
      whose slot no epoch in (latest, incoming) up to latest + period maps
      to and that is not the incoming target's, reads as before, in the
      returned buffer and in the caller's `hist`. */
  lemma MarkAllFrame(cfg: Config, h0: seq<byte>, incoming: uint64, att: HistoryData, t: uint64)
    requires AssertSize(h0).Pass? && Fits(cfg, |h0|, t)
    requires Slot(cfg, t) != Slot(cfg, incoming)
    requires forall i: uint64 ::
      (GetLatestEpochWritten(h0).value < i < incoming && i <= GetLatestEpochWritten(h0).value + cfg.weakSubjectivityPeriod)
      ==> Slot(cfg, i) != Slot(cfg, t)
    ensures var r := MarkAllSpec(cfg, h0, incoming, att);
      && r.Success?
      && GetTargetData(cfg, r.value.result, t) == GetTargetData(cfg, h0, t)
      && GetTargetData(cfg, r.value.hist, t) == GetTargetData(cfg, h0, t)
  {
    var latest := GetLatestEpochWritten(h0).value;
    var e := GetTargetData(cfg, h0, t).value.value;
    var b := BeforeFinalWrite(cfg, h0, latest, incoming);
    BeforeFinalWriteSizes(cfg, h0, latest, incoming);
    BeforeFinalWriteFrame(cfg, h0, latest, incoming, t, e);
    var cur := CurrentContents(b);
    var slot := Slot(cfg, incoming);
    ModIdempotent(incoming, cfg.weakSubjectivityPeriod);
    OtherEntryUnchanged(cfg, cur, slot, att, t);
  }

  /** The header update leaves every entry reading as before. */
  lemma LatestOnCurrentFrame(cfg: Config, b: Buffers, latest: uint64, t: uint64, e: HistoryData)
    requires AssertSize(b.hist).Pass? && AssertSize(CurrentContents(b)).Pass?
    requires GetTargetData(cfg, b.hist, t) == Success(Some(e))
    requires GetTargetData(cfg, CurrentContents(b), t) == Success(Some(e))
    ensures GetTargetData(cfg, LatestOnCurrent(b, latest).hist, t) == Success(Some(e))
    ensures GetTargetData(cfg, CurrentContents(LatestOnCurrent(b, latest)), t) == Success(Some(e))
  {
    EntriesUnchangedByHeader(cfg, CurrentContents(b), latest, t);
  }

  /** The entries no filler epoch maps to read as before when the final
      write begins. */
  lemma BeforeFinalWriteFrame(cfg: Config, h0: seq<byte>, latest: uint64, incoming: uint64, t: uint64, e: HistoryData)
    requires AssertSize(h0).Pass? && GetTargetData(cfg, h0, t) == Success(Some(e))
    requires forall i: uint64 ::
      (latest < i < incoming && i <= latest + cfg.weakSubjectivityPeriod) ==> Slot(cfg, i) != Slot(cfg, t)
    ensures GetTargetData(cfg, BeforeFinalWrite(cfg, h0, latest, incoming).hist, t) == Success(Some(e))
    ensures GetTargetData(cfg, CurrentContents(BeforeFinalWrite(cfg, h0, latest, incoming)), t) == Success(Some(e))
  {
    if incoming > latest {
      var n := FillerCount(cfg, latest, incoming);
      forall j: uint64 | latest + 1 <= j < latest + 1 + n
        ensures Slot(cfg, j) != Slot(cfg, t)
      {
        FillerEpochs(cfg, latest, incoming, j);
      }
      var f := FillFrom(cfg, Buffers(h0, SameAsHist), latest + 1, n);
      FillFromFrame(cfg, Buffers(h0, SameAsHist), latest + 1, n, t, e);
      FillFromSizes(cfg, Buffers(h0, SameAsHist), latest + 1, n);
      LatestOnCurrentFrame(cfg, f, incoming, t, e);
    }
  }

  /** An entry written with the far-future marker as its source. */
  predicate MarkedEmpty(cfg: Config, hd: seq<byte>, t: uint64)
  {
    var r := GetTargetData(cfg, hd, t);
    r.Success? && r.value.Some? && r.value.value.source == cfg.farFutureEpoch
  }

  /** With a period of 4, a one-entry buffer whose header reads 0 and an
      attestation for target 3, the filler loop visits epochs 1 and 2. Both
      writes grow `hist`, each into a fresh copy, and the second copy does
      not hold the first write: epoch 1, a skipped epoch whose entry the
      final write does not touch, reads source 0 instead of the far-future
      marker. */
  lemma SkippedEntryLost(farFuture: uint64, att: HistoryData)
    requires farFuture != 0
    ensures var cfg := Config(4, farFuture);
      var h0 := Zeros(EntryStart(1));
      var r := MarkAllSpec(cfg, h0, 3, att);
      && GetLatestEpochWritten(h0) == Success(0)
      && r.Success?
      && GetTargetData(cfg, r.value.result, 1) == Success(Some(HistoryData(0, Zeros(SigningRootSize))))
      && !MarkedEmpty(cfg, r.value.result, 1)
  {
    var cfg := Config(4, farFuture);
    var h0 := Zeros(EntryStart(1));
    EntryEndWellFormed(h0, 0);
    ZeroWord(h0[..LatestEpochWrittenSize]);
    assert GetLatestEpochWritten(h0) == Success(0);
    assert FillerCount(cfg, 0, 3) == 2;
    var b0 := Buffers(h0, SameAsHist);
    var w1 := WithTargetData(cfg, h0, 1, FillerData(cfg)).value;
    var w2 := WithTargetData(cfg, h0, 2, FillerData(cfg)).value;
    assert FillerStep(cfg, b0, 1) == Buffers(h0, Detached(w1));
    assert FillerStep(cfg, Buffers(h0, Detached(w1)), 2) == Buffers(h0, Detached(w2));
    assert FillFrom(cfg, b0, 1, 2) == Buffers(h0, Detached(w2));
    GrownEntryReadsZero(cfg, h0, 2, FillerData(cfg), 1);
    EntriesUnchangedByHeader(cfg, w2, 3, 1);
    var w3 := WithLatestEpochWritten(w2, 3).value;
    assert BeforeFinalWrite(cfg, h0, 0, 3) == Buffers(h0, Detached(w3));
    OtherEntryUnchanged(cfg, w3, 3, att, 1);
  }

  /** The filler step as evidently intended, `currentHD.SetTargetData(...)`:
      each write builds on the buffer the previous one returned. */
  function ChainedFillerStep(cfg: Config, b: Buffers, i: uint64): (r: Buffers)
    ensures |r.hist| == |b.hist|
  {
    var slot := Slot(cfg, i);
    var cur := CurrentContents(b);
    match WithTargetData(cfg, cur, slot, FillerData(cfg))
    case Failure(_) => b
    case Success(written) =>
      if b.current.SameAsHist? && Fits(cfg, |cur|, slot) then Buffers(written, SameAsHist)
      else Buffers(b.hist, Detached(written))
  }

  function ChainedFillFrom(cfg: Config, b: Buffers, i: nat, m: nat): (r: Buffers)
    requires i + m <= TWO_64
    ensures |r.hist| == |b.hist|
    decreases m
  {
    if m == 0 then b else ChainedFillFrom(cfg, ChainedFillerStep(cfg, b, i), i + 1, m - 1)
  }

  /** `MarkAllAsAttestedSinceLatestWrittenEpoch` with the chained filler loop. */
  function MarkAllChained(cfg: Config, h0: seq<byte>, incoming: uint64, att: HistoryData): (r: Result<Marked>)
    ensures AssertSize(h0).Fail? ==> r == Failure(AssertSize(h0).error)
  {
    match GetLatestEpochWritten(h0)
    case Failure(e) => Failure(e)
    case Success(latest) => FinalWrite(cfg, ChainedBeforeFinalWrite(cfg, h0, latest, incoming), incoming, att)
  }

  /** `BeforeFinalWrite` with the filler loop writing through `currentHD`. */
  function ChainedBeforeFinalWrite(cfg: Config, h0: seq<byte>, latest: uint64, incoming: uint64): (b: Buffers)
    ensures |b.hist| == |h0|
  {
    if incoming > latest then
      LatestOnCurrent(ChainedFillFrom(cfg, Buffers(h0, SameAsHist), latest + 1, FillerCount(cfg, latest, incoming)), incoming)
    else Buffers(h0, SameAsHist)
  }

  /** A filler write marks its epoch. */
  lemma FillerWriteMarks(cfg: Config, hd: seq<byte>, i: uint64)
    requires AssertSize(hd).Pass?
    ensures WithTargetData(cfg, hd, Slot(cfg, i), FillerData(cfg)).Success?
    ensures MarkedEmpty(cfg, WithTargetData(cfg, hd, Slot(cfg, i), FillerData(cfg)).value, i)
  {
    TargetDataRoundTrip(cfg, hd, Slot(cfg, i), FillerData(cfg));
    SameEntryAsResidue(cfg, WithTargetData(cfg, hd, Slot(cfg, i), FillerData(cfg)).value, i, FillerData(cfg));
  }

  /** A filler write keeps the marks of epochs in other entries. */
  lemma FillerWriteKeeps(cfg: Config, hd: seq<byte>, i: uint64, j: uint64)
    requires AssertSize(hd).Pass? && MarkedEmpty(cfg, hd, j)
    requires j % cfg.weakSubjectivityPeriod != i % cfg.weakSubjectivityPeriod
    ensures WithTargetData(cfg, hd, Slot(cfg, i), FillerData(cfg)).Success?
    ensures MarkedEmpty(cfg, WithTargetData(cfg, hd, Slot(cfg, i), FillerData(cfg)).value, j)
  {
    ModIdempotent(i, cfg.weakSubjectivityPeriod);
    OtherEntryUnchanged(cfg, hd, Slot(cfg, i), FillerData(cfg), j);
  }

  /** One chained filler write marks its epoch and keeps the epochs marked
      before it, which lie less than a period back. */
  lemma ChainedStepMarks(cfg: Config, b: Buffers, first: nat, i: uint64) returns (next: Buffers)
    requires AssertSize(CurrentContents(b)).Pass?
    requires first <= i < first + cfg.weakSubjectivityPeriod
    requires forall j: uint64 :: first <= j < i ==> MarkedEmpty(cfg, CurrentContents(b), j)
    ensures next == ChainedFillerStep(cfg, b, i)
    ensures AssertSize(CurrentContents(next)).Pass?
    ensures forall j: uint64 :: first <= j <= i ==> MarkedEmpty(cfg, CurrentContents(next), j)
  {
    var cur := CurrentContents(b);
    var written := WithTargetData(cfg, cur, Slot(cfg, i), FillerData(cfg)).value;
    next := ChainedFillerStep(cfg, b, i);
    assert CurrentContents(next) == written;
    FillerWriteMarks(cfg, cur, i);
    forall j: uint64 | first <= j < i
      ensures MarkedEmpty(cfg, written, j)
    {
      DistinctResidues(j, i, cfg.weakSubjectivityPeriod);
      FillerWriteKeeps(cfg, cur, i, j);
    }
  }

  lemma {:induction false} ChainedFillFromMarks(cfg: Config, b: Buffers, first: nat, i: nat, m: nat)
    requires AssertSize(CurrentContents(b)).Pass?
    requires first <= i && i + m <= first + cfg.weakSubjectivityPeriod && i + m <= TWO_64
    requires forall j: uint64 :: first <= j < i ==> MarkedEmpty(cfg, CurrentContents(b), j)
    ensures AssertSize(CurrentContents(ChainedFillFrom(cfg, b, i, m))).Pass?
    ensures forall j: uint64 :: first <= j < i + m ==> MarkedEmpty(cfg, CurrentContents(ChainedFillFrom(cfg, b, i, m)), j)
    decreases m
  {
    if m > 0 {
      var next := ChainedStepMarks(cfg, b, first, i);
      ChainedFillFromMarks(cfg, next, first, i + 1, m - 1);
    }
  }

  /** With the chained loop, every epoch the filler loop visits is marked
      empty in the returned buffer, unless the incoming target shares its
      entry. */
  lemma MarkAllChainedMarksSkipped(cfg: Config, h0: seq<byte>, incoming: uint64, att: HistoryData, i: uint64)
    requires AssertSize(h0).Pass?
    requires GetLatestEpochWritten(h0).value < i < incoming
    requires i <= MaxToWrite(cfg, GetLatestEpochWritten(h0).value)
    requires Slot(cfg, i) != Slot(cfg, incoming)
    ensures MarkAllChained(cfg, h0, incoming, att).Success?
    ensures MarkedEmpty(cfg, MarkAllChained(cfg, h0, incoming, att).value.result, i)
  {
    var latest := GetLatestEpochWritten(h0).value;
    var n := FillerCount(cfg, latest, incoming);
    FillerEpochs(cfg, latest, incoming, i);
    ChainedFillFromMarks(cfg, Buffers(h0, SameAsHist), latest + 1, latest + 1, n);
    var f := ChainedFillFrom(cfg, Buffers(h0, SameAsHist), latest + 1, n);
    assert MarkedEmpty(cfg, CurrentContents(f), i);
    LatestOnCurrentKeepsMark(cfg, f, incoming, i);
    ChainedBeforeFinalWriteAhead(cfg, h0, latest, incoming);
    FinalWriteKeepsMark(cfg, LatestOnCurrent(f, incoming), incoming, att, i);
  }

  lemma ChainedBeforeFinalWriteAhead(cfg: Config, h0: seq<byte>, latest: uint64, incoming: uint64)
    requires incoming > latest
    ensures ChainedBeforeFinalWrite(cfg, h0, latest, incoming)
      == LatestOnCurrent(ChainedFillFrom(cfg, Buffers(h0, SameAsHist), latest + 1, FillerCount(cfg, latest, incoming)), incoming)
  {
  }

  /** The header update keeps every mark. */
  lemma LatestOnCurrentKeepsMark(cfg: Config, b: Buffers, latest: uint64, i: uint64)
    requires AssertSize(CurrentContents(b)).Pass? && MarkedEmpty(cfg, CurrentContents(b), i)
    ensures AssertSize(CurrentContents(LatestOnCurrent(b, latest))).Pass?
    ensures MarkedEmpty(cfg, CurrentContents(LatestOnCurrent(b, latest)), i)
  {
    EntriesUnchangedByHeader(cfg, CurrentContents(b), latest, i);
    LatestOnCurrentReads(b, latest);
  }

  /** The final write keeps the marks of epochs in other entries. */
  lemma FinalWriteKeepsMark(cfg: Config, b: Buffers, incoming: uint64, att: HistoryData, i: uint64)
    requires AssertSize(CurrentContents(b)).Pass? && MarkedEmpty(cfg, CurrentContents(b), i)
    requires Slot(cfg, i) != Slot(cfg, incoming)
    ensures FinalWrite(cfg, b, incoming, att).Success?
    ensures MarkedEmpty(cfg, FinalWrite(cfg, b, incoming, att).value.result, i)
  {
    ModIdempotent(incoming, cfg.weakSubjectivityPeriod);
    OtherEntryUnchanged(cfg, CurrentContents(b), Slot(cfg, incoming), att, i);
  }
}

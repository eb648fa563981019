/** The `FrameComparer` class of lib/frame-comparer.ts: the frame list it
    keeps, the per-frame comparison it hands to the diff engine, and
    `compareImageFromVideo`, which asks whether some frame in a numeric
    range matches an expected image. */
module Comparison {
  import opened Wrappers
  import opened PathNaming
  import opened FrameNumbers
  import opened FrameRange
  import opened BlinkDiff

  /** The `delta` every comparison passes to the engine (line 81). */
  const Delta: nat := 20

  /** How the promise returned by `compareImageFromVideo` ends. */
  datatype Outcome =
    | Rejected(message: string)  // the Error thrown at line 12
    | Settled(found: bool)       // `accept(true)` or `accept(false)`
    | Pending                    // `_frames` undefined: the TypeError is lost in the executor

  /** The message of the Error thrown at line 12. */
  function NotAvailable(expectedImageFullName: string): string
  {
    expectedImageFullName + " is not available!!!"
  }

  /** The options `compareImages` builds (lines 74-82). */
  function CompareOptions(actual: string, expected: string, output: string,
                          valueThreshold: real, typeThreshold: ThresholdType): DiffOptions
  {
    DiffOptions(actual, expected, output, OutputAll, typeThreshold, valueThreshold, Delta)
  }

  /** The comparison the scan asks for one frame (lines 26-27). */
  function FrameComparison(frame: string, expected: string, logStorage: string, tolerance: real): DiffOptions
  {
    CompareOptions(frame, expected, DiffImagePath(logStorage, frame), tolerance, ThresholdPercent)
  }

  /** The comparisons for a list of frames, in the list's order. */
  function Comparisons(frames: seq<string>, expected: string, logStorage: string, tolerance: real): (cs: seq<DiffOptions>)
    ensures |cs| == |frames|
  {
    if frames == [] then []
    else [FrameComparison(frames[0], expected, logStorage, tolerance)] + Comparisons(frames[1..], expected, logStorage, tolerance)
  }

  /** The comparison at each position is the one for the frame there. */
  lemma {:induction false} ComparisonsAt(frames: seq<string>, expected: string, logStorage: string, tolerance: real, i: nat)
    requires i < |frames|
    ensures Comparisons(frames, expected, logStorage, tolerance)[i] == FrameComparison(frames[i], expected, logStorage, tolerance)
  {
    if i > 0 {
      ComparisonsAt(frames[1..], expected, logStorage, tolerance, i - 1);
    }
  }

  /** Extending a prefix by the next element. */
  lemma PrefixExtends(cs: seq<DiffOptions>, i: nat)
    requires i < |cs|
    ensures cs[..i] + [cs[i]] == cs[..i + 1]
  {
  }

  /** The position of the first comparison that passes, or `|cs|` when none does. */
  function FirstAccepted(cs: seq<DiffOptions>, verdict: DiffOptions -> bool): (k: nat)
    ensures k <= |cs|
  {
    if cs == [] then 0
    else if verdict(cs[0]) then 0
    else 1 + FirstAccepted(cs[1..], verdict)
  }

  /** `FirstAccepted` finds the first comparison that passes: every one
      before it fails, and the one at it passes. */
  lemma {:induction false} FirstAcceptedIsFirst(cs: seq<DiffOptions>, verdict: DiffOptions -> bool)
    ensures var k := FirstAccepted(cs, verdict);
      && (forall j :: 0 <= j < k ==> !verdict(cs[j]))
      && (k < |cs| ==> verdict(cs[k]))
  {
    if cs != [] && !verdict(cs[0]) {
      FirstAcceptedIsFirst(cs[1..], verdict);
      var k := FirstAccepted(cs, verdict);
      forall j | 0 <= j < k ensures !verdict(cs[j]) {
        if j > 0 { assert cs[j] == cs[1..][j - 1]; }
      }
    }
  }

  /** The comparisons a short-circuit scan runs: up to and including the
      first one that passes, or all of them. */
  function ScanRuns(cs: seq<DiffOptions>, verdict: DiffOptions -> bool): seq<DiffOptions>
  {
    var k := FirstAccepted(cs, verdict);
    if k < |cs| then cs[..k + 1] else cs
  }

  /** A scan that has seen no pass before position `k` and a pass at `k`
      stops there. */
  lemma ScanStopsAt(cs: seq<DiffOptions>, verdict: DiffOptions -> bool, k: nat)
    requires k < |cs| && verdict(cs[k]) && k <= FirstAccepted(cs, verdict)
    ensures FirstAccepted(cs, verdict) == k && ScanRuns(cs, verdict) == cs[..k + 1]
  {
    FirstAcceptedIsFirst(cs, verdict);
  }

  /** A scan that has seen no pass up to and including position `i` goes on. */
  lemma ScanPassesOver(cs: seq<DiffOptions>, verdict: DiffOptions -> bool, i: nat)
    requires i < |cs| && !verdict(cs[i]) && i <= FirstAccepted(cs, verdict)
    ensures i + 1 <= FirstAccepted(cs, verdict)
  {
    FirstAcceptedIsFirst(cs, verdict);
  }

  /** The frame paths `resolve(storage, name)` of a storage listing. */
  function ResolvedListing(storage: string, listing: seq<string>): seq<string>
  {
    seq(|listing|, i requires 0 <= i < |listing| => Join(storage, listing[i]))
  }

  class FrameComparer {
    /** `_frames`: None while it is still undefined. */
    var frames: Option<seq<string>>

    constructor ()
      ensures frames == None
    {
      frames := None;
    }

    /** The 'end' handler of `processVideo` (lines 52-58): the frame list is
        reset and each entry of the storage listing is appended, resolved
        against the storage directory. */
    method CollectFrames(storage: string, listing: seq<string>)
      modifies this
      ensures frames == Some(ResolvedListing(storage, listing))
    {
      frames := Some([]);
      assert ResolvedListing(storage, listing[..0]) == [];
      for i := 0 to |listing|
        invariant frames == Some(ResolvedListing(storage, listing[..i]))
      {
        assert ResolvedListing(storage, listing[..i + 1])
            == ResolvedListing(storage, listing[..i]) + [Join(storage, listing[i])];
        frames := Some(frames.value + [Join(storage, listing[i])]);
      }
      assert listing[..|listing|] == listing;
    }

    /** `compareImages` with `runDiff` (lines 73-109): one engine run. */
    method CompareImages(actual: string, expected: string, output: string,
                         valueThreshold: real, typeThreshold: ThresholdType, engine: Engine)
      returns (passed: bool)
      modifies engine
      ensures passed == engine.verdict(CompareOptions(actual, expected, output, valueThreshold, typeThreshold))
      ensures engine.runs == old(engine.runs) + [CompareOptions(actual, expected, output, valueThreshold, typeThreshold)]
    {
      passed := engine.Run(CompareOptions(actual, expected, output, valueThreshold, typeThreshold));
    }

    /** One step of the scan (lines 26-27): the frame's diff artifact path
        is derived and the frame is compared with the expected image,
        thresholded by percentage at the caller's tolerance. */
    method CompareFrame(filteredFrames: seq<string>, index: nat, expected: string, logStorage: string,
                        tolerance: real, engine: Engine)
      returns (passed: bool)
      requires index < |filteredFrames|
      modifies engine
      ensures var c := Comparisons(filteredFrames, expected, logStorage, tolerance)[index];
        passed == engine.verdict(c) && engine.runs == old(engine.runs) + [c]
    {
      var frame := filteredFrames[index];
      var diffImage := DiffImagePath(logStorage, frame);
      ComparisonsAt(filteredFrames, expected, logStorage, tolerance, index);
      passed := CompareImages(frame, expected, diffImage, tolerance, ThresholdPercent, engine);
    }

    /** The loop of lines 24-33 over the filtered frames: each frame is
        compared in turn, and the scan stops at the first that passes. */
    method ScanFrames(filteredFrames: seq<string>, expected: string, logStorage: string,
                      tolerance: real, engine: Engine)
      returns (found: bool)
      modifies engine
      ensures var cs := Comparisons(filteredFrames, expected, logStorage, tolerance);
        && found == (FirstAccepted(cs, engine.verdict) < |cs|)
        && engine.runs == old(engine.runs) + ScanRuns(cs, engine.verdict)
    {
      ghost var cs := Comparisons(filteredFrames, expected, logStorage, tolerance);
      ghost var k := FirstAccepted(cs, engine.verdict);
      for index := 0 to |filteredFrames|
        invariant engine.runs == old(engine.runs) + cs[..index]
        invariant index <= k
      {
        var result := CompareFrame(filteredFrames, index, expected, logStorage, tolerance, engine);
        PrefixExtends(cs, index);
        if result {
          ScanStopsAt(cs, engine.verdict, index);
          return true;
        }
        ScanPassesOver(cs, engine.verdict, index);
      }
      assert cs[..|cs|] == cs;
      return false;
    }

    /** `compareImageFromVideo` (lines 10-35). `expectedExists` is
        `existsSync(expectedImageFullName)`. */
    method CompareImageFromVideo(expectedImageFullName: string, logStorage: string,
                                 startRange: int, endRange: int, tolerance: real,
                                 expectedExists: bool, engine: Engine)
      returns (outcome: Outcome)
      modifies engine
      ensures frames == old(frames)
      ensures !expectedExists ==>
        outcome == Rejected(NotAvailable(expectedImageFullName)) && engine.runs == old(engine.runs)
      ensures expectedExists && frames.None? ==>
        outcome == Pending && engine.runs == old(engine.runs)
      ensures expectedExists && frames.Some? ==>
        var cs := Comparisons(FramesInRange(frames.value, startRange, endRange),
                              expectedImageFullName, logStorage, tolerance);
        && outcome == Settled(FirstAccepted(cs, engine.verdict) < |cs|)
        && engine.runs == old(engine.runs) + ScanRuns(cs, engine.verdict)
    {
      if !expectedExists {
        return Rejected(NotAvailable(expectedImageFullName));
      }
      if frames.None? {
        return Pending;
      }
      var all := frames.value;
      var end := EffectiveEnd(endRange, |all|);
      var filteredFrames := FilterFrames(all, startRange, end);
      var found := ScanFrames(filteredFrames, expectedImageFullName, logStorage, tolerance, engine);
      return Settled(found);
    }
  }
  /** The answer is true exactly when some frame of the list, with its
      number between the start and the clamped end, passes its comparison. */
  lemma FoundIffSomeFramePasses(frames: seq<string>, startRange: int, endRange: int, expected: string,
                                logStorage: string, tolerance: real, verdict: DiffOptions -> bool)
    ensures var cs := Comparisons(FramesInRange(frames, startRange, endRange), expected, logStorage, tolerance);
      FirstAccepted(cs, verdict) < |cs|
      <==> exists f :: f in frames && InRange(FrameNumber(f), startRange, EffectiveEnd(endRange, |frames|))
                       && verdict(FrameComparison(f, expected, logStorage, tolerance))
  {
    var fs := FramesInRange(frames, startRange, endRange);
    var cs := Comparisons(fs, expected, logStorage, tolerance);
    var k := FirstAccepted(cs, verdict);
    FirstAcceptedIsFirst(cs, verdict);
    if k < |cs| {
      assert fs[k] in fs;
      FilterMembership(frames, startRange, EffectiveEnd(endRange, |frames|), fs[k]);
      ComparisonsAt(fs, expected, logStorage, tolerance, k);
    }
    if f :| f in frames && InRange(FrameNumber(f), startRange, EffectiveEnd(endRange, |frames|))
            && verdict(FrameComparison(f, expected, logStorage, tolerance)) {
      FilterMembership(frames, startRange, EffectiveEnd(endRange, |frames|), f);
      var i :| 0 <= i < |fs| && fs[i] == f;
      ComparisonsAt(fs, expected, logStorage, tolerance, i);
      FirstAcceptedIsFirst(cs, verdict);
    }
  }

  /** The scan runs the comparisons in order, up to and including the first
      that passes: one more than its position, or all when none passes.
      Every run but the last fails, and the last passes exactly when the
      answer is true. */
  lemma ScanRunCount(cs: seq<DiffOptions>, verdict: DiffOptions -> bool)
    ensures var runs, k := ScanRuns(cs, verdict), FirstAccepted(cs, verdict);
      && runs == cs[..|runs|]
      && |runs| == (if k < |cs| then k + 1 else |cs|)
      && (forall j :: 0 <= j < |runs| - 1 ==> !verdict(runs[j]))
      && (runs != [] ==> (verdict(runs[|runs| - 1]) <==> k < |cs|))
  {
    var k := FirstAccepted(cs, verdict);
    FirstAcceptedIsFirst(cs, verdict);
    if k == |cs| {
      assert cs[..|cs|] == cs;
    }
  }

  /** Every comparison the scan runs is for a frame of the list in range,
      against the expected image, with the caller's tolerance as a
      percentage threshold, delta 20, all output, and the frame's diff
      artifact path. */
  lemma ScanRunsForwardTolerance(frames: seq<string>, startRange: int, endRange: int, expected: string,
                                 logStorage: string, tolerance: real, verdict: DiffOptions -> bool,
                                 o: DiffOptions)
    requires o in ScanRuns(Comparisons(FramesInRange(frames, startRange, endRange), expected, logStorage, tolerance), verdict)
    ensures o.imageAPath in frames
    ensures InRange(FrameNumber(o.imageAPath), startRange, EffectiveEnd(endRange, |frames|))
    ensures o.imageBPath == expected && o.imageOutputPath == DiffImagePath(logStorage, o.imageAPath)
    ensures o.threshold == tolerance && o.thresholdType == ThresholdPercent
    ensures o.imageOutputLimit == OutputAll && o.delta == 20
  {
    var fs := FramesInRange(frames, startRange, endRange);
    var cs := Comparisons(fs, expected, logStorage, tolerance);
    ScanRunCount(cs, verdict);
    var runs := ScanRuns(cs, verdict);
    var i :| 0 <= i < |runs| && runs[i] == o;
    ComparisonsAt(fs, expected, logStorage, tolerance, i);
    assert fs[i] in fs;
    FilterMembership(frames, startRange, EffectiveEnd(endRange, |frames|), fs[i]);
  }

  /** With the start above the clamped end, nothing is compared and the
      answer is false. */
  lemma EmptyRangeComparesNothing(frames: seq<string>, startRange: int, endRange: int, expected: string,
                                  logStorage: string, tolerance: real, verdict: DiffOptions -> bool)
    requires startRange > EffectiveEnd(endRange, |frames|)
    ensures var cs := Comparisons(FramesInRange(frames, startRange, endRange), expected, logStorage, tolerance);
      FirstAccepted(cs, verdict) == |cs| && ScanRuns(cs, verdict) == []
  {
    EmptyRangeSelectsNothing(frames, startRange, endRange);
  }
}

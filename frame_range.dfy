/** The range selection of lib/frame-comparer.ts:15-23: the upper bound is
    clamped to the number of frames, then the frames whose number lies in
    the inclusive range are kept, in their original order. */
module FrameRange {
  import opened FrameNumbers

  /** Line 15: `endRange < frames.length ? endRange : frames.length`. */
  function EffectiveEnd(endRange: int, frameCount: nat): (e: int)
    ensures e <= endRange && e <= frameCount
    ensures e == endRange || e == frameCount
  {
    if endRange < frameCount then endRange else frameCount
  }

  /** Line 18: `number >= startRange && number <= endRange`. */
  predicate InRange(n: nat, startRange: int, endRange: int)
  {
    startRange <= n <= endRange
  }

  /** `frames.filter(...)` with the predicate of lines 16-23. */
  function FilterFrames(frames: seq<string>, startRange: int, endRange: int): (kept: seq<string>)
    ensures |kept| <= |frames|
  {
    if frames == [] then []
    else
      (if InRange(FrameNumber(frames[0]), startRange, endRange) then [frames[0]] else [])
      + FilterFrames(frames[1..], startRange, endRange)
  }

  /** The frames the scan visits: the filter applied with the clamped bound. */
  function FramesInRange(frames: seq<string>, startRange: int, endRange: int): seq<string>
  {
    FilterFrames(frames, startRange, EffectiveEnd(endRange, |frames|))
  }

  /** `a` is `b` with some elements deleted, the rest in the same order. */
  ghost predicate IsSubsequence(a: seq<string>, b: seq<string>)
    decreases |b|
  {
    a == [] || (b != [] && ((a[0] == b[0] && IsSubsequence(a[1..], b[1..])) || IsSubsequence(a, b[1..])))
  }

  /** The filter only deletes frames and keeps the order of the rest. */
  lemma {:induction false} FilterIsSubsequence(frames: seq<string>, startRange: int, endRange: int)
    ensures IsSubsequence(FilterFrames(frames, startRange, endRange), frames)
  {
    if frames != [] {
      var rest := FilterFrames(frames[1..], startRange, endRange);
      FilterIsSubsequence(frames[1..], startRange, endRange);
      var kept := FilterFrames(frames, startRange, endRange);
      if InRange(FrameNumber(frames[0]), startRange, endRange) {
        assert kept == [frames[0]] + rest;
        assert kept[1..] == rest;
      } else {
        assert kept == rest;
      }
    }
  }

  /** The filter keeps each in-range frame as often as it occurs in the
      list and drops every other frame. */
  lemma {:induction false} FilterKeepsExactlyTheFramesInRange(frames: seq<string>, startRange: int, endRange: int, f: string)
    ensures multiset(FilterFrames(frames, startRange, endRange))[f]
         == if InRange(FrameNumber(f), startRange, endRange) then multiset(frames)[f] else 0
  {
    if frames != [] {
      var head := if InRange(FrameNumber(frames[0]), startRange, endRange) then [frames[0]] else [];
      var rest := FilterFrames(frames[1..], startRange, endRange);
      FilterKeepsExactlyTheFramesInRange(frames[1..], startRange, endRange, f);
      assert FilterFrames(frames, startRange, endRange) == head + rest;
      assert multiset(head + rest) == multiset(head) + multiset(rest);
      assert frames == [frames[0]] + frames[1..];
      assert multiset(frames) == multiset([frames[0]]) + multiset(frames[1..]);
    }
  }

  /** A frame is kept exactly when it is in the list and its number is in
      range. */
  lemma FilterMembership(frames: seq<string>, startRange: int, endRange: int, f: string)
    ensures f in FilterFrames(frames, startRange, endRange) <==> f in frames && InRange(FrameNumber(f), startRange, endRange)
  {
    FilterKeepsExactlyTheFramesInRange(frames, startRange, endRange, f);
  }

  /** Filtering a concatenation filters each part: the frames from the
      first part come first, each part in its own order. */
  lemma {:induction false} FilterOfConcat(a: seq<string>, b: seq<string>, startRange: int, endRange: int)
    ensures FilterFrames(a + b, startRange, endRange)
         == FilterFrames(a, startRange, endRange) + FilterFrames(b, startRange, endRange)
  {
    if a == [] {
      assert a + b == b;
    } else {
      var head := if InRange(FrameNumber(a[0]), startRange, endRange) then [a[0]] else [];
      assert (a + b)[0] == a[0] && (a + b)[1..] == a[1..] + b;
      FilterOfConcat(a[1..], b, startRange, endRange);
      assert FilterFrames(a + b, startRange, endRange) == head + FilterFrames(a[1..] + b, startRange, endRange);
      assert FilterFrames(a, startRange, endRange) == head + FilterFrames(a[1..], startRange, endRange);
    }
  }

  /** When every frame is in range the filter keeps the list as it is. */
  lemma {:induction false} FilterKeepsAllInRange(frames: seq<string>, startRange: int, endRange: int)
    requires forall i :: 0 <= i < |frames| ==> InRange(FrameNumber(frames[i]), startRange, endRange)
    ensures FilterFrames(frames, startRange, endRange) == frames
  {
    if frames != [] {
      FilterKeepsAllInRange(frames[1..], startRange, endRange);
      assert frames == [frames[0]] + frames[1..];
    }
  }

  /** A range whose start lies above its end keeps no frame. */
  lemma {:induction false} FilterOfEmptyRange(frames: seq<string>, startRange: int, endRange: int)
    requires startRange > endRange
    ensures FilterFrames(frames, startRange, endRange) == []
  {
    if frames != [] {
      FilterOfEmptyRange(frames[1..], startRange, endRange);
    }
  }

  /** An empty range (start above the clamped end) selects no frame. */
  lemma EmptyRangeSelectsNothing(frames: seq<string>, startRange: int, endRange: int)
    requires startRange > EffectiveEnd(endRange, |frames|)
    ensures FramesInRange(frames, startRange, endRange) == []
  {
    FilterOfEmptyRange(frames, startRange, EffectiveEnd(endRange, |frames|));
  }

  /** The clamp in action: no selected frame has a number above the frame
      count or above the requested end, and none below the start. */
  lemma SelectedFramesRespectClamp(frames: seq<string>, startRange: int, endRange: int, f: string)
    requires f in FramesInRange(frames, startRange, endRange)
    ensures f in frames
    ensures startRange <= FrameNumber(f) <= |frames| && FrameNumber(f) <= endRange
  {
    FilterMembership(frames, startRange, EffectiveEnd(endRange, |frames|), f);
  }
}

/** The image-difference engine the comparer drives (blink-diff). Its pixel
    comparison is not modelled: an engine is an oracle whose `verdict`
    decides `hasPassed(result.code)` for every set of options it is run
    with, and which logs each run. */
module BlinkDiff {

  /** `blinkDiff.THRESHOLD_PIXEL` and `blinkDiff.THRESHOLD_PERCENT`. */
  datatype ThresholdType = ThresholdPixel | ThresholdPercent

  /** `blinkDiff.OUTPUT_NONE`, `OUTPUT_DIFFERENT`, `OUTPUT_SIMILAR`, `OUTPUT_ALL`. */
  datatype OutputLimit = OutputNone | OutputDifferent | OutputSimilar | OutputAll

  /** The parameter object of `new blinkDiff({...})`. */
  datatype DiffOptions = DiffOptions(
    imageAPath: string,
    imageBPath: string,
    imageOutputPath: string,
    imageOutputLimit: OutputLimit,
    thresholdType: ThresholdType,
    threshold: real,
    delta: nat)

  class Engine {
    /** Whether a run with these options passes. */
    const verdict: DiffOptions -> bool
    /** Every run so far, oldest first. */
    var runs: seq<DiffOptions>

    constructor (verdict: DiffOptions -> bool)
      ensures this.verdict == verdict && runs == []
    {
      this.verdict := verdict;
      runs := [];
    }

    /** `diff.run(callback)` followed by `diff.hasPassed(result.code)`. */
    method Run(options: DiffOptions) returns (passed: bool)
      modifies this
      ensures passed == verdict(options)
      ensures runs == old(runs) + [options]
    {
      passed := verdict(options);
      runs := runs + [options];
    }
  }
}

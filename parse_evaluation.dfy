/**
 * The evaluation loops of the constituency parsers: sentences are scored one
 * after another against their gold trees; a sentence whose scoring raises is
 * skipped, a scored one has its recall, precision and tag accuracy recorded,
 * and the loop stops after 100 scored sentences (and, for Spanish, when the
 * skip count is 1000 just after a sentence was scored).
 *
 * Detokenising, parsing and scoring are outside the model: the outcome of
 * scoring each sentence is an input, `None` where the scorer raises. The
 * score values themselves are of an arbitrary type `S`.
 */
module ParseEvaluation {
  import opened Wrappers

  datatype Scores<S> = Scores(recall: S, prec: S, tagAccuracy: S)

  /** The lists and counters the loops keep. */
  datatype Tally<S> = Tally(recalls: seq<S>, precs: seq<S>, accs: seq<S>, skipped: nat, analyzed: nat)

  datatype StopReason = Exhausted | SampleFull | SkipLimitReached

  /** Where a loop ended: its tally, how many outcomes it consumed, and why it stopped. */
  datatype Run<S> = Run(tally: Tally<S>, attempted: nat, reason: StopReason)

  const SampleSize: nat := 100
  const SkipLimit: nat := 1000

  function NoScores<S>(): (t: Tally<S>)
  {
    Tally([], [], [], 0, 0)
  }

  function Record<S>(t: Tally<S>, sc: Scores<S>): (after: Tally<S>)
  {
    Tally(t.recalls + [sc.recall], t.precs + [sc.prec], t.accs + [sc.tagAccuracy], t.skipped, t.analyzed + 1)
  }

  /** The loops' behaviour from outcome `i` on with tally `t`; `skipStop` says
      whether the skip-count test (Spanish) is present. As in the source, that
      test runs only after a sentence was scored, before the sample-size test. */
  function Evaluate<S>(outcomes: seq<Option<Scores<S>>>, t: Tally<S>, i: nat, skipStop: bool): (r: Run<S>)
    requires i <= |outcomes|
    ensures i <= r.attempted <= |outcomes|
    ensures r.reason == Exhausted ==> r.attempted == |outcomes|
    ensures r.reason != Exhausted ==> i < r.attempted
    decreases |outcomes| - i
  {
    if i == |outcomes| then Run(t, i, Exhausted)
    else match outcomes[i]
      case None => Evaluate(outcomes, t.(skipped := t.skipped + 1), i + 1, skipStop)
      case Some(sc) =>
        var t' := Record(t, sc);
        if skipStop && t'.skipped == SkipLimit then Run(t', i + 1, SkipLimitReached)
        else if t'.analyzed == SampleSize then Run(t', i + 1, SampleFull)
        else Evaluate(outcomes, t', i + 1, skipStop)
  }

  /** The scores among the outcomes, in order. */
  function Successes<S>(outcomes: seq<Option<Scores<S>>>): (ss: seq<Scores<S>>)
    ensures |ss| <= |outcomes|
  {
    if outcomes == [] then []
    else (if outcomes[0].Some? then [outcomes[0].value] else []) + Successes(outcomes[1..])
  }

  function Recalls<S>(ss: seq<Scores<S>>): (recalls: seq<S>)
  {
    seq(|ss|, k requires 0 <= k < |ss| => ss[k].recall)
  }

  function Precs<S>(ss: seq<Scores<S>>): (precs: seq<S>)
  {
    seq(|ss|, k requires 0 <= k < |ss| => ss[k].prec)
  }

  function Accs<S>(ss: seq<Scores<S>>): (accs: seq<S>)
  {
    seq(|ss|, k requires 0 <= k < |ss| => ss[k].tagAccuracy)
  }

  /** The English loop. */
  method EvaluateEnglish<S>(outcomes: seq<Option<Scores<S>>>)
      returns (recalls: seq<S>, precs: seq<S>, accs: seq<S>, skipped: nat, analyzed: nat)
    ensures Tally(recalls, precs, accs, skipped, analyzed) == Evaluate(outcomes, NoScores(), 0, false).tally
  {
    recalls, precs, accs := [], [], [];
    skipped, analyzed := 0, 0;
    var i := 0;
    while i < |outcomes|
      invariant 0 <= i <= |outcomes|
      invariant Evaluate(outcomes, NoScores(), 0, false)
             == Evaluate(outcomes, Tally(recalls, precs, accs, skipped, analyzed), i, false)
    {
      var outcome := outcomes[i];
      i := i + 1;
      if outcome.None? {
        skipped := skipped + 1;
        continue;
      }
      var scores := outcome.value;
      recalls := recalls + [scores.recall];
      precs := precs + [scores.prec];
      accs := accs + [scores.tagAccuracy];
      analyzed := analyzed + 1;
      if analyzed == SampleSize {
        break;
      }
    }
  }

  /** The Spanish loop, with the skip-count test after a scored sentence. */
  method EvaluateSpanish<S>(outcomes: seq<Option<Scores<S>>>)
      returns (recalls: seq<S>, precs: seq<S>, accs: seq<S>, skipped: nat, analyzed: nat)
    ensures Tally(recalls, precs, accs, skipped, analyzed) == Evaluate(outcomes, NoScores(), 0, true).tally
  {
    recalls, precs, accs := [], [], [];
    skipped, analyzed := 0, 0;
    var i := 0;
    while i < |outcomes|
      invariant 0 <= i <= |outcomes|
      invariant Evaluate(outcomes, NoScores(), 0, true)
             == Evaluate(outcomes, Tally(recalls, precs, accs, skipped, analyzed), i, true)
    {
      var outcome := outcomes[i];
      i := i + 1;
      if outcome.None? {
        skipped := skipped + 1;
        continue;
      }
      var scores := outcome.value;
      recalls := recalls + [scores.recall];
      precs := precs + [scores.prec];
      accs := accs + [scores.tagAccuracy];
      analyzed := analyzed + 1;
      if skipped == SkipLimit {
        break;
      }
      if analyzed == SampleSize {
        break;
      }
    }
  }

  lemma SuccessesStep<S>(outcomes: seq<Option<Scores<S>>>, i: nat, j: nat)
    requires i < j <= |outcomes|
    ensures Successes(outcomes[i..j])
         == (if outcomes[i].Some? then [outcomes[i].value] else []) + Successes(outcomes[i + 1..j])
  {
  }

  ghost predicate Extends<S>(t: Tally<S>, u: Tally<S>, ss: seq<Scores<S>>)
  {
    u.recalls == t.recalls + Recalls(ss) && u.precs == t.precs + Precs(ss) && u.accs == t.accs + Accs(ss)
  }

  lemma RecordThenExtend<S>(t: Tally<S>, sc: Scores<S>, ss: seq<Scores<S>>, u: Tally<S>)
    requires Extends(Record(t, sc), u, ss)
    ensures Extends(t, u, [sc] + ss)
  {
  }

  /** Every consumed outcome is counted once, as skipped or as analyzed. */
  lemma {:induction false} EvaluateCounts<S>(outcomes: seq<Option<Scores<S>>>, t: Tally<S>, i: nat, skipStop: bool)
    requires i <= |outcomes|
    ensures var r := Evaluate(outcomes, t, i, skipStop);
      r.tally.analyzed == t.analyzed + |Successes(outcomes[i..r.attempted])|
      && r.tally.skipped + r.tally.analyzed == t.skipped + t.analyzed + (r.attempted - i)
    decreases |outcomes| - i
  {
    var r := Evaluate(outcomes, t, i, skipStop);
    if i == |outcomes| {
      assert outcomes[i..i] == [];
    } else {
      SuccessesStep(outcomes, i, r.attempted);
      match outcomes[i]
      case None =>
        EvaluateCounts(outcomes, t.(skipped := t.skipped + 1), i + 1, skipStop);
      case Some(sc) =>
        var t' := Record(t, sc);
        if (skipStop && t'.skipped == SkipLimit) || t'.analyzed == SampleSize {
          assert outcomes[i + 1..r.attempted] == [];
        } else {
          EvaluateCounts(outcomes, t', i + 1, skipStop);
        }
    }
  }

  /** The three lists gain the scores of the scored sentences, in order. */
  lemma {:induction false} EvaluateRecords<S>(outcomes: seq<Option<Scores<S>>>, t: Tally<S>, i: nat, skipStop: bool)
    requires i <= |outcomes|
    ensures var r := Evaluate(outcomes, t, i, skipStop);
      Extends(t, r.tally, Successes(outcomes[i..r.attempted]))
    decreases |outcomes| - i, 1
  {
    if i == |outcomes| {
      assert outcomes[i..i] == [];
    } else if outcomes[i].None? {
      RecordsAfterFailure(outcomes, t, i, skipStop);
    } else {
      RecordsAfterScore(outcomes, t, i, skipStop);
    }
  }

  lemma RecordsAfterFailure<S>(outcomes: seq<Option<Scores<S>>>, t: Tally<S>, i: nat, skipStop: bool)
    requires i < |outcomes| && outcomes[i].None?
    ensures var r := Evaluate(outcomes, t, i, skipStop);
      Extends(t, r.tally, Successes(outcomes[i..r.attempted]))
    decreases |outcomes| - i, 0
  {
    var r := Evaluate(outcomes, t, i, skipStop);
    assert r == Evaluate(outcomes, t.(skipped := t.skipped + 1), i + 1, skipStop);
    EvaluateRecords(outcomes, t.(skipped := t.skipped + 1), i + 1, skipStop);
    SuccessesStep(outcomes, i, r.attempted);
  }

  lemma RecordsAfterScore<S>(outcomes: seq<Option<Scores<S>>>, t: Tally<S>, i: nat, skipStop: bool)
    requires i < |outcomes| && outcomes[i].Some?
    ensures var r := Evaluate(outcomes, t, i, skipStop);
      Extends(t, r.tally, Successes(outcomes[i..r.attempted]))
    decreases |outcomes| - i, 0
  {
    var r := Evaluate(outcomes, t, i, skipStop);
    var sc := outcomes[i].value;
    var t' := Record(t, sc);
    SuccessesStep(outcomes, i, r.attempted);
    var rest := Successes(outcomes[i + 1..r.attempted]);
    if (skipStop && t'.skipped == SkipLimit) || t'.analyzed == SampleSize {
      assert r == Run(t', i + 1, if skipStop && t'.skipped == SkipLimit then SkipLimitReached else SampleFull);
      assert outcomes[i + 1..r.attempted] == [];
      RecordThenExtend(t, sc, [], r.tally);
    } else {
      assert r == Evaluate(outcomes, t', i + 1, skipStop);
      EvaluateRecords(outcomes, t', i + 1, skipStop);
      RecordThenExtend(t, sc, rest, r.tally);
    }
  }

  /** Why a loop stops: the outcomes ran out before the sample was full, the
      100th sentence was scored, or (Spanish only) the skip count was exactly
      1000 right after a scored sentence. */
  lemma {:induction false} EvaluateStops<S>(outcomes: seq<Option<Scores<S>>>, t: Tally<S>, i: nat, skipStop: bool)
    requires i <= |outcomes|
    requires t.analyzed < SampleSize
    ensures var r := Evaluate(outcomes, t, i, skipStop);
      r.tally.analyzed <= SampleSize
      && (r.reason == Exhausted ==> r.attempted == |outcomes| && r.tally.analyzed < SampleSize)
      && (r.reason == SampleFull ==> r.tally.analyzed == SampleSize && outcomes[r.attempted - 1].Some?)
      && (r.reason == SkipLimitReached ==>
            skipStop && r.tally.skipped == SkipLimit && i < r.attempted && outcomes[r.attempted - 1].Some?)
    decreases |outcomes| - i
  {
    if i < |outcomes| {
      match outcomes[i]
      case None =>
        EvaluateStops(outcomes, t.(skipped := t.skipped + 1), i + 1, skipStop);
      case Some(sc) =>
        var t' := Record(t, sc);
        if !(skipStop && t'.skipped == SkipLimit) && t'.analyzed != SampleSize {
          EvaluateStops(outcomes, t', i + 1, skipStop);
        }
    }
  }

  /** What `EvaluateEnglish` and `EvaluateSpanish` return, in the source's terms:
      three lists of equal length holding the scores of the first scored
      sentences in order, at most 100 of them. */
  lemma FromStart<S>(outcomes: seq<Option<Scores<S>>>, skipStop: bool)
    ensures var r := Evaluate(outcomes, NoScores(), 0, skipStop);
      var ss := Successes(outcomes[..r.attempted]);
      r.attempted <= |outcomes|
      && |r.tally.recalls| == |r.tally.precs| == |r.tally.accs| == r.tally.analyzed == |ss| <= SampleSize
      && r.tally.skipped + r.tally.analyzed == r.attempted
      && r.tally.recalls == Recalls(ss) && r.tally.precs == Precs(ss) && r.tally.accs == Accs(ss)
      && (r.tally.analyzed < SampleSize && r.reason != SkipLimitReached ==> r.attempted == |outcomes|)
      && (!skipStop ==> r.reason != SkipLimitReached)
  {
    EvaluateCounts(outcomes, NoScores(), 0, skipStop);
    EvaluateRecords(outcomes, NoScores(), 0, skipStop);
    EvaluateStops(outcomes, NoScores(), 0, skipStop);
    assert outcomes[0..Evaluate(outcomes, NoScores(), 0, skipStop).attempted]
        == outcomes[..Evaluate(outcomes, NoScores(), 0, skipStop).attempted];
  }

  // ---------------------------------------------------------------------
  // The skip-count test can be stepped over

  /** A run of failed scorings only adds to the skip count. */
  lemma {:induction false} FailuresOnlySkip<S>(outcomes: seq<Option<Scores<S>>>, t: Tally<S>, i: nat, j: nat, skipStop: bool)
    requires i <= j <= |outcomes|
    requires forall k :: i <= k < j ==> outcomes[k].None?
    ensures Evaluate(outcomes, t, i, skipStop) == Evaluate(outcomes, t.(skipped := t.skipped + (j - i)), j, skipStop)
    decreases j - i
  {
    if i < j {
      FailuresOnlySkip(outcomes, t.(skipped := t.skipped + 1), i + 1, j, skipStop);
    }
  }

  /** Once the skip count is past 1000 the skip-count stop can no longer fire. */
  lemma {:induction false} PastLimitNeverStops<S>(outcomes: seq<Option<Scores<S>>>, t: Tally<S>, i: nat)
    requires i <= |outcomes|
    requires t.skipped > SkipLimit
    ensures Evaluate(outcomes, t, i, true).reason != SkipLimitReached
    ensures Evaluate(outcomes, t, i, true).tally.skipped > SkipLimit
    decreases |outcomes| - i
  {
    if i < |outcomes| {
      match outcomes[i]
      case None =>
        PastLimitNeverStops(outcomes, t.(skipped := t.skipped + 1), i + 1);
      case Some(sc) =>
        var t' := Record(t, sc);
        if t'.analyzed != SampleSize {
          PastLimitNeverStops(outcomes, t', i + 1);
        }
    }
  }

  /** The Spanish loop as written: when the first 1001 sentences all fail to
      score, the skip-count stop never fires and more than 1000 sentences are
      skipped. */
  lemma SkipLimitMissed<S>(outcomes: seq<Option<Scores<S>>>)
    requires |outcomes| > SkipLimit
    requires forall k :: 0 <= k <= SkipLimit ==> outcomes[k].None?
    ensures Evaluate(outcomes, NoScores(), 0, true).reason != SkipLimitReached
    ensures Evaluate(outcomes, NoScores(), 0, true).tally.skipped > SkipLimit
  {
    FailuresOnlySkip(outcomes, NoScores(), 0, SkipLimit + 1, true);
    PastLimitNeverStops(outcomes, NoScores<S>().(skipped := SkipLimit + 1), SkipLimit + 1);
  }

  /** The evidently intended loop: the skip count is tested right after it is
      increased, so the loop stops at the 1000th skipped sentence. */
  function EvaluateCorrected<S>(outcomes: seq<Option<Scores<S>>>, t: Tally<S>, i: nat, skipStop: bool): (r: Run<S>)
    requires i <= |outcomes|
    ensures i <= r.attempted <= |outcomes|
    ensures r.reason == Exhausted ==> r.attempted == |outcomes|
    ensures r.reason != Exhausted ==> i < r.attempted
    decreases |outcomes| - i
  {
    if i == |outcomes| then Run(t, i, Exhausted)
    else match outcomes[i]
      case None =>
        var t' := t.(skipped := t.skipped + 1);
        if skipStop && t'.skipped == SkipLimit then Run(t', i + 1, SkipLimitReached)
        else EvaluateCorrected(outcomes, t', i + 1, skipStop)
      case Some(sc) =>
        var t' := Record(t, sc);
        if t'.analyzed == SampleSize then Run(t', i + 1, SampleFull)
        else EvaluateCorrected(outcomes, t', i + 1, skipStop)
  }

  /** In the corrected loop the skip count never exceeds 1000, and the loop
      stops on the skip limit exactly when the count reaches 1000, at the
      failed sentence that made it so. */
  lemma {:induction false} CorrectedBoundsSkips<S>(outcomes: seq<Option<Scores<S>>>, t: Tally<S>, i: nat)
    requires i <= |outcomes|
    requires t.skipped < SkipLimit && t.analyzed < SampleSize
    ensures var r := EvaluateCorrected(outcomes, t, i, true);
      r.tally.skipped <= SkipLimit
      && (r.reason == SkipLimitReached <==> r.tally.skipped == SkipLimit)
      && (r.reason == SkipLimitReached ==> i < r.attempted && outcomes[r.attempted - 1].None?)
    decreases |outcomes| - i
  {
    if i < |outcomes| {
      match outcomes[i]
      case None =>
        if t.skipped + 1 != SkipLimit {
          CorrectedBoundsSkips(outcomes, t.(skipped := t.skipped + 1), i + 1);
        }
      case Some(sc) =>
        var t' := Record(t, sc);
        if t'.analyzed != SampleSize {
          CorrectedBoundsSkips(outcomes, t', i + 1);
        }
    }
  }

  /** Where the skip count never reaches 1000 the two loops agree. */
  lemma {:induction false} CorrectedAgreesBelowLimit<S>(outcomes: seq<Option<Scores<S>>>, t: Tally<S>, i: nat)
    requires i <= |outcomes|
    requires t.skipped + (|outcomes| - i) < SkipLimit
    ensures EvaluateCorrected(outcomes, t, i, true) == Evaluate(outcomes, t, i, true)
    decreases |outcomes| - i
  {
    if i < |outcomes| {
      match outcomes[i]
      case None =>
        CorrectedAgreesBelowLimit(outcomes, t.(skipped := t.skipped + 1), i + 1);
      case Some(sc) =>
        CorrectedAgreesBelowLimit(outcomes, Record(t, sc), i + 1);
    }
  }
}

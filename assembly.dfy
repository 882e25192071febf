/** The last stages of `main` in scripts/analyze_trainer_feedback.py: the
    case-study angle, the `results` loop over the top two trainers, and the
    whole pipeline from loaded rows to results. */
module Assembly {
  import opened Wrappers
  import opened Records
  import opened Sorting
  import opened Cohorts
  import opened Quotes

  // ---------------------------------------------------------------- case-study angle

  /** The four case-study buckets, from the largest improvement down. */
  datatype Angle = ExceptionalGrowth | StrongImprovement | SteadyUpward | ConsistentlyHigh

  /** The sentence each bucket stands for. */
  function AngleText(a: Angle): string {
    match a
    case ExceptionalGrowth => "Demonstrated exceptional growth in participant satisfaction scores"
    case StrongImprovement => "Showed strong improvement in training effectiveness and learner engagement"
    case SteadyUpward => "Steady upward trajectory in teaching quality and participant feedback"
    case ConsistentlyHigh => "Maintained consistently high training standards with positive learner outcomes"
  }

  /** The `if`/`elif` chain on `improvement`: each bucket covers exactly its
      interval, so exactly one applies. */
  function CaseStudyAngle(improvement: real): (a: Angle)
    ensures a == ExceptionalGrowth <==> improvement > 1.0
    ensures a == StrongImprovement <==> 0.5 < improvement <= 1.0
    ensures a == SteadyUpward <==> 0.0 < improvement <= 0.5
    ensures a == ConsistentlyHigh <==> improvement <= 0.0
  {
    if improvement > 1.0 then ExceptionalGrowth
    else if improvement > 0.5 then StrongImprovement
    else if improvement > 0.0 then SteadyUpward
    else ConsistentlyHigh
  }

  /** How strong a bucket is: 3 for the top bucket down to 0. */
  function Strength(a: Angle): nat {
    match a
    case ExceptionalGrowth => 3
    case StrongImprovement => 2
    case SteadyUpward => 1
    case ConsistentlyHigh => 0
  }

  /** A larger improvement never gets a weaker bucket. */
  lemma AngleMonotone(x: real, y: real)
    requires x <= y
    ensures Strength(CaseStudyAngle(x)) <= Strength(CaseStudyAngle(y))
  {
  }

  // ---------------------------------------------------------------- results

  /** One entry of `results` (scores kept exact; rounding is presentation). */
  datatype TrainerResult = TrainerResult(
    rank: nat,
    trainerName: string,
    nResponses: nat,
    improvement: real,
    meanEarly: real,
    meanLate: real,
    quotes: seq<Quote>,
    caseStudyAngle: Angle)

  /** The result built for the trainer ranked `rank`. */
  function ResultFor(rank: nat, stat: TrainerStat, textCols: seq<string>, frameCols: set<string>): TrainerResult {
    TrainerResult(rank, stat.trainer, stat.nResponses, stat.improvement, stat.meanEarly, stat.meanLate,
      SelectQuotes(Extracted(stat.cohort, textCols, frameCols)),
      CaseStudyAngle(stat.improvement))
  }

  /** The results for the ranked trainers `top`, in order. */
  function ResultsOf(top: seq<TrainerStat>, textCols: seq<string>, frameCols: set<string>): (results: seq<TrainerResult>)
    ensures |results| == |top|
    ensures forall i :: 0 <= i < |top| ==>
      && results[i].rank == i + 1 && results[i].trainerName == top[i].trainer
      && results[i].nResponses == top[i].nResponses && results[i].improvement == top[i].improvement
      && results[i].meanEarly == top[i].meanEarly && results[i].meanLate == top[i].meanLate
  {
    seq(|top|, i requires 0 <= i < |top| => ResultFor(i + 1, top[i], textCols, frameCols))
  }

  lemma ResultOfIndex(top: seq<TrainerStat>, textCols: seq<string>, frameCols: set<string>, i: nat)
    requires i < |top|
    ensures ResultsOf(top, textCols, frameCols)[i] == ResultFor(i + 1, top[i], textCols, frameCols)
  {
  }

  lemma ResultsOfStep(top: seq<TrainerStat>, textCols: seq<string>, frameCols: set<string>, idx: nat)
    requires idx < |top|
    ensures ResultsOf(top[..idx + 1], textCols, frameCols) ==
      ResultsOf(top[..idx], textCols, frameCols) + [ResultFor(idx + 1, top[idx], textCols, frameCols)]
  {
  }

  /** The `for idx, trainer_data in enumerate(top_2, 1)` loop: result `i` has rank
      `i + 1`, the trainer's figures, the two longest quotes of the trainer's own
      rows and the angle of its improvement. */
  method BuildResults(top: seq<TrainerStat>, textCols: seq<string>, frameCols: set<string>)
    returns (results: seq<TrainerResult>)
    ensures results == ResultsOf(top, textCols, frameCols)
  {
    results := [];
    for idx := 0 to |top|
      invariant results == ResultsOf(top[..idx], textCols, frameCols)
    {
      var trainerData := top[idx];
      var allQuotes := ExtractPositiveQuotes(trainerData.cohort, textCols, frameCols);
      var selectedQuotes := SelectQuotes(allQuotes);
      var caseStudy := CaseStudyAngle(trainerData.improvement);
      ResultsOfStep(top, textCols, frameCols, idx);
      results := results + [TrainerResult(idx + 1, trainerData.trainer, trainerData.nResponses,
        trainerData.improvement, trainerData.meanEarly, trainerData.meanLate, selectedQuotes, caseStudy)];
    }
    assert top[..|top|] == top;
  }

  // ---------------------------------------------------------------- the whole pipeline

  /** The rows `main` groups: ids assigned, scores cleaned, rows without a
      trainer or a date dropped. */
  function ValidRows(raws: seq<RawRow>): seq<Row> {
    Survivors(Normalize(raws))
  }

  /** What `main` computes from the loaded rows, as a specification. */
  function Results(raws: seq<RawRow>, textCols: seq<string>, frameCols: set<string>): (results: seq<TrainerResult>)
    ensures |results| <= TopCount
    ensures forall i :: 0 <= i < |results| ==> results[i].rank == i + 1
  {
    ResultsOf(TopTrainers(TrainerStats(ValidRows(raws))), textCols, frameCols)
  }

  /** `main` from the loaded rows to `results`. */
  method Analyze(raws: seq<RawRow>, textCols: seq<string>, frameCols: set<string>)
    returns (results: seq<TrainerResult>)
    ensures results == Results(raws, textCols, frameCols)
  {
    var rows := Normalize(raws);
    var valid := Survivors(rows);
    var trainerStats := CollectTrainerStats(valid);
    trainerStats := Ranking(trainerStats);
    var top2 := Take(trainerStats, TopCount);
    results := BuildResults(top2, textCols, frameCols);
  }

  /** At most two results, ranked 1, 2, ordered by non-increasing improvement,
      and as many as there are qualifying trainers up to two. */
  lemma ResultsRanked(stats: seq<TrainerStat>, textCols: seq<string>, frameCols: set<string>)
    ensures var results := ResultsOf(TopTrainers(stats), textCols, frameCols);
      && |results| == (if |stats| < TopCount then |stats| else TopCount)
      && (forall i :: 0 <= i < |results| ==> results[i].rank == i + 1)
      && (forall i, j :: 0 <= i < j < |results| ==> results[i].improvement >= results[j].improvement)
  {
    var top := TopTrainers(stats);
    var results := ResultsOf(top, textCols, frameCols);
    forall i, j | 0 <= i < j < |results| ensures results[i].improvement >= results[j].improvement {
      assert results[i].improvement == top[i].improvement && results[j].improvement == top[j].improvement;
      assert top[i] == Ranking(stats)[i] && top[j] == Ranking(stats)[j];
    }
  }

  /** A kept trainer is one of `stats`, and no trainer left out improved more. */
  lemma TopTrainerKept(stats: seq<TrainerStat>, i: nat)
    requires i < |TopTrainers(stats)|
    ensures TopTrainers(stats)[i] in stats
    ensures forall s :: s in multiset(stats) - multiset(TopTrainers(stats)) ==>
      s.improvement <= TopTrainers(stats)[i].improvement
  {
    var top := TopTrainers(stats);
    assert top[i] in multiset(Ranking(stats));
    forall s | s in multiset(stats) - multiset(top) ensures s.improvement <= top[i].improvement {
      TopTrainersAreBest(stats, i, s);
    }
  }

  /** Every result names a trainer that qualifies (at least three valid rows and
      a defined composite in both halves), with that trainer's statistics, and no
      trainer left out improved more than one that was kept. */
  lemma ResultsQualify(rows: seq<Row>, textCols: seq<string>, frameCols: set<string>, i: nat)
    requires i < |TopTrainers(TrainerStats(rows))|
    ensures var r := ResultsOf(TopTrainers(TrainerStats(rows)), textCols, frameCols)[i];
      var stat := TrainerStatOf(r.trainerName, GroupOf(rows, r.trainerName));
      && stat.Some?
      && r.nResponses == stat.value.nResponses >= MinResponses
      && r.improvement == stat.value.improvement
      && r.meanEarly == stat.value.meanEarly && r.meanLate == stat.value.meanLate
    ensures forall s :: s in multiset(TrainerStats(rows)) - multiset(TopTrainers(TrainerStats(rows))) ==>
      s.improvement <= ResultsOf(TopTrainers(TrainerStats(rows)), textCols, frameCols)[i].improvement
  {
    var stats := TrainerStats(rows);
    var top := TopTrainers(stats);
    TopTrainerKept(stats, i);
    TrainerStatsCharacterised(rows, top[i].trainer);
    assert TrainerStatOf(top[i].trainer, GroupOf(rows, top[i].trainer)) == Some(top[i]);
  }

  /** A row of a trainer's cohort is one of that trainer's valid rows. */
  lemma CohortRowsOfTrainer(rows: seq<Row>, t: string, r: Row)
    requires TrainerStatOf(t, GroupOf(rows, t)).Some?
    requires r in TrainerStatOf(t, GroupOf(rows, t)).value.cohort
    ensures r in rows && r.trainer == Some(t)
  {
    TrainerStatOfIff(t, GroupOf(rows, t));
    assert r in multiset(ByDate(GroupOf(rows, t)));
  }

  /** A quote of a trainer's result was read, in one of the text columns, from a
      row of that trainer's cohort, and carries that row's id. */
  lemma QuoteFromCohort(rank: nat, stat: TrainerStat, textCols: seq<string>, frameCols: set<string>, q: Quote)
    requires q in ResultFor(rank, stat, textCols, frameCols).quotes
    ensures q.source in textCols && q.source in frameCols
    ensures exists r :: (r in stat.cohort && r.rowId == q.rowId
      && QuoteOf(TextCell(r, q.source), r.rowId, q.source) == Some(q))
  {
    var all := Extracted(stat.cohort, textCols, frameCols);
    assert q in multiset(SelectQuotes(all));
    ExtractedSound(stat.cohort, textCols, frameCols, q);
    var r :| r in stat.cohort && QuoteOf(TextCell(r, q.source), r.rowId, q.source) == Some(q);
    QuoteOfSpec(TextCell(r, q.source), r.rowId, q.source);
  }

  /** Some row of `cohort` holds, in a text column the frame has, a cell that
      qualifies as a quote. */
  predicate HasPraise(cohort: seq<Row>, textCols: seq<string>, frameCols: set<string>) {
    exists r, c :: r in cohort && 0 <= c < |textCols| && textCols[c] in frameCols
      && QuoteOf(TextCell(r, textCols[c]), r.rowId, textCols[c]).Some?
  }

  /** A trainer's result has quotes if and only if some row of its cohort holds
      qualifying text in a text column: no qualifying text is ever lost. */
  lemma QuotesPresentIffPraise(rank: nat, stat: TrainerStat, textCols: seq<string>, frameCols: set<string>)
    ensures |ResultFor(rank, stat, textCols, frameCols).quotes| > 0 <==> HasPraise(stat.cohort, textCols, frameCols)
  {
    var all := Extracted(stat.cohort, textCols, frameCols);
    if |all| > 0 {
      var q := all[0];
      ExtractedSound(stat.cohort, textCols, frameCols, q);
      var c :| 0 <= c < |textCols| && textCols[c] == q.source;
      var r :| r in stat.cohort && QuoteOf(TextCell(r, q.source), r.rowId, q.source) == Some(q);
      assert QuoteOf(TextCell(r, textCols[c]), r.rowId, textCols[c]).Some?;
    }
    if HasPraise(stat.cohort, textCols, frameCols) {
      var r, c :| r in stat.cohort && 0 <= c < |textCols| && textCols[c] in frameCols
        && QuoteOf(TextCell(r, textCols[c]), r.rowId, textCols[c]).Some?;
      var k :| 0 <= k < |stat.cohort| && stat.cohort[k] == r;
      ExtractedComplete(stat.cohort, textCols, frameCols, k, c);
    }
  }

  /** Whether qualifying text exists does not depend on the order of the rows. */
  lemma PraiseOfPermutation(a: seq<Row>, b: seq<Row>, textCols: seq<string>, frameCols: set<string>)
    requires multiset(a) == multiset(b)
    ensures HasPraise(a, textCols, frameCols) <==> HasPraise(b, textCols, frameCols)
  {
    if HasPraise(a, textCols, frameCols) {
      var r, c :| r in a && 0 <= c < |textCols| && textCols[c] in frameCols
        && QuoteOf(TextCell(r, textCols[c]), r.rowId, textCols[c]).Some?;
      assert r in multiset(b);
    }
    if HasPraise(b, textCols, frameCols) {
      var r, c :| r in b && 0 <= c < |textCols| && textCols[c] in frameCols
        && QuoteOf(TextCell(r, textCols[c]), r.rowId, textCols[c]).Some?;
      assert r in multiset(a);
    }
  }

  /** A quote of the result for a trainer whose statistics come from `rows` was
      read from a valid row of that trainer. */
  lemma QuoteOfQualified(rows: seq<Row>, top: seq<TrainerStat>, textCols: seq<string>, frameCols: set<string>,
                         i: nat, q: Quote)
    requires i < |top| && TrainerStatOf(top[i].trainer, GroupOf(rows, top[i].trainer)) == Some(top[i])
    requires q in ResultsOf(top, textCols, frameCols)[i].quotes
    ensures q.source in textCols && q.source in frameCols
    ensures exists r :: (r in rows && r.rowId == q.rowId && r.trainer == Some(top[i].trainer)
      && QuoteOf(TextCell(r, q.source), r.rowId, q.source) == Some(q))
  {
    ResultOfIndex(top, textCols, frameCols, i);
    QuoteFromCohort(i + 1, top[i], textCols, frameCols, q);
    var r :| r in top[i].cohort && r.rowId == q.rowId
      && QuoteOf(TextCell(r, q.source), r.rowId, q.source) == Some(q);
    CohortRowsOfTrainer(rows, top[i].trainer, r);
  }

  /** The evidence is the trainer's own: every quote of a result was read, in
      one of the text columns, from a valid row of that trainer, and carries that
      row's id. */
  lemma QuotesFromOwnRows(rows: seq<Row>, textCols: seq<string>, frameCols: set<string>, i: nat, q: Quote)
    requires i < |TopTrainers(TrainerStats(rows))|
    requires q in ResultsOf(TopTrainers(TrainerStats(rows)), textCols, frameCols)[i].quotes
    ensures q.source in textCols && q.source in frameCols
    ensures exists r :: (r in rows && r.rowId == q.rowId
      && r.trainer == Some(ResultsOf(TopTrainers(TrainerStats(rows)), textCols, frameCols)[i].trainerName)
      && QuoteOf(TextCell(r, q.source), r.rowId, q.source) == Some(q))
  {
    var stats := TrainerStats(rows);
    var top := TopTrainers(stats);
    assert TrainerStatOf(top[i].trainer, GroupOf(rows, top[i].trainer)) == Some(top[i]) by {
      TopTrainerKept(stats, i);
      TrainerStatsCharacterised(rows, top[i].trainer);
    }
    QuoteOfQualified(rows, top, textCols, frameCols, i, q);
  }

  /** Through the whole pipeline, a quote's row id is `R` and the 1-based input
      position of a row of the same trainer that has a date. */
  lemma EvidenceTracesToInput(raws: seq<RawRow>, textCols: seq<string>, frameCols: set<string>, i: nat, q: Quote)
    requires i < |Results(raws, textCols, frameCols)|
    requires q in Results(raws, textCols, frameCols)[i].quotes
    ensures exists k :: (0 <= k < |raws| && q.rowId == RowId(k + 1)
      && raws[k].trainer == Some(Results(raws, textCols, frameCols)[i].trainerName)
      && raws[k].created.Some?)
  {
    var rows := ValidRows(raws);
    QuotesFromOwnRows(rows, textCols, frameCols, i, q);
    var r :| r in rows && r.rowId == q.rowId
      && r.trainer == Some(Results(raws, textCols, frameCols)[i].trainerName)
      && QuoteOf(TextCell(r, q.source), r.rowId, q.source) == Some(q);
    SurvivorsKeepIds(raws, r);
  }

  /** Through the whole pipeline, a kept trainer's result has quotes if and only
      if one of that trainer's valid rows holds qualifying text. */
  lemma ResultQuotesPresentIffPraise(raws: seq<RawRow>, textCols: seq<string>, frameCols: set<string>, i: nat)
    requires i < |Results(raws, textCols, frameCols)|
    ensures var res := Results(raws, textCols, frameCols)[i];
      |res.quotes| > 0 <==> HasPraise(GroupOf(ValidRows(raws), res.trainerName), textCols, frameCols)
  {
    var rows := ValidRows(raws);
    var stats := TrainerStats(rows);
    var top := TopTrainers(stats);
    var t := top[i].trainer;
    ResultOfIndex(top, textCols, frameCols, i);
    QuotesPresentIffPraise(i + 1, top[i], textCols, frameCols);
    TopTrainerKept(stats, i);
    TrainerStatsCharacterised(rows, t);
    assert TrainerStatOf(t, GroupOf(rows, t)) == Some(top[i]);
    TrainerStatOfIff(t, GroupOf(rows, t));
    PraiseOfPermutation(top[i].cohort, GroupOf(rows, t), textCols, frameCols);
  }
}

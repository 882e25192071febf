/** Per-trainer cohorts and the improvement ranking: the `groupby('Trainer')`
    loop of `main` in scripts/analyze_trainer_feedback.py, the sort of
    `trainer_stats` by improvement and the selection of the top two. */
module Cohorts {
  import opened Wrappers
  import opened Text
  import opened Records
  import opened Sorting

  /** Trainers with fewer valid rows than this produce no result. */
  const MinResponses: nat := 3
  /** How many ranked trainers are kept (`trainer_stats[:2]`). */
  const TopCount: nat := 2

  /** One entry of `trainer_stats`; `cohort` is the trainer's date-sorted group (`group_df`). */
  datatype TrainerStat = TrainerStat(
    trainer: string,
    nResponses: nat,
    meanEarly: real,
    meanLate: real,
    improvement: real,
    cohort: seq<Row>)

  // ---------------------------------------------------------------- groupby keys

  predicate StrictlyAscending(names: seq<string>) {
    forall i, j :: 0 <= i < j < |names| ==> StrLt(names[i], names[j])
  }

  lemma PrependAscending(x: string, t: seq<string>)
    requires StrictlyAscending(t)
    requires forall y :: y in t ==> StrLt(x, y)
    ensures StrictlyAscending([x] + t)
  {
    var r := [x] + t;
    forall i, j | 0 <= i < j < |r| ensures StrLt(r[i], r[j]) {
      assert r[j] == t[j - 1] && r[j] in t;
      if i > 0 { assert r[i] == t[i - 1]; }
    }
  }

  lemma BelowHead(x: string, t: seq<string>)
    requires StrictlyAscending(t) && t != [] && StrLt(x, t[0])
    ensures forall y :: y in t ==> StrLt(x, y)
  {
    forall y | y in t ensures StrLt(x, y) {
      var m :| 0 <= m < |t| && t[m] == y;
      if m > 0 { StrLtTransitive(x, t[0], y); }
    }
  }

  lemma AboveTail(t: seq<string>)
    requires StrictlyAscending(t) && t != []
    ensures StrictlyAscending(t[1..])
    ensures forall y :: y in t[1..] ==> StrLt(t[0], y)
  {
    forall y | y in t[1..] ensures StrLt(t[0], y) {
      var m :| 0 <= m < |t[1..]| && t[1..][m] == y;
      assert t[m + 1] == y;
    }
  }

  /** Adds `x` to an ascending list of distinct names, unless it is there already. */
  function InsertName(x: string, t: seq<string>): (r: seq<string>)
    requires StrictlyAscending(t)
    ensures StrictlyAscending(r)
    ensures forall y :: y in r <==> y == x || y in t
  {
    if t == [] then [x]
    else if x == t[0] then t
    else if StrLt(x, t[0]) then
      BelowHead(x, t);
      PrependAscending(x, t);
      [x] + t
    else
      StrLtTotal(x, t[0]);
      assert t == [t[0]] + t[1..];
      var rest := InsertName(x, t[1..]);
      AboveTail(t);
      PrependAscending(t[0], rest);
      [t[0]] + rest
  }

  /** The distinct trainers of `rows`, in ascending order: the order in which
      `groupby` (which sorts its keys) visits the groups. */
  function GroupKeys(rows: seq<Row>): (keys: seq<string>)
    ensures StrictlyAscending(keys)
    ensures forall t :: t in keys <==> exists k :: 0 <= k < |rows| && rows[k].trainer == Some(t)
  {
    if rows == [] then []
    else
      var init := rows[..|rows| - 1];
      var keys := GroupKeys(init);
      var last := rows[|rows| - 1];
      assert forall k :: 0 <= k < |init| ==> init[k] == rows[k];
      if last.trainer.Some? then InsertName(last.trainer.value, keys) else keys
  }

  /** The rows of trainer `t`, in their order in `rows`. */
  function GroupOf(rows: seq<Row>, t: string): (g: seq<Row>)
    ensures |g| <= |rows|
    ensures forall r :: r in g <==> r in rows && r.trainer == Some(t)
  {
    if rows == [] then []
    else
      var last := rows[|rows| - 1];
      GroupOf(rows[..|rows| - 1], t) + (if last.trainer == Some(t) then [last] else [])
  }

  /** Grouping works row by row: the group of a concatenation is the group of
      each part, in order. */
  lemma {:induction false} GroupOfConcat(a: seq<Row>, b: seq<Row>, t: string)
    ensures GroupOf(a + b, t) == GroupOf(a, t) + GroupOf(b, t)
    decreases |b|
  {
    if b == [] {
      assert a + b == a;
    } else {
      assert (a + b)[..|a + b| - 1] == a + b[..|b| - 1];
      GroupOfConcat(a, b[..|b| - 1], t);
    }
  }

  /** A single row forms a group of its own trainer and of no other. */
  lemma GroupOfOne(r: Row, t: string)
    ensures GroupOf([r], t) == if r.trainer == Some(t) then [r] else []
  {
    assert [r][..0] == [];
  }

  /** A row of trainer `t` occurs in its group exactly as often as in the rows,
      and a row of another trainer not at all. */
  lemma {:induction false} GroupOfCount(rows: seq<Row>, t: string, r: Row)
    ensures multiset(GroupOf(rows, t))[r] == if r.trainer == Some(t) then multiset(rows)[r] else 0
    decreases |rows|
  {
    if rows != [] {
      assert rows == rows[..|rows| - 1] + [rows[|rows| - 1]];
      GroupOfCount(rows[..|rows| - 1], t, r);
    }
  }

  // ---------------------------------------------------------------- cohort statistics

  /** Sort key of `sort_values('creation_datetime')`; grouped rows always have a date. */
  function CreatedKey(r: Row): int {
    r.created.GetOr(0)
  }

  /** `group.sort_values('creation_datetime')`: the group in ascending date order. */
  function ByDate(group: seq<Row>): (cohort: seq<Row>)
    ensures multiset(cohort) == multiset(group) && |cohort| == |group|
    ensures NonDecreasing(cohort, CreatedKey)
  {
    SortAsc(group, CreatedKey)
  }

  /** `half['composite_score'].dropna()`: the defined composites, in order. */
  function Defined(rows: seq<Row>): (xs: seq<real>)
    ensures |xs| <= |rows|
    ensures forall x :: x in xs <==> exists r :: r in rows && Composite(r) == Some(x)
  {
    if rows == [] then []
    else
      var last := rows[|rows| - 1];
      assert forall r :: r in rows <==> r in rows[..|rows| - 1] || r == last by {
        assert rows == rows[..|rows| - 1] + [last];
      }
      Defined(rows[..|rows| - 1]) + (if Composite(last).Some? then [Composite(last).value] else [])
  }

  /** `dropna` works row by row: the defined composites of a concatenation are
      those of each part, in order. */
  lemma {:induction false} DefinedConcat(a: seq<Row>, b: seq<Row>)
    ensures Defined(a + b) == Defined(a) + Defined(b)
    decreases |b|
  {
    if b == [] {
      assert a + b == a;
    } else {
      assert (a + b)[..|a + b| - 1] == a + b[..|b| - 1];
      DefinedConcat(a, b[..|b| - 1]);
    }
  }

  /** A single row contributes its composite, or nothing when it has none. */
  lemma DefinedOfOne(r: Row)
    ensures Defined([r]) == if Composite(r).Some? then [Composite(r).value] else []
  {
    assert [r][..0] == [];
  }

  /** A row without a composite is skipped wherever it stands. */
  lemma DefinedSkipsMissing(a: seq<Row>, r: Row, b: seq<Row>)
    requires Composite(r).None?
    ensures Defined(a + [r] + b) == Defined(a + b)
  {
    DefinedConcat(a + [r], b);
    DefinedConcat(a, [r]);
    DefinedOfOne(r);
    DefinedConcat(a, b);
  }

  /** The composites of `rows` added up, a row without one adding nothing. */
  function CompositeSum(rows: seq<Row>): real {
    if rows == [] then 0.0 else Composite(rows[0]).GetOr(0.0) + CompositeSum(rows[1..])
  }

  /** How many of `rows` have a composite. */
  function DefinedCount(rows: seq<Row>): nat {
    if rows == [] then 0 else (if Composite(rows[0]).Some? then 1 else 0) + DefinedCount(rows[1..])
  }

  /** `dropna` followed by `sum` and `len` agrees with summing the composites
      row by row, counting only the rows that have one. */
  lemma {:induction false} DefinedSumAndCount(rows: seq<Row>)
    ensures Sum(Defined(rows)) == CompositeSum(rows)
    ensures |Defined(rows)| == DefinedCount(rows)
    decreases |rows|
  {
    if rows != [] {
      assert rows == [rows[0]] + rows[1..];
      DefinedConcat([rows[0]], rows[1..]);
      DefinedOfOne(rows[0]);
      DefinedSumAndCount(rows[1..]);
      SumConcat(Defined([rows[0]]), Defined(rows[1..]));
      if Composite(rows[0]).Some? {
        assert Sum([Composite(rows[0]).value]) == Composite(rows[0]).value by {
          assert [Composite(rows[0]).value][..0] == [];
        }
      }
    }
  }

  predicate HasDefined(rows: seq<Row>) {
    exists r :: r in rows && Composite(r).Some?
  }

  lemma DefinedNonEmpty(rows: seq<Row>)
    ensures |Defined(rows)| > 0 <==> HasDefined(rows)
  {
    if HasDefined(rows) {
      var r :| r in rows && Composite(r).Some?;
      assert Composite(r).value in Defined(rows);
    }
    if |Defined(rows)| > 0 {
      assert Defined(rows)[0] in Defined(rows);
    }
  }

  /** The body of the `groupby` loop for one trainer: `None` where the trainer is
      skipped, otherwise its `trainer_stats` entry. */
  function TrainerStatOf(t: string, group: seq<Row>): (r: Option<TrainerStat>)
    ensures r.Some? ==>
      && r.value.trainer == t
      && r.value.nResponses == |group|
      && r.value.improvement == r.value.meanLate - r.value.meanEarly
  {
    if |group| < MinResponses then None
    else
      var cohort := ByDate(group);
      var mid := |cohort| / 2;
      var earlyScores, lateScores := Defined(cohort[..mid]), Defined(cohort[mid..]);
      if |earlyScores| > 0 && |lateScores| > 0 then
        var meanEarly, meanLate := Mean(earlyScores), Mean(lateScores);
        Some(TrainerStat(t, |group|, meanEarly, meanLate, meanLate - meanEarly, cohort))
      else None
  }

  /** A trainer gets an entry exactly when it has at least three valid rows and
      both halves of its date-ordered cohort hold a row with a composite score;
      the entry carries that cohort. */
  lemma TrainerStatOfIff(t: string, group: seq<Row>)
    ensures TrainerStatOf(t, group).Some? <==>
      && |group| >= MinResponses
      && HasDefined(ByDate(group)[..|group| / 2])
      && HasDefined(ByDate(group)[|group| / 2..])
    ensures TrainerStatOf(t, group).Some? ==> TrainerStatOf(t, group).value.cohort == ByDate(group)
  {
    DefinedNonEmpty(ByDate(group)[..|group| / 2]);
    DefinedNonEmpty(ByDate(group)[|group| / 2..]);
  }

  /** `iloc[:mid_point]` and `iloc[mid_point:]`: the two halves split the
      date-ordered group between them, the late half taking the extra row when
      the count is odd. */
  lemma HalvesPartition(group: seq<Row>)
    ensures var cohort := ByDate(group);
      var early, late := cohort[..|cohort| / 2], cohort[|cohort| / 2..];
      && early + late == cohort
      && multiset(early) + multiset(late) == multiset(group)
      && |early| == |group| / 2
      && (|late| == |early| || |late| == |early| + 1)
  {
    var cohort := ByDate(group);
    var early, late := cohort[..|cohort| / 2], cohort[|cohort| / 2..];
    assert early + late == cohort;
  }

  /** The half means skip the rows without a composite: each is the sum of the
      composites of its half of the date-ordered group divided by the number of
      rows of that half that have one, and each half has at least one. */
  lemma HalfMeansSkipMissing(t: string, group: seq<Row>)
    requires TrainerStatOf(t, group).Some?
    ensures var s := TrainerStatOf(t, group).value;
      var cohort := ByDate(group);
      var early, late := cohort[..|group| / 2], cohort[|group| / 2..];
      && DefinedCount(early) > 0 && DefinedCount(late) > 0
      && s.meanEarly == CompositeSum(early) / DefinedCount(early) as real
      && s.meanLate == CompositeSum(late) / DefinedCount(late) as real
  {
    var cohort := ByDate(group);
    DefinedSumAndCount(cohort[..|group| / 2]);
    DefinedSumAndCount(cohort[|group| / 2..]);
  }

  /** Each half mean lies within the range of the composites of its half. */
  lemma HalfMeansInRange(t: string, group: seq<Row>, lo: real, hi: real)
    requires TrainerStatOf(t, group).Some?
    requires forall r :: r in group && Composite(r).Some? ==> lo <= Composite(r).value <= hi
    ensures lo <= TrainerStatOf(t, group).value.meanEarly <= hi
    ensures lo <= TrainerStatOf(t, group).value.meanLate <= hi
    ensures lo - hi <= TrainerStatOf(t, group).value.improvement <= hi - lo
  {
    var cohort := ByDate(group);
    var early, late := cohort[..|cohort| / 2], cohort[|cohort| / 2..];
    forall r | r in cohort ensures r in group {
      assert r in multiset(cohort);
    }
    var es, ls := Defined(early), Defined(late);
    forall k | 0 <= k < |es| ensures lo <= es[k] <= hi {
      assert es[k] in es;
      var r :| r in early && Composite(r) == Some(es[k]);
      assert r in cohort;
    }
    forall k | 0 <= k < |ls| ensures lo <= ls[k] <= hi {
      assert ls[k] in ls;
      var r :| r in late && Composite(r) == Some(ls[k]);
      assert r in cohort;
    }
    MeanBounds(es, lo, hi);
    MeanBounds(ls, lo, hi);
  }

  // ---------------------------------------------------------------- the groupby loop

  /** What the `groupby` loop appends for trainer `t`: its entry, or nothing. */
  function Entry(rows: seq<Row>, t: string): (e: seq<TrainerStat>)
    ensures |e| <= 1
    ensures forall s :: s in e <==> TrainerStatOf(t, GroupOf(rows, t)) == Some(s)
  {
    var stat := TrainerStatOf(t, GroupOf(rows, t));
    if stat.Some? then [stat.value] else []
  }

  /** The entries the `groupby` loop appends for the trainers `keys`, in that order. */
  function StatsFor(rows: seq<Row>, keys: seq<string>): (stats: seq<TrainerStat>)
    ensures |stats| <= |keys|
  {
    if keys == [] then []
    else StatsFor(rows, keys[..|keys| - 1]) + Entry(rows, keys[|keys| - 1])
  }

  lemma StatsForStep(rows: seq<Row>, keys: seq<string>, i: nat, group: seq<Row>)
    requires i < |keys| && group == GroupOf(rows, keys[i])
    ensures StatsFor(rows, keys[..i + 1]) == StatsFor(rows, keys[..i]) +
      (if TrainerStatOf(keys[i], group).Some? then [TrainerStatOf(keys[i], group).value] else [])
  {
    assert keys[..i + 1][..i] == keys[..i];
  }

  /** `trainer_stats` before sorting: no more entries than trainers. */
  function TrainerStats(rows: seq<Row>): (stats: seq<TrainerStat>)
    ensures |stats| <= |GroupKeys(rows)|
  {
    StatsFor(rows, GroupKeys(rows))
  }

  /** The body of the `groupby` loop for one trainer, step by step. */
  method SummarizeTrainer(trainer: string, group: seq<Row>) returns (stat: Option<TrainerStat>)
    ensures stat == TrainerStatOf(trainer, group)
  {
    var nResponses := |group|;
    if nResponses < MinResponses {
      return None;
    }
    var cohort := ByDate(group);
    var midPoint := |cohort| / 2;
    var earlyHalf, lateHalf := cohort[..midPoint], cohort[midPoint..];
    var earlyScores, lateScores := Defined(earlyHalf), Defined(lateHalf);
    if |earlyScores| == 0 || |lateScores| == 0 {
      return None;
    }
    var meanEarly := Mean(earlyScores);
    var meanLate := Mean(lateScores);
    var improvement := meanLate - meanEarly;
    stat := Some(TrainerStat(trainer, nResponses, meanEarly, meanLate, improvement, cohort));
  }

  /** The `groupby('Trainer')` loop of `main`, appending one entry per qualifying trainer. */
  method CollectTrainerStats(rows: seq<Row>) returns (stats: seq<TrainerStat>)
    ensures stats == TrainerStats(rows)
  {
    var keys := GroupKeys(rows);
    stats := [];
    var i := 0;
    while i < |keys|
      invariant 0 <= i <= |keys|
      invariant stats == StatsFor(rows, keys[..i])
    {
      var trainer := keys[i];
      var group := GroupOf(rows, trainer);
      StatsForStep(rows, keys, i, group);
      var stat := SummarizeTrainer(trainer, group);
      if stat.Some? {
        stats := stats + [stat.value];
      }
      i := i + 1;
    }
    assert keys[..|keys|] == keys;
  }

  lemma {:induction false} StatsForSound(rows: seq<Row>, keys: seq<string>, s: TrainerStat)
    requires s in StatsFor(rows, keys)
    ensures s.trainer in keys && TrainerStatOf(s.trainer, GroupOf(rows, s.trainer)) == Some(s)
  {
    if keys != [] {
      var init := keys[..|keys| - 1];
      if s in StatsFor(rows, init) {
        StatsForSound(rows, init, s);
        var m :| 0 <= m < |init| && init[m] == s.trainer;
        assert keys[m] == s.trainer;
      } else {
        assert s in Entry(rows, keys[|keys| - 1]);
      }
    }
  }

  lemma {:induction false} StatsForComplete(rows: seq<Row>, keys: seq<string>, t: string, s: TrainerStat)
    requires t in keys && TrainerStatOf(t, GroupOf(rows, t)) == Some(s)
    ensures s in StatsFor(rows, keys)
  {
    var init := keys[..|keys| - 1];
    if keys[|keys| - 1] == t {
      assert s in Entry(rows, t);
    } else {
      var m :| 0 <= m < |keys| && keys[m] == t;
      assert init[m] == t;
      StatsForComplete(rows, init, t, s);
    }
  }

  predicate TrainerBefore(a: TrainerStat, b: TrainerStat) {
    StrLt(a.trainer, b.trainer)
  }

  lemma EntryNamed(rows: seq<Row>, t: string, s: TrainerStat)
    requires s in Entry(rows, t)
    ensures s.trainer == t
  {
  }

  lemma {:induction false} StatsForAscending(rows: seq<Row>, keys: seq<string>)
    requires StrictlyAscending(keys)
    ensures Chain(StatsFor(rows, keys), TrainerBefore)
  {
    if keys != [] {
      var init := keys[..|keys| - 1];
      var t := keys[|keys| - 1];
      assert StrictlyAscending(init);
      StatsForAscending(rows, init);
      var prefix := StatsFor(rows, init);
      var entry := Entry(rows, t);
      var all := prefix + entry;
      forall i, j | 0 <= i < j < |all| ensures TrainerBefore(all[i], all[j]) {
        if j >= |prefix| {
          assert all[j] in entry && all[i] == prefix[i];
          EarlierKeyFirst(rows, keys, prefix[i], all[j]);
        } else {
          assert all[i] == prefix[i] && all[j] == prefix[j];
        }
      }
    }
  }

  /** An entry for an earlier key comes before the entry for the last key. */
  lemma EarlierKeyFirst(rows: seq<Row>, keys: seq<string>, s: TrainerStat, e: TrainerStat)
    requires StrictlyAscending(keys) && keys != []
    requires s in StatsFor(rows, keys[..|keys| - 1]) && e in Entry(rows, keys[|keys| - 1])
    ensures TrainerBefore(s, e)
  {
    var init := keys[..|keys| - 1];
    EntryNamed(rows, keys[|keys| - 1], e);
    StatsForNames(rows, init, s);
    var m :| 0 <= m < |init| && init[m] == s.trainer;
    assert keys[m] == s.trainer && keys[|keys| - 1] == e.trainer;
    assert StrLt(keys[m], keys[|keys| - 1]);
  }

  lemma {:induction false} StatsForNames(rows: seq<Row>, keys: seq<string>, s: TrainerStat)
    requires s in StatsFor(rows, keys)
    ensures s.trainer in keys
  {
    var init := keys[..|keys| - 1];
    if s in StatsFor(rows, init) {
      StatsForNames(rows, init, s);
      assert forall k :: k in init ==> k in keys;
    } else {
      EntryNamed(rows, keys[|keys| - 1], s);
    }
  }

  /** `trainer_stats` holds exactly the trainers with at least three valid rows and
      a defined composite in both halves, each with its own statistics, in
      ascending order of trainer name. */
  lemma TrainerStatsCharacterised(rows: seq<Row>, t: string)
    ensures (exists s :: s in TrainerStats(rows) && s.trainer == t) <==>
      TrainerStatOf(t, GroupOf(rows, t)).Some?
    ensures forall s :: s in TrainerStats(rows) ==>
      TrainerStatOf(s.trainer, GroupOf(rows, s.trainer)) == Some(s) && s.nResponses >= MinResponses
    ensures Chain(TrainerStats(rows), TrainerBefore)
  {
    var keys := GroupKeys(rows);
    forall s | s in TrainerStats(rows)
      ensures TrainerStatOf(s.trainer, GroupOf(rows, s.trainer)) == Some(s) && s.nResponses >= MinResponses
    {
      StatsForSound(rows, keys, s);
    }
    var stat := TrainerStatOf(t, GroupOf(rows, t));
    if stat.Some? {
      var g := GroupOf(rows, t);
      assert g[0] in rows;
      var k :| 0 <= k < |rows| && rows[k] == g[0];
      assert t in keys;
      StatsForComplete(rows, keys, t, stat.value);
    }
    StatsForAscending(rows, keys);
  }

  /** `trainer_stats` has at most one entry per trainer. */
  lemma TrainerStatsOnePerTrainer(rows: seq<Row>, i: nat, j: nat)
    requires i < j < |TrainerStats(rows)|
    ensures TrainerStats(rows)[i].trainer != TrainerStats(rows)[j].trainer
  {
    StatsForAscending(rows, GroupKeys(rows));
    StrLtIrreflexive(TrainerStats(rows)[i].trainer);
  }

  // ---------------------------------------------------------------- ranking

  function Improvement(s: TrainerStat): real {
    s.improvement
  }

  /** `trainer_stats.sort(key=improvement, reverse=True)`. */
  function Ranking(stats: seq<TrainerStat>): (ranked: seq<TrainerStat>)
    ensures multiset(ranked) == multiset(stats)
    ensures forall i, j :: 0 <= i < j < |ranked| ==> ranked[i].improvement >= ranked[j].improvement
  {
    SortDesc(stats, Improvement)
  }

  /** `trainer_stats[:2]` after the sort. */
  function TopTrainers(stats: seq<TrainerStat>): (top: seq<TrainerStat>)
    ensures |top| <= TopCount && |top| == if |stats| < TopCount then |stats| else TopCount
    ensures top == Ranking(stats)[..|top|]
  {
    Take(Ranking(stats), TopCount)
  }

  /** Ties in improvement are broken by ascending trainer name, because the groups
      are visited in name order and the sort is stable. */
  lemma RankingBreaksTiesByName(rows: seq<Row>)
    ensures OrderedWithTies(Ranking(TrainerStats(rows)), Improvement, TrainerBefore)
  {
    StatsForAscending(rows, GroupKeys(rows));
    SortDescTies(TrainerStats(rows), Improvement, TrainerBefore);
  }

  /** No trainer left out of the top two improved more than one that was kept. */
  lemma TopTrainersAreBest(stats: seq<TrainerStat>, i: nat, s: TrainerStat)
    requires i < |TopTrainers(stats)|
    requires s in multiset(stats) - multiset(TopTrainers(stats))
    ensures s.improvement <= TopTrainers(stats)[i].improvement
  {
    TakeSortedDominates(stats, Improvement, TopCount, i, s);
  }
}

/** Feedback rows: stable row ids, cleaned scores, the composite score and the
    trainer/date filter (the first stages of `main` in
    scripts/analyze_trainer_feedback.py). */
module Records {
  import opened Wrappers
  import opened Decimal
  import opened Numeric

  /** One CSV row as loaded: the `Trainer` cell, the parsed `Creation Date`
      (absent when missing or not in the expected format), the raw cells of the
      score columns, and the free-text cells by column name. */
  datatype RawRow = RawRow(
    trainer: Option<string>,
    created: Option<int>,
    scores: seq<Cell>,
    texts: map<string, Option<string>>)

  /** A row after `row_id` assignment and score cleaning. */
  datatype Row = Row(
    rowId: string,
    trainer: Option<string>,
    created: Option<int>,
    scores: seq<Option<real>>,
    texts: map<string, Option<string>>)

  // ---------------------------------------------------------------- row ids

  /** `f"R{i:04d}"`. */
  function RowId(i: nat): (id: string)
    ensures |id| >= 5 && id[0] == 'R' && AllDigits(id[1..])
    ensures i < 10000 ==> |id| == 5
  {
    var digits := ZeroPadded(i, 4);
    RowDigitsLength(i);
    assert ("R" + digits)[1..] == digits;
    "R" + digits
  }

  lemma RowDigitsLength(i: nat)
    ensures i < 10000 ==> |ZeroPadded(i, 4)| == 4
  {
    if i < 10000 { RenderLength(i, 4, 10000); }
  }

  /** The number a row id carries. */
  function RowNumber(id: string): nat
    requires |id| >= 1 && AllDigits(id[1..])
  {
    Value(id[1..])
  }

  /** A row id gives back the row number it was made from. */
  lemma RowNumberOfRowId(i: nat)
    ensures RowNumber(RowId(i)) == i
  {
    assert RowId(i)[1..] == ZeroPadded(i, 4);
    ValueOfZeroPadded(i, 4);
  }

  /** Distinct rows never share an id. */
  lemma RowIdInjective(i: nat, j: nat)
    requires RowId(i) == RowId(j)
    ensures i == j
  {
    RowNumberOfRowId(i);
    RowNumberOfRowId(j);
  }

  // ---------------------------------------------------------------- normalisation

  function NormalizeRow(raw: RawRow, number: nat): Row {
    Row(RowId(number), raw.trainer, raw.created,
        seq(|raw.scores|, j requires 0 <= j < |raw.scores| => CleanNumeric(raw.scores[j])),
        raw.texts)
  }

  /** `row_id` assignment (1-based, in input order, before any filtering) and
      `clean_numeric` applied to every score cell. */
  function Normalize(raws: seq<RawRow>): (rows: seq<Row>)
    ensures |rows| == |raws|
    ensures forall k :: 0 <= k < |raws| ==>
      && rows[k].rowId == RowId(k + 1)
      && rows[k].trainer == raws[k].trainer
      && rows[k].created == raws[k].created
      && rows[k].texts == raws[k].texts
      && |rows[k].scores| == |raws[k].scores|
      && (forall j :: 0 <= j < |raws[k].scores| ==> rows[k].scores[j] == CleanNumeric(raws[k].scores[j]))
  {
    seq(|raws|, k requires 0 <= k < |raws| => NormalizeRow(raws[k], k + 1))
  }

  predicate IsRowId(id: string) {
    |id| >= 1 && AllDigits(id[1..])
  }

  /** Every row carries a row id, and the numbers in them increase along the sequence. */
  predicate IdsIncreasing(rows: seq<Row>) {
    && (forall k :: 0 <= k < |rows| ==> IsRowId(rows[k].rowId))
    && (forall a, b :: 0 <= a < b < |rows| ==> RowNumber(rows[a].rowId) < RowNumber(rows[b].rowId))
  }

  /** Row ids are distinct and increase in input order. */
  lemma NormalizeIdsIncreasing(raws: seq<RawRow>)
    ensures IdsIncreasing(Normalize(raws))
  {
    var rows := Normalize(raws);
    forall k | 0 <= k < |rows| ensures IsRowId(rows[k].rowId) && RowNumber(rows[k].rowId) == k + 1 {
      assert rows[k].rowId == RowId(k + 1);
      RowNumberOfRowId(k + 1);
    }
  }

  // ---------------------------------------------------------------- composite score

  function Sum(xs: seq<real>): real {
    if xs == [] then 0.0 else Sum(xs[..|xs| - 1]) + xs[|xs| - 1]
  }

  /** A sum splits over a concatenation. */
  lemma {:induction false} SumConcat(a: seq<real>, b: seq<real>)
    ensures Sum(a + b) == Sum(a) + Sum(b)
    decreases |b|
  {
    if b == [] {
      assert a + b == a;
    } else {
      assert (a + b)[..|a + b| - 1] == a + b[..|b| - 1];
      SumConcat(a, b[..|b| - 1]);
    }
  }

  /** The arithmetic mean (pandas' `mean` over values that are present). */
  function Mean(xs: seq<real>): real
    requires |xs| > 0
  {
    Sum(xs) / |xs| as real
  }

  lemma {:induction false} SumBounds(xs: seq<real>, lo: real, hi: real)
    requires forall k :: 0 <= k < |xs| ==> lo <= xs[k] <= hi
    ensures lo * |xs| as real <= Sum(xs) <= hi * |xs| as real
  {
    if xs != [] {
      SumBounds(xs[..|xs| - 1], lo, hi);
    }
  }

  /** A mean lies between any lower and upper bound of the values. */
  lemma MeanBounds(xs: seq<real>, lo: real, hi: real)
    requires |xs| > 0
    requires forall k :: 0 <= k < |xs| ==> lo <= xs[k] <= hi
    ensures lo <= Mean(xs) <= hi
  {
    SumBounds(xs, lo, hi);
    QuotientBounds(Sum(xs), |xs| as real, lo, hi);
  }

  lemma QuotientBounds(a: real, n: real, lo: real, hi: real)
    requires n > 0.0 && lo * n <= a <= hi * n
    ensures lo <= a / n <= hi
  {
    assert a / n * n == a;
  }

  /** The composite score: the mean of the row's present scores, absent when none is present. */
  function Composite(r: Row): (c: Option<real>)
    ensures c.None? <==> forall j :: 0 <= j < |r.scores| ==> r.scores[j].None?
  {
    var present := Present(r.scores);
    if |present| == 0 then
      assert forall j :: 0 <= j < |r.scores| ==> r.scores[j].None? by {
        forall j | 0 <= j < |r.scores| ensures r.scores[j].None? {
          assert r.scores[j] in r.scores;
        }
      }
      None
    else
      assert present[0] in present;
      Some(Mean(present))
  }

  /** Scores on a bounded scale give a composite on the same scale. */
  lemma CompositeBounds(r: Row, lo: real, hi: real)
    requires forall j :: 0 <= j < |r.scores| && r.scores[j].Some? ==> lo <= r.scores[j].value <= hi
    requires Composite(r).Some?
    ensures lo <= Composite(r).value <= hi
  {
    var present := Present(r.scores);
    forall k | 0 <= k < |present| ensures lo <= present[k] <= hi {
      assert Some(present[k]) in r.scores;
    }
    MeanBounds(present, lo, hi);
  }

  /** Absent scores are skipped, not counted as zero: a row whose present scores
      all equal `v` has composite `v`, however many scores are missing. */
  lemma CompositeOfEqualScores(r: Row, v: real)
    requires exists j :: 0 <= j < |r.scores| && r.scores[j] == Some(v)
    requires forall j :: 0 <= j < |r.scores| && r.scores[j].Some? ==> r.scores[j].value == v
    ensures Composite(r) == Some(v)
  {
    CompositeBounds(r, v, v);
  }

  // ---------------------------------------------------------------- filter

  predicate HasTrainerAndDate(r: Row) {
    r.trainer.Some? && r.created.Some?
  }

  /** `df[df['Trainer'].notna() & df['creation_datetime'].notna()]`: the rows that
      have a trainer and a parsed date, in their original order. */
  function Survivors(rows: seq<Row>): (out: seq<Row>)
    ensures |out| <= |rows|
    ensures forall r :: r in out <==> r in rows && HasTrainerAndDate(r)
  {
    if rows == [] then []
    else
      var last := rows[|rows| - 1];
      Survivors(rows[..|rows| - 1]) + (if HasTrainerAndDate(last) then [last] else [])
  }

  lemma IdsIncreasingAppend(prefix: seq<Row>, last: Row)
    requires IdsIncreasing(prefix) && IsRowId(last.rowId)
    requires forall r :: r in prefix ==> RowNumber(r.rowId) < RowNumber(last.rowId)
    ensures IdsIncreasing(prefix + [last])
  {
    var out := prefix + [last];
    forall a, b | 0 <= a < b < |out| ensures RowNumber(out[a].rowId) < RowNumber(out[b].rowId) {
      if b == |prefix| {
        assert out[a] in prefix;
      } else {
        assert out[a] == prefix[a] && out[b] == prefix[b];
      }
    }
  }

  /** Filtering keeps the original order of rows. */
  lemma {:induction false} SurvivorsKeepOrder(rows: seq<Row>)
    requires IdsIncreasing(rows)
    ensures IdsIncreasing(Survivors(rows))
  {
    if rows != [] {
      var init := rows[..|rows| - 1];
      var last := rows[|rows| - 1];
      assert IdsIncreasing(init) by {
        assert forall k :: 0 <= k < |init| ==> init[k] == rows[k];
      }
      SurvivorsKeepOrder(init);
      if HasTrainerAndDate(last) {
        forall r | r in Survivors(init) ensures RowNumber(r.rowId) < RowNumber(last.rowId) {
          var k :| 0 <= k < |init| && init[k] == r;
          assert rows[k] == r;
        }
        IdsIncreasingAppend(Survivors(init), last);
      } else {
        assert Survivors(rows) == Survivors(init) + [];
      }
    }
  }

  /** Surviving rows keep the id they were given before filtering: each is the
      row at some input position `k` and carries `R` followed by `k + 1`. */
  lemma SurvivorsKeepIds(raws: seq<RawRow>, r: Row)
    requires r in Survivors(Normalize(raws))
    ensures exists k :: (0 <= k < |raws| && r == Normalize(raws)[k] && r.rowId == RowId(k + 1)
      && raws[k].trainer.Some? && raws[k].created.Some?)
  {
    var rows := Normalize(raws);
    var k :| 0 <= k < |rows| && rows[k] == r;
  }
}

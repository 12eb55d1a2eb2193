/**
 * The volcano-plot viewer (volcano_plot_app/volcano_plot_with_sliders.py): choose the
 * separator from the uploaded file's name, check the required columns, label every row
 * positive / negative / neutral from the two slider thresholds, count the positive and
 * negative rows, and keep the non-neutral rows for download.
 *
 * A row is reduced to the three values the classification reads. `sig` stands for the
 * derived column `neg_log10_adj_pval`, that is -log10(adj_pval), taken as given.
 */
module Volcano {
  import opened Wrappers

  datatype Row = Row(feature: string, cohenD: real, sig: real)

  /** The values of the `color_group` column. */
  datatype Group = Positive | Negative | Neutral

  /** A row after `color_group` has been added to the table. */
  datatype ClassifiedRow = ClassifiedRow(row: Row, group: Group)

  /** An uploaded table: its header and its rows. */
  datatype Table = Table(columns: set<string>, rows: seq<Row>)

  datatype Separator = Tab | Comma

  datatype Error = MissingRequiredColumns

  /** What the script shows and offers for download once the table is accepted. */
  datatype Report = Report(classified: seq<ClassifiedRow>, positiveN: nat, negativeN: nat, download: seq<ClassifiedRow>)

  const RequiredColumns: set<string> := {"feature", "cohen_d", "adj_pval"}

  // ---------------------------------------------------------------------------
  // Separator choice

  /** Python's `str.endswith`. */
  predicate EndsWith(s: string, suffix: string) {
    |suffix| <= |s| && s[|s| - |suffix|..] == suffix
  }

  /** Tab for `.txt` and `.tsv` uploads, comma for everything else. */
  function SeparatorFor(fileName: string): (sep: Separator)
    ensures sep == Tab <==> EndsWith(fileName, ".txt") || EndsWith(fileName, ".tsv")
    ensures sep == Comma <==> !EndsWith(fileName, ".txt") && !EndsWith(fileName, ".tsv")
  {
    if EndsWith(fileName, ".txt") || EndsWith(fileName, ".tsv") then Tab else Comma
  }

  /** Whatever the stem, the extension alone decides the separator. */
  lemma SeparatorByExtension(stem: string)
    ensures SeparatorFor(stem + ".txt") == Tab
    ensures SeparatorFor(stem + ".tsv") == Tab
    ensures SeparatorFor(stem + ".csv") == Comma
  {
  }

  // ---------------------------------------------------------------------------
  // Classification

  /**
   * numpy's `select`: the choice of the first condition that holds, else the default.
   */
  function NpSelect<T>(conds: seq<bool>, choices: seq<T>, default: T): (r: T)
    requires |conds| == |choices|
    ensures (forall i :: 0 <= i < |conds| ==> !conds[i]) ==> r == default
    ensures forall i :: 0 <= i < |conds| && conds[i] && (forall j :: 0 <= j < i ==> !conds[j]) ==> r == choices[i]
  {
    if conds == [] then default
    else if conds[0] then choices[0]
    else NpSelect(conds[1..], choices[1..], default)
  }

  /** The `color_group` of one row: `np.select` over the positive and the negative test. */
  function GroupOf(row: Row, xThresh: real, yThresh: real): (g: Group)
    // first match wins: the positive test is tried first
    ensures g == Positive <==> row.cohenD > xThresh && row.sig > yThresh
    ensures g == Negative <==> !(row.cohenD > xThresh) && row.cohenD < -xThresh && row.sig > yThresh
    // not significant means neutral, whatever the effect size
    ensures row.sig <= yThresh ==> g == Neutral
    // with a non-negative effect threshold the order of the tests does not matter
    ensures 0.0 <= xThresh ==> (g == Negative <==> row.cohenD < -xThresh && row.sig > yThresh)
    ensures 0.0 <= xThresh ==> (g == Neutral <==> row.sig <= yThresh || -xThresh <= row.cohenD <= xThresh)
  {
    var conds := [row.cohenD > xThresh && row.sig > yThresh, row.cohenD < -xThresh && row.sig > yThresh];
    var g := NpSelect(conds, [Positive, Negative], Neutral);
    assert !conds[0] && conds[1] ==> forall j :: 0 <= j < 1 ==> !conds[j];
    g
  }

  /** The table with its `color_group` column: same rows, same order, each with its group. */
  function Classify(rows: seq<Row>, xThresh: real, yThresh: real): (cs: seq<ClassifiedRow>)
    ensures |cs| == |rows|
    ensures forall i :: 0 <= i < |rows| ==> cs[i].row == rows[i] && cs[i].group == GroupOf(rows[i], xThresh, yThresh)
  {
    seq(|rows|, i requires 0 <= i < |rows| => ClassifiedRow(rows[i], GroupOf(rows[i], xThresh, yThresh)))
  }

  // ---------------------------------------------------------------------------
  // Boolean-mask selections

  /** `df[df['color_group'] == g]`. */
  function WithGroup(cs: seq<ClassifiedRow>, g: Group): (r: seq<ClassifiedRow>)
    ensures |r| <= |cs|
    ensures forall c :: c in r <==> c in cs && c.group == g
  {
    if cs == [] then []
    else WithGroup(cs[..|cs| - 1], g) + (if cs[|cs| - 1].group == g then [cs[|cs| - 1]] else [])
  }

  /** `df[df['color_group'] != g]`. */
  function WithoutGroup(cs: seq<ClassifiedRow>, g: Group): (r: seq<ClassifiedRow>)
    ensures |r| <= |cs|
    ensures forall c :: c in r <==> c in cs && c.group != g
  {
    if cs == [] then []
    else WithoutGroup(cs[..|cs| - 1], g) + (if cs[|cs| - 1].group != g then [cs[|cs| - 1]] else [])
  }

  /** The positions `df[df['color_group'] != g]` keeps, in increasing order. */
  function KeptPositions(cs: seq<ClassifiedRow>, g: Group): (ix: seq<nat>)
  {
    if cs == [] then []
    else KeptPositions(cs[..|cs| - 1], g) + (if cs[|cs| - 1].group != g then [|cs| - 1] else [])
  }

  /** The kept positions increase, and a position is kept exactly when its group is not `g`. */
  lemma {:induction false} KeptPositionsExact(cs: seq<ClassifiedRow>, g: Group)
    ensures var ix := KeptPositions(cs, g);
      && (forall k :: 0 <= k < |ix| ==> ix[k] < |cs|)
      && (forall k, l :: 0 <= k < l < |ix| ==> ix[k] < ix[l])
      && (forall i :: 0 <= i < |cs| ==> (i in ix <==> cs[i].group != g))
  {
    if cs != [] {
      var init := cs[..|cs| - 1];
      KeptPositionsExact(init, g);
      var ix0 := KeptPositions(init, g);
      assert forall i :: 0 <= i < |init| ==> init[i] == cs[i];
      assert |cs| - 1 !in ix0;
    }
  }

  /**
   * The selection is an order-preserving filter: its k-th row is, unchanged, the row at
   * the k-th kept position.
   */
  lemma {:induction false} SelectionPositions(cs: seq<ClassifiedRow>, g: Group)
    ensures var r, ix := WithoutGroup(cs, g), KeptPositions(cs, g);
      && |ix| == |r|
      && (forall k :: 0 <= k < |ix| ==> ix[k] < |cs| && r[k] == cs[ix[k]])
  {
    if cs != [] {
      var init := cs[..|cs| - 1];
      SelectionPositions(init, g);
      var r0, ix0 := WithoutGroup(init, g), KeptPositions(init, g);
      assert forall k :: 0 <= k < |ix0| ==> init[ix0[k]] == cs[ix0[k]];
    }
  }

  /** The positions whose group is `g`: what the `== g` mask marks true. */
  ghost function PositionsWith(cs: seq<ClassifiedRow>, g: Group): set<nat>
  {
    set i: nat | i < |cs| && cs[i].group == g
  }

  /** Extending the table by one row adds its position exactly when it is labelled `g`. */
  lemma PositionsWithSnoc(cs: seq<ClassifiedRow>, g: Group)
    requires cs != []
    ensures PositionsWith(cs, g) ==
      PositionsWith(cs[..|cs| - 1], g) + (if cs[|cs| - 1].group == g then {|cs| - 1} else {})
  {
    var init := cs[..|cs| - 1];
    assert forall i :: 0 <= i < |init| ==> init[i] == cs[i];
  }

  /**
   * The `== g` selection has one row per position labelled `g`, so repeated rows are counted
   * once each, as `shape[0]` counts them.
   */
  lemma {:induction false} WithGroupCount(cs: seq<ClassifiedRow>, g: Group)
    ensures |WithGroup(cs, g)| == |PositionsWith(cs, g)|
  {
    if cs != [] {
      WithGroupCount(cs[..|cs| - 1], g);
      PositionsWithSnoc(cs, g);
      assert |cs| - 1 !in PositionsWith(cs[..|cs| - 1], g);
    }
  }

  /** Every row is positive, negative or neutral, so the two counts add up to the download size. */
  lemma {:induction false} CountsAddUp(cs: seq<ClassifiedRow>)
    ensures |WithGroup(cs, Positive)| + |WithGroup(cs, Negative)| == |WithoutGroup(cs, Neutral)|
  {
    if cs != [] {
      CountsAddUp(cs[..|cs| - 1]);
    }
  }

  // ---------------------------------------------------------------------------
  // The whole processing step

  /**
   * The table checked, classified, counted and subset. A table without one of the
   * required columns is refused and nothing else is produced.
   */
  function Process(t: Table, xThresh: real, yThresh: real): (r: Result<Report, Error>)
    ensures r.Failure? <==> !(RequiredColumns <= t.columns)
    ensures r.Success? ==>
      && |r.value.classified| == |t.rows|
      && (forall i :: 0 <= i < |t.rows| ==>
            r.value.classified[i] == ClassifiedRow(t.rows[i], GroupOf(t.rows[i], xThresh, yThresh)))
      && r.value.positiveN == |WithGroup(r.value.classified, Positive)|
      && r.value.negativeN == |WithGroup(r.value.classified, Negative)|
      && r.value.positiveN == |PositionsWith(r.value.classified, Positive)|
      && r.value.negativeN == |PositionsWith(r.value.classified, Negative)|
      && r.value.positiveN + r.value.negativeN == |r.value.download|
      && r.value.download == WithoutGroup(r.value.classified, Neutral)
      && (forall c :: c in r.value.download <==> c in r.value.classified && c.group != Neutral)
  {
    if !(RequiredColumns <= t.columns) then
      Failure(MissingRequiredColumns)
    else
      var cs := Classify(t.rows, xThresh, yThresh);
      CountsAddUp(cs);
      WithGroupCount(cs, Positive);
      WithGroupCount(cs, Negative);
      Success(Report(cs, |WithGroup(cs, Positive)|, |WithGroup(cs, Negative)|, WithoutGroup(cs, Neutral)))
  }

  /**
   * Selecting the download and classifying again changes nothing: every downloaded row
   * carries the group its own values give it.
   */
  lemma DownloadGroupsAreCurrent(rows: seq<Row>, xThresh: real, yThresh: real)
    ensures forall c :: c in WithoutGroup(Classify(rows, xThresh, yThresh), Neutral) ==>
      c.group == GroupOf(c.row, xThresh, yThresh) != Neutral
  {
  }

  /** Three rows, thresholds 0.2 and 1.3: one positive, one negative, one neutral. */
  lemma ThreeRowExample()
    ensures var t := Table(RequiredColumns, [Row("A", 0.6, 3.0), Row("B", -0.7, 2.0), Row("C", 0.1, 0.301)]);
      var r := Process(t, 0.2, 1.3);
      && r.Success?
      && r.value.positiveN == 1 && r.value.negativeN == 1
      && r.value.download == [ClassifiedRow(Row("A", 0.6, 3.0), Positive), ClassifiedRow(Row("B", -0.7, 2.0), Negative)]
  {
    var rows := [Row("A", 0.6, 3.0), Row("B", -0.7, 2.0), Row("C", 0.1, 0.301)];
    var cs := Classify(rows, 0.2, 1.3);
    assert cs == [ClassifiedRow(rows[0], Positive), ClassifiedRow(rows[1], Negative), ClassifiedRow(rows[2], Neutral)];
    assert cs[..2] == [ClassifiedRow(rows[0], Positive), ClassifiedRow(rows[1], Negative)];
    assert cs[..2][..1] == [ClassifiedRow(rows[0], Positive)];
  }

  /** A table missing `adj_pval` is refused. */
  lemma MissingColumnRefused(rows: seq<Row>, xThresh: real, yThresh: real)
    ensures Process(Table({"feature", "cohen_d"}, rows), xThresh, yThresh) == Failure(MissingRequiredColumns)
  {
  }
}

/**
 * The first half of the Venn-diagram viewer (venn_diagram_app/venn_diagram_app.py): loading
 * the uploaded tables under the names `input_1`, `input_2`, ..., and the loop over the
 * three feature-list definitions that fills `feature_lists` and `list_labels`.
 */
module VennLists {
  import opened Wrappers
  import opened Decimal

  /** One table row: column name to cell value; `None` is a null cell. */
  type Record = map<string, Option<string>>

  datatype Frame = Frame(columns: set<string>, rows: seq<Record>)

  /** What reading one upload as tab-separated text gave. */
  datatype ParseOutcome =
    | Parsed(frame: Frame)
    | EmptyData      // pandas' EmptyDataError: reported, and the upload is skipped
    | ParseFailure   // any other parser error: not caught, so the run ends there

  /**
   * A `df.query(condition)` filter: whether evaluating it on a table raises (bad syntax,
   * unknown column, empty condition), and otherwise which rows it keeps.
   */
  datatype Query = Query(raises: Frame -> bool, matches: Record -> bool)

  /** The widgets of one "Define Feature List" expander. */
  datatype Definition = Definition(enabled: bool, inputFile: string, featureCol: string, query: Query)

  /** Errors that stop the run because the script does not catch them. */
  datatype Abort =
    | UnhandledParseError(upload: nat)   // a parser error other than EmptyDataError
    | UnknownInputFile(slot: nat)        // `dataframes[input_file]` without such a key

  /** One valid definition's feature set with its label. */
  datatype Entry = Entry(features: set<string>, listLabel: string)

  /** `feature_lists` and `list_labels` after the definition loop. */
  datatype FeatureLists = FeatureLists(sets: seq<set<string>>, labels: seq<string>)

  /** The two parallel lists holding the entries' sets and labels. */
  function Unzip(es: seq<Entry>): (lists: FeatureLists)
    ensures |lists.sets| == |lists.labels| == |es|
    ensures forall k :: 0 <= k < |es| ==> lists.sets[k] == es[k].features && lists.labels[k] == es[k].listLabel
  {
    FeatureLists(seq(|es|, k requires 0 <= k < |es| => es[k].features),
                 seq(|es|, k requires 0 <= k < |es| => es[k].listLabel))
  }

  lemma UnzipSnoc(es: seq<Entry>, e: Entry)
    ensures Unzip(es + [e]) == FeatureLists(Unzip(es).sets + [e.features], Unzip(es).labels + [e.listLabel])
  {
  }

  /** The number of definition expanders, `range(3)`. */
  const Slots := 3

  // ---------------------------------------------------------------------------
  // Loading the uploads

  /** The table name of the upload at 0-based position `i`. */
  function InputName(i: nat): string {
    "input_" + NatToString(i + 1)
  }

  /**
   * A table name is `input_` followed by the 1-based upload position in decimal: reading
   * its digits back gives the position.
   */
  lemma InputNameDigits(i: nat)
    ensures var name := InputName(i);
      && |name| > 6 && name[..6] == "input_" && IsDigits(name[6..])
      && ParseDigits(name[6..]) == i + 1
  {
    var digits := NatToString(i + 1);
    ParseNatToString(i + 1);
    assert InputName(i)[6..] == digits;
  }

  lemma InputNameInjective(i: nat, j: nat)
    requires InputName(i) == InputName(j)
    ensures i == j
  {
    InputNameDigits(i);
    InputNameDigits(j);
  }

  /**
   * The load loop: each upload that parses is stored under its position's name; an empty
   * or unreadable one (EmptyDataError) leaves a gap in the names; any other parser error
   * ends the run at the first upload that raises it.
   */
  method LoadFrames(uploads: seq<ParseOutcome>) returns (r: Result<map<string, Frame>, Abort>)
    ensures r.Failure? <==> exists i :: 0 <= i < |uploads| && uploads[i].ParseFailure?
    ensures r.Failure? ==>
      && r.error.UnhandledParseError?
      && r.error.upload < |uploads| && uploads[r.error.upload].ParseFailure?
      && forall j :: 0 <= j < r.error.upload ==> !uploads[j].ParseFailure?
    ensures r.Success? ==> forall i :: 0 <= i < |uploads| ==> (InputName(i) in r.value <==> uploads[i].Parsed?)
    ensures r.Success? ==> forall i :: 0 <= i < |uploads| && uploads[i].Parsed? ==> r.value[InputName(i)] == uploads[i].frame
    ensures r.Success? ==> forall name :: name in r.value ==> exists i :: 0 <= i < |uploads| && name == InputName(i)
  {
    var dataframes: map<string, Frame> := map[];
    var i := 0;
    while i < |uploads|
      invariant 0 <= i <= |uploads|
      invariant forall j :: 0 <= j < i ==> !uploads[j].ParseFailure?
      invariant forall j :: 0 <= j < i ==> (InputName(j) in dataframes <==> uploads[j].Parsed?)
      invariant forall j :: 0 <= j < i && uploads[j].Parsed? ==> dataframes[InputName(j)] == uploads[j].frame
      invariant forall name :: name in dataframes ==> exists j :: 0 <= j < i && name == InputName(j)
    {
      var name := InputName(i);
      forall j | 0 <= j < i
        ensures InputName(j) != name
      {
        if InputName(j) == name {
          InputNameInjective(j, i);
        }
      }
      match uploads[i] {
        case Parsed(df) =>
          dataframes := dataframes[name := df];
        case EmptyData =>
        case ParseFailure =>
          return Failure(UnhandledParseError(i));
      }
      i := i + 1;
    }
    return Success(dataframes);
  }

  // ---------------------------------------------------------------------------
  // One definition

  /** A cell, or null when the row has no value for the column. */
  function Cell(rec: Record, col: string): Option<string> {
    if col in rec then rec[col] else None
  }

  /**
   * `df.query(condition)[feature_col].dropna().astype(str).tolist()`: the non-null
   * identifiers of the kept rows, in row order.
   */
  function FeatureValues(rows: seq<Record>, col: string, keep: Record -> bool): (vs: seq<string>)
    ensures |vs| <= |rows|
    ensures forall v :: v in vs <==> exists i :: 0 <= i < |rows| && keep(rows[i]) && Cell(rows[i], col) == Some(v)
  {
    if rows == [] then []
    else
      var init, last := rows[..|rows| - 1], rows[|rows| - 1];
      var vs0 := FeatureValues(init, col, keep);
      var vs := vs0 + (if keep(last) && Cell(last, col).Some? then [Cell(last, col).value] else []);
      assert forall i :: 0 <= i < |init| ==> init[i] == rows[i];
      vs
  }

  /** `set(features)`: exactly the non-null identifiers of the rows the filter keeps. */
  function FeatureSet(df: Frame, col: string, keep: Record -> bool): (fs: set<string>)
    ensures forall v :: v in fs <==>
      exists i :: 0 <= i < |df.rows| && keep(df.rows[i]) && Cell(df.rows[i], col) == Some(v)
  {
    set v | v in FeatureValues(df.rows, col, keep)
  }

  /** `f"{input_file}_list{i+1}"`. */
  function ListLabel(inputFile: string, slot: nat): string {
    inputFile + "_list" + NatToString(slot + 1)
  }

  /**
   * A label starts with its table's name, then `_list`, then the 1-based slot in decimal:
   * reading those digits back gives the slot.
   */
  lemma ListLabelParts(inputFile: string, slot: nat)
    ensures var text, n := ListLabel(inputFile, slot), |inputFile| + 5;
      && |text| > n && text[..|inputFile|] == inputFile && text[|inputFile|..n] == "_list"
      && IsDigits(text[n..]) && ParseDigits(text[n..]) == slot + 1
  {
    var digits := NatToString(slot + 1);
    ParseNatToString(slot + 1);
    assert ListLabel(inputFile, slot)[|inputFile| + 5..] == digits;
  }

  /** Two slots among the first nine never share a label, whatever tables they read. */
  lemma ListLabelsDistinct(f: string, g: string, i: nat, j: nat)
    requires i != j && i < 9 && j < 9
    ensures ListLabel(f, i) != ListLabel(g, j)
  {
    var a, b := ListLabel(f, i), ListLabel(g, j);
    assert a[|a| - 1] == DigitChar(i + 1);
    assert b[|b| - 1] == DigitChar(j + 1);
  }

  /** Whether a definition's table lookup succeeds: only enabled definitions look. */
  predicate Resolves(frames: map<string, Frame>, d: Definition) {
    d.enabled ==> d.inputFile in frames
  }

  /**
   * What one iteration of the definition loop appends: nothing when the definition is
   * disabled, names a column the table lacks, or its filter raises.
   */
  function Contribution(frames: map<string, Frame>, d: Definition, slot: nat): (e: Option<Entry>)
    requires Resolves(frames, d)
    ensures e.Some? <==>
      d.enabled && d.featureCol in frames[d.inputFile].columns && !d.query.raises(frames[d.inputFile])
    ensures e.Some? ==>
      && e.value.features == FeatureSet(frames[d.inputFile], d.featureCol, d.query.matches)
      && e.value.listLabel == ListLabel(d.inputFile, slot)
  {
    if !d.enabled then None
    else
      var df := frames[d.inputFile];
      if d.featureCol !in df.columns || d.query.raises(df) then None
      else Some(Entry(FeatureSet(df, d.featureCol, d.query.matches), ListLabel(d.inputFile, slot)))
  }

  // ---------------------------------------------------------------------------
  // The definition loop

  predicate AllResolve(frames: map<string, Frame>, defs: seq<Definition>) {
    forall s :: 0 <= s < |defs| ==> Resolves(frames, defs[s])
  }

  /** The entries the loop appends over the definitions `defs`, in slot order. */
  function Collected(frames: map<string, Frame>, defs: seq<Definition>): (c: seq<Entry>)
    requires AllResolve(frames, defs)
    ensures |c| <= |defs|
  {
    if defs == [] then []
    else
      var n := |defs| - 1;
      Collected(frames, defs[..n]) + (match Contribution(frames, defs[n], n) case Some(e) => [e] case None => [])
  }

  /** The slots the collected entries come from. */
  ghost function Origins(frames: map<string, Frame>, defs: seq<Definition>): seq<nat>
    requires AllResolve(frames, defs)
  {
    if defs == [] then []
    else
      var n := |defs| - 1;
      Origins(frames, defs[..n]) + (if Contribution(frames, defs[n], n).Some? then [n] else [])
  }

  /** The contributing slots, in increasing order: a slot is among them exactly when it contributes. */
  lemma {:induction false} OriginsExact(frames: map<string, Frame>, defs: seq<Definition>)
    requires AllResolve(frames, defs)
    ensures var o := Origins(frames, defs);
      && (forall k :: 0 <= k < |o| ==> o[k] < |defs|)
      && (forall k, l :: 0 <= k < l < |o| ==> o[k] < o[l])
      && (forall s :: 0 <= s < |defs| ==> (s in o <==> Contribution(frames, defs[s], s).Some?))
  {
    if defs != [] {
      var n := |defs| - 1;
      var init := defs[..n];
      OriginsExact(frames, init);
      var o0 := Origins(frames, init);
      assert forall s :: 0 <= s < n ==> init[s] == defs[s];
      assert n !in o0;
    }
  }

  /** The two lists in lockstep: entry k is what slot Origins[k] contributes. */
  lemma {:induction false} CollectedShape(frames: map<string, Frame>, defs: seq<Definition>)
    requires AllResolve(frames, defs)
    ensures var c, o := Collected(frames, defs), Origins(frames, defs);
      && |o| == |c| <= |defs|
      && (forall k :: 0 <= k < |o| ==> o[k] < |defs| && Contribution(frames, defs[o[k]], o[k]) == Some(c[k]))
  {
    if defs != [] {
      var n := |defs| - 1;
      var init := defs[..n];
      CollectedShape(frames, init);
      var c0, o0 := Collected(frames, init), Origins(frames, init);
      var c, o := Collected(frames, defs), Origins(frames, defs);
      assert c[..|c0|] == c0 && o[..|o0|] == o0;
      forall k | 0 <= k < |o0|
        ensures o[k] < |defs| && Contribution(frames, defs[o[k]], o[k]) == Some(c[k])
      {
        assert init[o0[k]] == defs[o0[k]];
      }
    }
  }

  /** Labels of the collected entries are pairwise distinct. */
  lemma CollectedLabelsDistinct(frames: map<string, Frame>, defs: seq<Definition>)
    requires |defs| == Slots && AllResolve(frames, defs)
    ensures var c := Collected(frames, defs);
      forall k, l :: 0 <= k < l < |c| ==> c[k].listLabel != c[l].listLabel
  {
    CollectedShape(frames, defs);
    OriginsExact(frames, defs);
    var c, o := Collected(frames, defs), Origins(frames, defs);
    forall k, l | 0 <= k < l < |c|
      ensures c[k].listLabel != c[l].listLabel
    {
      var dk, dl := defs[o[k]], defs[o[l]];
      assert c[k].listLabel == ListLabel(dk.inputFile, o[k]);
      assert c[l].listLabel == ListLabel(dl.inputFile, o[l]);
      ListLabelsDistinct(dk.inputFile, dl.inputFile, o[k], o[l]);
    }
  }

  /** The first slot whose enabled definition names a table that was not loaded. */
  function FirstUnresolved(frames: map<string, Frame>, defs: seq<Definition>): (s: nat)
    requires !AllResolve(frames, defs)
    ensures s < |defs| && !Resolves(frames, defs[s]) && forall j :: 0 <= j < s ==> Resolves(frames, defs[j])
  {
    if !Resolves(frames, defs[0]) then 0
    else
      var s := 1 + FirstUnresolved(frames, defs[1..]);
      assert forall j :: 1 <= j < |defs| ==> defs[1..][j - 1] == defs[j];
      s
  }

  /** A slot that does not resolve after slots that all do is the first unresolved one. */
  lemma FirstUnresolvedAt(frames: map<string, Frame>, defs: seq<Definition>, i: nat)
    requires i < |defs| && AllResolve(frames, defs[..i]) && !Resolves(frames, defs[i])
    ensures !AllResolve(frames, defs) && FirstUnresolved(frames, defs) == i
  {
    assert forall j :: 0 <= j < i ==> defs[..i][j] == defs[j];
  }

  /** One more definition appends that definition's contribution, if any. */
  lemma CollectedSnoc(frames: map<string, Frame>, defs: seq<Definition>, i: nat)
    requires i < |defs| && AllResolve(frames, defs[..i]) && Resolves(frames, defs[i])
    ensures AllResolve(frames, defs[..i + 1])
    ensures Collected(frames, defs[..i + 1]) ==
      Collected(frames, defs[..i]) + (match Contribution(frames, defs[i], i) case Some(e) => [e] case None => [])
  {
    assert defs[..i + 1][..i] == defs[..i];
    assert forall s :: 0 <= s < i ==> defs[..i + 1][s] == defs[..i][s];
  }

  /**
   * The loop over the three expanders, appending to `feature_lists` and `list_labels`.
   * Looking up an enabled definition's table is not guarded, so a missing table ends the run.
   */
  method DefineFeatureLists(frames: map<string, Frame>, defs: seq<Definition>) returns (r: Result<FeatureLists, Abort>)
    requires |defs| == Slots
    ensures r.Failure? <==> !AllResolve(frames, defs)
    ensures r.Failure? ==> r.error == UnknownInputFile(FirstUnresolved(frames, defs))
    ensures r.Success? ==>
      var c := Collected(frames, defs);
      && |r.value.sets| == |r.value.labels| == |c|
      && forall k :: 0 <= k < |c| ==> r.value.sets[k] == c[k].features && r.value.labels[k] == c[k].listLabel
  {
    var featureLists: seq<set<string>> := [];
    var listLabels: seq<string> := [];
    for i := 0 to |defs|
      invariant AllResolve(frames, defs[..i])
      invariant FeatureLists(featureLists, listLabels) == Unzip(Collected(frames, defs[..i]))
    {
      var d := defs[i];
      if d.enabled && d.inputFile !in frames {
        FirstUnresolvedAt(frames, defs, i);
        return Failure(UnknownInputFile(i));
      }
      CollectedSnoc(frames, defs, i);
      if !d.enabled {
        continue;
      }
      var df := frames[d.inputFile];
      if d.featureCol !in df.columns {
        continue;
      }
      if d.query.raises(df) {
        continue;
      }
      UnzipSnoc(Collected(frames, defs[..i]), Entry(FeatureSet(df, d.featureCol, d.query.matches), ListLabel(d.inputFile, i)));
      featureLists := featureLists + [FeatureSet(df, d.featureCol, d.query.matches)];
      listLabels := listLabels + [ListLabel(d.inputFile, i)];
    }
    assert defs[..|defs|] == defs;
    return Success(FeatureLists(featureLists, listLabels));
  }
}

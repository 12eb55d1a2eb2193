/**
 * The second half of the Venn-diagram viewer (venn_diagram_app/venn_diagram_app.py): the
 * gate on the number of feature lists, the sorted union of the lists, and the membership
 * table with one 0/1 column per list.
 */
module VennTable {
  import opened StringOrder
  import opened VennLists

  /** Which branch of the size gate runs. */
  datatype Diagram =
    | TooFew        // fewer than 2 lists: warn and stop
    | Venn2
    | Venn3
    | Unsupported   // "Only 2 to 3 feature lists are supported." and stop

  function Gate(n: nat): (d: Diagram)
    ensures d == TooFew <==> n < 2
    ensures d == Unsupported <==> n > 3
  {
    if n < 2 then TooFew
    else if n == 2 then Venn2
    else if n == 3 then Venn3
    else Unsupported
  }

  /** Three expanders never give more than three lists, so the gate never reaches its last branch. */
  lemma UnsupportedUnreachable(frames: map<string, Frame>, defs: seq<Definition>)
    requires |defs| == Slots && AllResolve(frames, defs)
    ensures |Collected(frames, defs)| <= 3
    ensures Gate(|Collected(frames, defs)|) != Unsupported
  {
    CollectedShape(frames, defs);
  }

  // ---------------------------------------------------------------------------
  // Sorted union

  /** `set().union(*feature_lists)`. */
  function Union(sets: seq<set<string>>): (u: set<string>)
    ensures forall i :: 0 <= i < |sets| ==> sets[i] <= u
    ensures forall f :: f in u ==> exists i :: 0 <= i < |sets| && f in sets[i]
  {
    if sets == [] then {}
    else
      var n := |sets| - 1;
      var u := Union(sets[..n]) + sets[n];
      assert forall i :: 0 <= i < n ==> sets[..n][i] == sets[i];
      u
  }

  /** `sorted(u)`: the elements of `u` in increasing order, each once. */
  function SortedFeatures(u: set<string>): (keys: seq<string>)
    ensures StrictlySorted(keys)
    ensures forall f :: f in keys <==> f in u
    decreases u
  {
    if u == {} then []
    else
      LeastExists(u);
      LeastUnique(u);
      var m :| m in u && forall y :: y in u ==> y == m || Less(m, y);
      var rest := SortedFeatures(u - {m});
      [m] + rest
  }

  lemma LeastUnique(u: set<string>)
    ensures forall m, m' ::
      ((m in u && (forall y :: y in u ==> y == m || Less(m, y))) &&
       (m' in u && (forall y :: y in u ==> y == m' || Less(m', y)))) ==> m == m'
  {
    forall m, m' | m in u && (forall y :: y in u ==> y == m || Less(m, y)) &&
                   m' in u && (forall y :: y in u ==> y == m' || Less(m', y))
      ensures m == m'
    {
      if m != m' {
        LessAsymmetric(m, m');
      }
    }
  }

  /** The table's row keys are the only strictly sorted listing of the union. */
  lemma SortedFeaturesUnique(u: set<string>, keys: seq<string>)
    requires StrictlySorted(keys) && forall f :: f in keys <==> f in u
    ensures keys == SortedFeatures(u)
  {
    StrictlySortedUnique(keys, SortedFeatures(u));
  }

  // ---------------------------------------------------------------------------
  // Membership columns

  /** `output_table.index.isin(fset).astype(int)`. */
  function Indicator(index: seq<string>, fset: set<string>): (col: seq<int>)
    ensures |col| == |index|
    ensures forall r :: 0 <= r < |index| ==> col[r] == (if index[r] in fset then 1 else 0)
  {
    seq(|index|, r requires 0 <= r < |index| => if index[r] in fset then 1 else 0)
  }

  /** The identifiers a 0/1 column marks with 1: what reading the downloaded column back gives. */
  function MarkedKeys(index: seq<string>, col: seq<int>): set<string>
    requires |col| == |index|
  {
    set r | 0 <= r < |index| && col[r] == 1 :: index[r]
  }

  /** Reading a membership column back gives the feature set it was made from. */
  lemma IndicatorRoundTrip(index: seq<string>, fset: set<string>)
    requires forall f :: f in fset ==> f in index
    ensures MarkedKeys(index, Indicator(index, fset)) == fset
  {
  }

  /** Every row of the table has a 1 in the column of some list. */
  lemma EveryRowMarked(sets: seq<set<string>>)
    ensures var keys := SortedFeatures(Union(sets));
      forall r :: 0 <= r < |keys| ==>
        exists i :: 0 <= i < |sets| && keys[r] in sets[i] && Indicator(keys, sets[i])[r] == 1
  {
    var keys := SortedFeatures(Union(sets));
    forall r | 0 <= r < |keys|
      ensures exists i :: 0 <= i < |sets| && keys[r] in sets[i] && Indicator(keys, sets[i])[r] == 1
    {
      assert keys[r] in keys && keys[r] in Union(sets);
      var i :| 0 <= i < |sets| && keys[r] in sets[i];
      assert Indicator(keys, sets[i])[r] == 1;
    }
  }

  /** No duplicates, first occurrence kept: the column order of a table whose columns were assigned in order. */
  function Dedup(s: seq<string>): (d: seq<string>)
    ensures forall x :: x in d <==> x in s
    ensures forall i, j :: 0 <= i < j < |d| ==> d[i] != d[j]
  {
    if s == [] then []
    else
      var n := |s| - 1;
      var d0 := Dedup(s[..n]);
      assert forall x :: x in s <==> x in s[..n] || x == s[n];
      if s[n] in d0 then d0 else d0 + [s[n]]
  }

  lemma DedupSnoc(s: seq<string>, x: string)
    ensures Dedup(s + [x]) == if x in Dedup(s) then Dedup(s) else Dedup(s) + [x]
  {
  }

  lemma {:induction false} DedupOfDistinct(s: seq<string>)
    requires forall i, j :: 0 <= i < j < |s| ==> s[i] != s[j]
    ensures Dedup(s) == s
  {
    if s != [] {
      var n := |s| - 1;
      DedupOfDistinct(s[..n]);
      assert s[..n] + [s[n]] == s;
    }
  }

  /**
   * `output_table`: a table with row keys `index` and named 0/1 columns, in the order
   * they were first assigned.
   */
  class MembershipTable {
    var index: seq<string>
    var columnNames: seq<string>
    var columns: map<string, seq<int>>

    ghost predicate Valid()
      reads this
    {
      && (forall l :: l in columns <==> l in columnNames)
      && (forall i, j :: 0 <= i < j < |columnNames| ==> columnNames[i] != columnNames[j])
      && (forall l :: l in columns ==> |columns[l]| == |index|)
    }

    /** `pd.DataFrame(index=all_features)`. */
    constructor (index: seq<string>)
      ensures Valid()
      ensures this.index == index && columnNames == [] && columns == map[]
    {
      this.index := index;
      columnNames := [];
      columns := map[];
    }

    /**
     * `output_table[name] = output_table.index.isin(fset).astype(int)`: a new name becomes
     * the last column; an existing one is overwritten where it stands.
     */
    method SetMembershipColumn(name: string, fset: set<string>)
      requires Valid()
      modifies this
      ensures Valid()
      ensures index == old(index)
      ensures columnNames == if name in old(columnNames) then old(columnNames) else old(columnNames) + [name]
      ensures columns == old(columns)[name := Indicator(index, fset)]
    {
      if name !in columnNames {
        columnNames := columnNames + [name];
      }
      columns := columns[name := Indicator(index, fset)];
    }
  }

  /** Among the first `n` lists, none after list `k` has the same label. */
  predicate LastWithLabel(labels: seq<string>, n: nat, k: nat)
    requires k < n <= |labels|
  {
    forall j :: k < j < n ==> labels[j] != labels[k]
  }

  /** The columns after assigning the first `n` lists' indicators, in list order. */
  function ColumnsAfter(index: seq<string>, sets: seq<set<string>>, labels: seq<string>, n: nat): map<string, seq<int>>
    requires n <= |sets| == |labels|
  {
    if n == 0 then map[]
    else ColumnsAfter(index, sets, labels, n - 1)[labels[n - 1] := Indicator(index, sets[n - 1])]
  }

  /** After the assignments, each label's column is the indicator of the last list bearing that label. */
  lemma {:induction false} ColumnsAfterLastWins(index: seq<string>, sets: seq<set<string>>, labels: seq<string>, n: nat, k: nat)
    requires k < n <= |sets| == |labels|
    requires LastWithLabel(labels, n, k)
    ensures labels[k] in ColumnsAfter(index, sets, labels, n)
    ensures ColumnsAfter(index, sets, labels, n)[labels[k]] == Indicator(index, sets[k])
  {
    if k < n - 1 {
      ColumnsAfterLastWins(index, sets, labels, n - 1, k);
    }
  }

  /** What one more column assignment does to the column order and to the columns. */
  lemma AssignStep(index: seq<string>, sets: seq<set<string>>, labels: seq<string>, i: nat)
    requires i < |sets| == |labels|
    ensures Dedup(labels[..i + 1]) ==
      if labels[i] in Dedup(labels[..i]) then Dedup(labels[..i]) else Dedup(labels[..i]) + [labels[i]]
    ensures ColumnsAfter(index, sets, labels, i + 1) ==
      ColumnsAfter(index, sets, labels, i)[labels[i] := Indicator(index, sets[i])]
  {
    assert labels[..i + 1] == labels[..i] + [labels[i]];
    DedupSnoc(labels[..i], labels[i]);
  }

  /** Lines 117-118 on a table with no columns yet: assign each list's column in list order. */
  method AssignColumns(t: MembershipTable, sets: seq<set<string>>, labels: seq<string>)
    requires |sets| == |labels|
    requires t.Valid() && t.columnNames == [] && t.columns == map[]
    modifies t
    ensures t.Valid() && t.index == old(t.index)
    ensures t.columnNames == Dedup(labels)
    ensures t.columns == ColumnsAfter(t.index, sets, labels, |labels|)
  {
    ghost var index := t.index;
    for i := 0 to |sets|
      invariant t.Valid() && t.index == index
      invariant t.columnNames == Dedup(labels[..i])
      invariant t.columns == ColumnsAfter(index, sets, labels, i)
    {
      AssignStep(index, sets, labels, i);
      t.SetMembershipColumn(labels[i], sets[i]);
    }
    assert labels[..|sets|] == labels;
  }

  /**
   * Lines 114-118: the sorted union as row keys, then one column per list, assigned in list
   * order (a repeated label would overwrite the earlier column).
   */
  method BuildMembershipTable(lists: FeatureLists) returns (t: MembershipTable)
    requires |lists.sets| == |lists.labels|
    ensures fresh(t) && t.Valid()
    ensures t.index == SortedFeatures(Union(lists.sets))
    ensures t.columnNames == Dedup(lists.labels)
    ensures forall k :: 0 <= k < |lists.labels| && LastWithLabel(lists.labels, |lists.labels|, k) ==>
      t.columns[lists.labels[k]] == Indicator(t.index, lists.sets[k])
  {
    var allFeatures := SortedFeatures(Union(lists.sets));
    t := new MembershipTable(allFeatures);
    AssignColumns(t, lists.sets, lists.labels);
    forall k | 0 <= k < |lists.labels| && LastWithLabel(lists.labels, |lists.labels|, k)
      ensures t.columns[lists.labels[k]] == Indicator(t.index, lists.sets[k])
    {
      ColumnsAfterLastWins(t.index, lists.sets, lists.labels, |lists.labels|, k);
    }
  }

  /**
   * Everything after the definition loop: the gate, then, for 2 or 3 lists, the diagram
   * and the membership table. Fewer than 2 lists stop the run before either is built.
   */
  method Visualize(lists: FeatureLists) returns (diagram: Diagram, table: MembershipTable?)
    requires |lists.sets| == |lists.labels|
    ensures diagram == Gate(|lists.sets|)
    ensures table != null <==> diagram == Venn2 || diagram == Venn3
    ensures table != null ==>
      && fresh(table) && table.Valid()
      && table.index == SortedFeatures(Union(lists.sets))
      && table.columnNames == Dedup(lists.labels)
      && (forall k :: 0 <= k < |lists.labels| && LastWithLabel(lists.labels, |lists.labels|, k) ==>
            table.columns[lists.labels[k]] == Indicator(table.index, lists.sets[k]))
  {
    diagram := Gate(|lists.sets|);
    if diagram == TooFew || diagram == Unsupported {
      return diagram, null;
    }
    table := BuildMembershipTable(lists);
  }

  /**
   * With the distinct labels the definition loop produces, the table has exactly one
   * column per list, in list order, and each is that list's membership indicator.
   */
  lemma ColumnsOfDistinctLabels(labels: seq<string>, sets: seq<set<string>>, k: nat)
    requires |labels| == |sets| && k < |labels|
    requires forall i, j :: 0 <= i < j < |labels| ==> labels[i] != labels[j]
    ensures Dedup(labels) == labels
    ensures LastWithLabel(labels, |labels|, k)
  {
    DedupOfDistinct(labels);
  }

  lemma ExampleKeysSorted()
    ensures StrictlySorted(["A", "B", "C", "D"])
  {
  }

  /** Lists {A, B, C} and {B, C, D}: four rows, A to D, and the memberships of each. */
  lemma TwoListExample()
    ensures var sets := [{"A", "B", "C"}, {"B", "C", "D"}];
      var keys := SortedFeatures(Union(sets));
      && keys == ["A", "B", "C", "D"]
      && Indicator(keys, sets[0]) == [1, 1, 1, 0]
      && Indicator(keys, sets[1]) == [0, 1, 1, 1]
  {
    var sets := [{"A", "B", "C"}, {"B", "C", "D"}];
    var keys := ["A", "B", "C", "D"];
    ExampleUnion();
    ExampleKeysSorted();
    SortedFeaturesUnique(Union(sets), keys);
    var c0, c1 := Indicator(keys, sets[0]), Indicator(keys, sets[1]);
    assert c0[0] == 1 && c0[1] == 1 && c0[2] == 1 && c0[3] == 0;
    assert c1[0] == 0 && c1[1] == 1 && c1[2] == 1 && c1[3] == 1;
  }

  lemma ExampleUnion()
    ensures Union([{"A", "B", "C"}, {"B", "C", "D"}]) == {"A", "B", "C", "D"}
  {
  }
}

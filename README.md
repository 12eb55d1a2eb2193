# bioexplorer-tools: verified model of the two viewers' logic

This project models the deterministic logic inside two Streamlit scripts of the
bioexplorer-tools repository and proves what that logic promises.

- **Volcano-plot viewer** (`volcano_plot_app/volcano_plot_with_sliders.py`), module `Volcano`.
  The model covers the separator choice from the uploaded file name and the check for the
  required columns `feature`, `cohen_d` and `adj_pval`. It labels every row `positive`,
  `negative` or `neutral` with numpy's first-match `select` over two threshold tests, counts
  the positive and negative rows, and selects the non-neutral rows for download. A row is
  `Row(feature, cohenD, sig)`, where `sig` stands for the derived column
  `neg_log10_adj_pval`. The model takes it as given.
- **Venn-diagram viewer** (`venn_diagram_app/venn_diagram_app.py`), modules `VennLists` and
  `VennTable`. The model covers the load loop, which names tables `input_1`, `input_2`, ... by
  upload position, and the loop over the three "Define Feature List" expanders that fills
  `feature_lists` and `list_labels`. It also covers the gate on the number of lists, the sorted
  union of the lists, and the membership table with one 0/1 column per list. `df.query` is a
  `Query`: a predicate saying whether evaluation raises on a table, and a predicate saying which
  rows it keeps. A null cell is `None`.
- Support modules: `Wrappers` holds `Option` and `Result`. `Decimal` holds Python's decimal
  printing of an `int`, as in `f"input_{i+1}"`, with its inverse. `StringOrder` holds Python's
  ordering of `str`, which `sorted` uses.

Errors that end a run become `Failure` results:
- a parser error other than `EmptyDataError` while loading the Venn uploads, which the load
  loop does not catch;
- `dataframes[input_file]` when no table was loaded, which is not caught either;
- missing required columns in the volcano viewer. Here nothing is raised: lines 53-54 test the
  columns and show an error, and the processing at lines 55-77 is skipped.

Errors the scripts catch become skipped entries:
- an empty upload;
- a missing feature column;
- a filter that raises.

Two consequences of the Venn code are worth stating:
- The load loop catches only `EmptyDataError` (venn_diagram_app.py:61), so any other parser
  error ends the run (`VennLists.LoadFrames`).
- There are exactly three expanders (venn_diagram_app.py:69), so the "Only 2 to 3" branch
  (venn_diagram_app.py:107) cannot be reached (`VennTable.UnsupportedUnreachable`).

## Model

| member | source | states |
|---|---|---|
| `Volcano.SeparatorFor` | volcano_plot_app/volcano_plot_with_sliders.py:48 | The separator is a tab exactly when the name ends in `.txt` or `.tsv`; otherwise it is a comma. |
| `Volcano.SeparatorByExtension` | volcano_plot_app/volcano_plot_with_sliders.py:48 | For any stem, `.txt` and `.tsv` names get a tab and `.csv` names get a comma. |
| `Volcano.NpSelect` | volcano_plot_app/volcano_plot_with_sliders.py:59-64 | The result is the choice of the first condition that holds, or the default when none holds. |
| `Volcano.GroupOf` | volcano_plot_app/volcano_plot_with_sliders.py:59-64 | Positive iff `cohen_d > x` and `sig > y`. Negative iff not positive, `cohen_d < -x` and `sig > y`. `sig <= y` always gives neutral. When `x >= 0`, negative iff `cohen_d < -x` and `sig > y`, and neutral iff `sig <= y` or `-x <= cohen_d <= x`. |
| `Volcano.Classify` | volcano_plot_app/volcano_plot_with_sliders.py:56-64 | Adding `color_group` keeps the row count, the row order and every row's values, and gives each row its own group. |
| `Volcano.WithGroup` | volcano_plot_app/volcano_plot_with_sliders.py:73-74 | The `== g` mask keeps exactly the rows whose group is `g`, and no more rows than the table has. |
| `Volcano.WithGroupCount` | volcano_plot_app/volcano_plot_with_sliders.py:73-74 | The `== g` selection has one row per position labelled `g`, so repeated rows each count, as `shape[0]` counts them. |
| `Volcano.WithoutGroup` | volcano_plot_app/volcano_plot_with_sliders.py:77 | The `!= g` mask keeps exactly the rows whose group is not `g`. |
| `Volcano.KeptPositionsExact` | volcano_plot_app/volcano_plot_with_sliders.py:77 | The kept positions increase and lie in the table. A position is kept exactly when its group is not `g`. |
| `Volcano.SelectionPositions` | volcano_plot_app/volcano_plot_with_sliders.py:77 | The k-th downloaded row is the unchanged row at the k-th kept position, so the download is an order-preserving filter. |
| `Volcano.CountsAddUp` | volcano_plot_app/volcano_plot_with_sliders.py:73-77 | `positive_n + negative_n` equals the number of rows in the download. |
| `Volcano.Process` | volcano_plot_app/volcano_plot_with_sliders.py:53-77 | It fails exactly when a required column is missing, and then produces nothing else. On success the classified table matches the input row for row, the counts are the sizes of the two selections and the numbers of positions labelled positive and negative, and they add up to the download size. The download is the `!= neutral` selection of the classified table, so it keeps the table's order and repeated rows, and holds exactly the non-neutral rows. |
| `Volcano.DownloadGroupsAreCurrent` | volcano_plot_app/volcano_plot_with_sliders.py:64-77 | Every downloaded row carries the non-neutral group its own values give it, so classifying the download again changes nothing. |
| `Volcano.ThreeRowExample` | volcano_plot_app/volcano_plot_with_sliders.py:53-77 | Rows A (0.6, 3.0), B (-0.7, 2.0) and C (0.1, 0.301) at thresholds 0.2 and 1.3 give counts 1 and 1, and the download is A positive then B negative. |
| `Volcano.MissingColumnRefused` | volcano_plot_app/volcano_plot_with_sliders.py:53-55 | A table without `adj_pval` is refused, whatever its rows. |
| `Decimal.NatToString` | venn_diagram_app/venn_diagram_app.py:55 | The printed number is non-empty, all digits, ends in the units digit, has one digit exactly when `n < 10`, and starts with `0` only for zero, as Python's `str` prints it. |
| `Decimal.ParseNatToString` | venn_diagram_app/venn_diagram_app.py:55 | Parsing the printed number gives it back. |
| `Decimal.NatToStringInjective` | venn_diagram_app/venn_diagram_app.py:55 | Different numbers print differently. |
| `StringOrder.Less` | venn_diagram_app/venn_diagram_app.py:114 | Python's `str` `<`, which `sorted` uses: a string never sorts before itself, and a proper prefix sorts before the longer string. |
| `StringOrder.LessIrreflexive` | venn_diagram_app/venn_diagram_app.py:114 | No string sorts before itself. |
| `StringOrder.LessAsymmetric` | venn_diagram_app/venn_diagram_app.py:114 | Two strings never sort before each other. |
| `StringOrder.LessTransitive` | venn_diagram_app/venn_diagram_app.py:114 | The string order is transitive. |
| `StringOrder.LessTotal` | venn_diagram_app/venn_diagram_app.py:114 | Of two different strings, one sorts first. |
| `StringOrder.LeastExists` | venn_diagram_app/venn_diagram_app.py:114 | Every non-empty set of identifiers has a least element. |
| `StringOrder.StrictlySortedUnique` | venn_diagram_app/venn_diagram_app.py:114 | Two strictly sorted sequences with the same elements are equal. |
| `VennLists.InputNameDigits` | venn_diagram_app/venn_diagram_app.py:55 | `InputName(i)` is `input_` followed by decimal digits, and those digits read back as `i + 1`, the 1-based upload position. |
| `VennLists.InputNameInjective` | venn_diagram_app/venn_diagram_app.py:55 | Different upload positions get different table names. |
| `VennLists.LoadFrames` | venn_diagram_app/venn_diagram_app.py:53-62 | The run fails exactly when an upload raises a parser error other than `EmptyDataError`, and the failure names the first such upload. Otherwise `input_{i+1}` is present exactly for the uploads that parsed, maps to that upload's table, and no other name is present. An empty upload leaves a gap in the names. |
| `VennLists.FeatureValues` | venn_diagram_app/venn_diagram_app.py:87-88 | The list holds exactly the non-null identifiers of the rows the filter keeps, and has at most one entry per row. |
| `VennLists.FeatureSet` | venn_diagram_app/venn_diagram_app.py:87-90 | An identifier is in a feature set iff some kept row has that non-null value in the feature column. |
| `VennLists.ListLabelParts` | venn_diagram_app/venn_diagram_app.py:91 | A list label is the table's name, then `_list`, then decimal digits that read back as the 1-based slot. |
| `VennLists.ListLabelsDistinct` | venn_diagram_app/venn_diagram_app.py:91 | Labels of two different slots below 9 differ, whatever tables the slots read. |
| `VennLists.Contribution` | venn_diagram_app/venn_diagram_app.py:72-93 | One loop iteration appends an entry exactly when the definition is enabled, its column exists and its filter does not raise. The entry is that filter's feature set with the label `{input_file}_list{slot+1}`. |
| `VennLists.Collected` | venn_diagram_app/venn_diagram_app.py:69-93 | The loop appends at most one entry per definition. |
| `VennLists.OriginsExact` | venn_diagram_app/venn_diagram_app.py:69-93 | The contributing slots increase. A slot contributes exactly when it is enabled, its column exists and its filter does not raise. |
| `VennLists.CollectedShape` | venn_diagram_app/venn_diagram_app.py:69-93 | There are no more entries than definitions. Entry k is the set and the label of its slot: sets and labels stay in lockstep. |
| `VennLists.CollectedLabelsDistinct` | venn_diagram_app/venn_diagram_app.py:69-93 | With three expanders, the labels of the collected lists are pairwise distinct. |
| `VennLists.FirstUnresolved` | venn_diagram_app/venn_diagram_app.py:75-76 | It gives the first enabled slot whose table is not loaded. |
| `VennLists.DefineFeatureLists` | venn_diagram_app/venn_diagram_app.py:69-93 | The loop fails exactly when an enabled definition names a table that was not loaded, and the failure names the first such slot. Otherwise `feature_lists` and `list_labels` have equal length and equal the collected entries, position by position. |
| `VennTable.Gate` | venn_diagram_app/venn_diagram_app.py:95-108 | The run stops with "at least 2" exactly when there are fewer than 2 lists, and reaches "Only 2 to 3" exactly when there are more than 3. |
| `VennTable.UnsupportedUnreachable` | venn_diagram_app/venn_diagram_app.py:69-108 | The definition loop yields at most 3 lists, so the "Only 2 to 3" branch is never taken. |
| `VennTable.Union` | venn_diagram_app/venn_diagram_app.py:114 | The union contains every list and nothing outside them. |
| `VennTable.SortedFeatures` | venn_diagram_app/venn_diagram_app.py:114 | The row keys are strictly sorted, hence duplicate-free, and are exactly the elements of the union. |
| `VennTable.SortedFeaturesUnique` | venn_diagram_app/venn_diagram_app.py:114 | Any strictly sorted listing of the union equals the row keys, so `sorted` is pinned down. |
| `VennTable.Indicator` | venn_diagram_app/venn_diagram_app.py:118 | The column has one entry per row key, and entry r is 1 if key r is in the set and 0 otherwise. |
| `VennTable.IndicatorRoundTrip` | venn_diagram_app/venn_diagram_app.py:115-118 | The keys marked 1 in a column are exactly the set the column was made from. |
| `VennTable.EveryRowMarked` | venn_diagram_app/venn_diagram_app.py:114-118 | Every row key belongs to some list and has a 1 in that list's column. |
| `VennTable.Dedup` | venn_diagram_app/venn_diagram_app.py:117-118 | The column order has each assigned name once and no other name. |
| `VennTable.DedupOfDistinct` | venn_diagram_app/venn_diagram_app.py:117-118 | Distinct labels give one column per list, in list order. |
| `VennTable.MembershipTable.constructor` | venn_diagram_app/venn_diagram_app.py:115 | A new table has the given row keys and no columns. |
| `VennTable.MembershipTable.SetMembershipColumn` | venn_diagram_app/venn_diagram_app.py:118 | Assigning a column sets it to the set's indicator over the row keys. A new name is appended to the column order; an existing one is overwritten in place. The row keys are unchanged. |
| `VennTable.ColumnsAfterLastWins` | venn_diagram_app/venn_diagram_app.py:117-118 | After assigning columns in list order, a label's column is the indicator of the last list that bears that label. |
| `VennTable.AssignColumns` | venn_diagram_app/venn_diagram_app.py:117-118 | Assigning every list's column to an empty table leaves the row keys unchanged. The column order becomes the labels in first-assigned order, and the columns are those left by assigning in list order. |
| `VennTable.BuildMembershipTable` | venn_diagram_app/venn_diagram_app.py:114-118 | The row keys are the sorted union. The columns are the labels in first-assigned order. Each label's column is the indicator of the last list bearing that label. |
| `VennTable.Visualize` | venn_diagram_app/venn_diagram_app.py:95-118 | The branch taken is the gate's. A table is built exactly for 2 or 3 lists, so fewer than 2 stop the run before any table exists. A built table has the sorted union as row keys, the labels in first-assigned order as columns, and each label's column is the indicator of the last list bearing that label. |
| `VennTable.ColumnsOfDistinctLabels` | venn_diagram_app/venn_diagram_app.py:117-118 | When the labels are distinct, the column order is the label order and every list's column is its own indicator. |
| `VennTable.TwoListExample` | venn_diagram_app/venn_diagram_app.py:114-118 | Lists {A,B,C} and {B,C,D} give row keys A, B, C, D and columns 1110 and 0111. |

## Left out

- Streamlit widgets, the sidebar, `session_state`, reruns, the reset and example-data buttons, and `st.stop` are UI plumbing. Only the gate conditions they produce are modelled.
- Extending and appending to `uploaded_files` (venn_diagram_app.py lines 27, 39, 46) and the "at least 1 file" warning (lines 48-50) are session-state handling. The load loop takes the resulting upload list as its input.
- Reading uploads with `pd.read_csv`, the bundled test files, `BytesIO` and `seek` are file I/O and a library parser. An upload's parse result is an input (`ParseOutcome`), and the volcano table arrives already parsed.
- `-np.log10(adj_pval)` is a floating-point transcendental, so `sig` is a given real. Reals are exact, so the model has no NaN or infinity. In the source, an NA cell or a negative `adj_pval` gives NaN, every comparison with NaN is false, and such a row is neutral. `adj_pval == 0` gives `+inf`, which passes the `> y_thresh` test; the model covers that only as a large `sig`.
- A non-numeric text cell in `adj_pval` or `cohen_d` is a dropped error path. pandas then reads the column as strings, so `-np.log10` at line 56 or the comparisons at lines 60-61 raise `TypeError` and the run ends. The model's rows carry numbers only, so `Volcano.Process` never fails for this reason.
- `df.query(condition)` evaluates arbitrary Python. It is modelled as an opaque `Query` that may raise.
- `.astype(str)` on non-string identifiers is not modelled: identifier cells are strings already.
- The volcano script adds `neg_log10_adj_pval` and `color_group` to the DataFrame in place. The model returns the classified rows as a new sequence instead, so it does not capture aliasing of that DataFrame.
- Plot rendering is display-only work done by foreign charting libraries. This covers plotly (scatter, layout, colours, axis ranges, count annotations) and `venn2`/`venn3`/matplotlib, including the overlap regions they draw.
- CSV encoding of both downloads (`to_csv().encode`) is library serialisation. `VennTable.IndicatorRoundTrip` states the membership round trip at the level of the table's values.
- The "Filtered N features" message and the other `st.error`, `st.warning` and `st.success` texts are display only.
- The selectbox's limit on table names is not modelled: a definition may name any string. The selectbox offers only loaded names, so in the source a lookup miss happens only when no table was loaded and the selectbox returns `None`.

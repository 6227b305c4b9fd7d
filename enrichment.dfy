/** `cleavage_enrichment.py`: the request handling of the analysis backend.
    It covers the FASTA lookup, the metadata groups, the metadata filter and
    the per-group loop of `plot_data`. It also covers the argument checks of
    `heatmap_data` and `barplot_data`, the reference-mode split and the
    `get_plot` dispatch. Reading the uploaded files, pandas' merge and
    groupby, `calculate_count_sum` and the figure builders are outside the
    model; they enter as parameters. */
module Enrichment {
  import opened Common
  import Data

  /** Form values, as the backend's constants spell them. */
  const IntensityMetric := "intensity"
  const CountMetric := "count"
  const IntensityCountMetric := "intensity_count"
  const BySample := "sample"
  const Median := "median"
  const ProteinIdColumn := "Protein ID"
  const HeatmapPlot := "heatmap"
  const BarplotPlot := "barplot"

  /** A value Python treats as true: present and not the empty string. */
  predicate Truthy(s: Option<string>) {
    s.Some? && s.value != ""
  }

  // ---------------------------------------------------------------------
  // FASTA lookup

  datatype FastaRow = FastaRow(id: Option<string>, sequence: string)

  /** `fastadata[fastadata[ID] == protein_id]`: the FASTA rows whose id is
      `id`, each as often as in the table and in table order. */
  function WithId(fasta: seq<FastaRow>, id: string): (r: seq<FastaRow>)
    ensures forall row :: row in r <==> row in fasta && row.id == Some(id)
    ensures forall row: FastaRow :: row.id == Some(id) ==> multiset(r)[row] == multiset(fasta)[row]
    ensures IsSubseq(r, fasta)
  {
    Filter(HasId(id), fasta)
  }

  function HasId(id: string): FastaRow -> bool {
    (row: FastaRow) => row.id == Some(id)
  }

  /** `getProteinSequence`: the sequence of the one FASTA entry with this
      id; a ValueError when there is none or more than one. */
  function GetProteinSequence(fasta: seq<FastaRow>, id: string): (r: Result<string>)
    ensures r.Ok? <==> |WithId(fasta, id)| == 1
    ensures (forall row :: row in fasta ==> row.id != Some(id)) ==> r.Err?
    ensures r.Ok? ==> FastaRow(Some(id), r.value) in fasta
    ensures r.Ok? ==> forall row :: row in fasta && row.id == Some(id) ==> row.sequence == r.value
  {
    var found := WithId(fasta, id);
    if found == [] then Err("ValueError: protein id not found in FASTA data")
    else if |found| > 1 then Err("ValueError: multiple FASTA entries for protein id")
    else
      assert found == [found[0]];
      Ok(found[0].sequence)
  }

  /** Two FASTA entries with the same id, equal or not, make the lookup
      fail. */
  lemma DuplicateIdFails(fasta: seq<FastaRow>, id: string, i: nat, j: nat)
    requires i < j < |fasta| && fasta[i].id == Some(id) && fasta[j].id == Some(id)
    ensures GetProteinSequence(fasta, id).Err?
  {
    TwoMatchesCounted(fasta, id, i, j);
  }

  /** Two matching positions give two rows in `WithId`. */
  lemma {:induction false} TwoMatchesCounted(fasta: seq<FastaRow>, id: string, i: nat, j: nat)
    requires i < j < |fasta| && fasta[i].id == Some(id) && fasta[j].id == Some(id)
    ensures |WithId(fasta, id)| >= 2
  {
    var rest := fasta[1..];
    assert rest[j - 1] == fasta[j];
    if i == 0 {
      assert rest[j - 1] in WithId(rest, id);
      assert WithId(fasta, id) == [fasta[0]] + WithId(rest, id);
    } else {
      assert rest[i - 1] == fasta[i];
      TwoMatchesCounted(rest, id, i - 1, j - 1);
    }
  }

  /** Exactly one FASTA row with the id: the lookup returns its sequence. */
  lemma UniqueIdSucceeds(fasta: seq<FastaRow>, id: string, i: nat)
    requires i < |fasta| && fasta[i].id == Some(id)
    requires forall j :: 0 <= j < |fasta| && j != i ==> fasta[j].id != Some(id)
    ensures GetProteinSequence(fasta, id) == Ok(fasta[i].sequence)
  {
    var p := HasId(id);
    var before, after := fasta[..i], fasta[i + 1..];
    assert fasta == before + ([fasta[i]] + after);
    forall k | 0 <= k < |before| ensures !p(before[k]) {
      assert before[k] == fasta[k];
    }
    forall k | 0 <= k < |after| ensures !p(after[k]) {
      assert after[k] == fasta[i + 1 + k];
    }
    FilterNone(p, before);
    FilterNone(p, after);
    FilterCons(p, fasta[i], after);
    FilterAppend(p, before, [fasta[i]] + after);
    assert WithId(fasta, id) == [fasta[i]];
  }

  /** `getProteins`: the protein search over the peptide table's id column. */
  function GetProteins(peptideIds: seq<Option<string>>, filter: string, count: int): (r: seq<string>)
    ensures count >= 0 ==> |r| <= count
    ensures NoDuplicates(r)
    ensures forall x :: x in r ==> Some(x) in peptideIds && ContainsIgnoreCase(x, filter)
  {
    Data.GetProteins(peptideIds, filter, count)
  }

  // ---------------------------------------------------------------------
  // Metadata

  /** The metadata table: its column names and its rows, each a map from
      column name to cell (None for NaN). */
  datatype Metadata = Metadata(columns: seq<string>, rows: seq<map<string, Option<string>>>)

  function Cell(row: map<string, Option<string>>, column: string): Option<string> {
    if column in row then row[column] else None
  }

  function ColumnValues(rows: seq<map<string, Option<string>>>, column: string): (r: seq<Option<string>>)
    ensures |r| == |rows| && forall i :: 0 <= i < |r| ==> r[i] == Cell(rows[i], column)
  {
    seq(|rows|, i requires 0 <= i < |rows| => Cell(rows[i], column))
  }

  /** `dropna().unique()` of one column. */
  function DistinctValues(rows: seq<map<string, Option<string>>>, column: string): (r: seq<string>)
    ensures NoDuplicates(r)
    ensures forall v :: v in r <==> exists row :: row in rows && Cell(row, column) == Some(v)
    ensures InAppearanceOrder(r, Somes(ColumnValues(rows, column)))
  {
    var values := ColumnValues(rows, column);
    forall row | row in rows ensures Cell(row, column) in values {
      var i :| 0 <= i < |rows| && rows[i] == row;
      assert values[i] == Cell(row, column);
    }
    Unique(Somes(values))
  }

  /** `get_metadata_groups`: for every column, its distinct non-missing
      values. */
  method GetMetadataGroups(metadata: Metadata) returns (groups: map<string, seq<string>>)
    ensures groups.Keys == set c | c in metadata.columns
    ensures forall c :: c in groups ==> groups[c] == DistinctValues(metadata.rows, c)
    ensures forall c :: c in groups ==> NoDuplicates(groups[c])
    ensures forall c, v :: c in groups ==>
              (v in groups[c] <==> exists row :: row in metadata.rows && Cell(row, c) == Some(v))
  {
    groups := map[];
    for k := 0 to |metadata.columns|
      invariant groups.Keys == set c | c in metadata.columns[..k]
      invariant forall c :: c in groups ==> groups[c] == DistinctValues(metadata.rows, c)
    {
      var column := metadata.columns[k];
      groups := groups[column := DistinctValues(metadata.rows, column)];
      assert metadata.columns[..k + 1] == metadata.columns[..k] + [column];
    }
    assert metadata.columns[..|metadata.columns|] == metadata.columns;
  }

  /** The metadata filter is a dictionary from column name to the values to
      keep. */
  type MetadataFilter = seq<(string, seq<string>)>

  /** A filter entry takes effect when its column exists and its value list
      is non-empty. */
  predicate Applies(columns: seq<string>, f: (string, seq<string>)) {
    f.0 in columns && f.1 != []
  }

  /** `metadata[key].isin(values)`: a missing cell never matches. */
  predicate MatchesEntry(row: map<string, Option<string>>, f: (string, seq<string>)) {
    Cell(row, f.0).Some? && Cell(row, f.0).value in f.1
  }

  function KeepMatching(rows: seq<map<string, Option<string>>>, f: (string, seq<string>)): (r: seq<map<string, Option<string>>>)
    ensures forall row :: row in r <==> row in rows && MatchesEntry(row, f)
    ensures forall row: map<string, Option<string>> :: MatchesEntry(row, f) ==> multiset(r)[row] == multiset(rows)[row]
    ensures IsSubseq(r, rows)
  {
    Filter(row => MatchesEntry(row, f), rows)
  }

  /** The metadata rows left after the filter entries in order. */
  function Filtered(columns: seq<string>, rows: seq<map<string, Option<string>>>, filters: MetadataFilter): seq<map<string, Option<string>>>
  {
    if filters == [] then rows
    else
      var before := Filtered(columns, rows, filters[..|filters| - 1]);
      var f := filters[|filters| - 1];
      if Applies(columns, f) then KeepMatching(before, f) else before
  }

  /** The filter loop of `plot_data`. */
  method FilterMetadata(metadata: Metadata, filters: MetadataFilter) returns (rows: seq<map<string, Option<string>>>)
    ensures rows == Filtered(metadata.columns, metadata.rows, filters)
  {
    rows := metadata.rows;
    for k := 0 to |filters|
      invariant rows == Filtered(metadata.columns, metadata.rows, filters[..k])
    {
      var f := filters[k];
      assert filters[..k + 1][..k] == filters[..k];
      if f.0 in metadata.columns {
        if f.1 != [] {
          rows := KeepMatching(rows, f);
        }
      }
    }
    assert filters[..|filters|] == filters;
  }

  /** The row matches every filter entry that takes effect. */
  predicate Survives(columns: seq<string>, filters: MetadataFilter, row: map<string, Option<string>>) {
    forall f :: f in filters && Applies(columns, f) ==> MatchesEntry(row, f)
  }

  /** A row survives the filter iff it matches every entry that takes
      effect; the survivors keep their order and each is kept as often as
      it occurs in the table. */
  lemma {:induction false} FilteredMeaning(columns: seq<string>, rows: seq<map<string, Option<string>>>, filters: MetadataFilter)
    ensures forall row :: row in Filtered(columns, rows, filters) <==> row in rows && Survives(columns, filters, row)
    ensures forall row :: Survives(columns, filters, row) ==>
              multiset(Filtered(columns, rows, filters))[row] == multiset(rows)[row]
    ensures IsSubseq(Filtered(columns, rows, filters), rows)
  {
    if filters == [] {
      SubseqRefl(rows);
    } else {
      var init := filters[..|filters| - 1];
      var f := filters[|filters| - 1];
      FilteredMeaning(columns, rows, init);
      assert forall g :: g in filters <==> g in init || g == f by {
        assert filters == init + [f];
      }
      var before := Filtered(columns, rows, init);
      if Applies(columns, f) {
        SubseqTrans(KeepMatching(before, f), before, rows);
      }
    }
  }

  // ---------------------------------------------------------------------
  // The per-group loop of plot_data

  /** One group of `groupby([Protein ID, group_by])`: its protein and its
      value of the `group_by` column. */
  datatype PlotGroup = PlotGroup(proteinId: string, key: string)

  /** A labelled row of an output frame. */
  datatype FrameRow = FrameRow(index: string, values: seq<real>)

  type Frame = seq<FrameRow>

  /** `calculate_count_sum(sequence, group, aggregation)`: the count and the
      intensity row of one group. */
  type CountSum = (string, PlotGroup, string) -> (seq<real>, seq<real>)

  /** The row label: "protein - key" when several proteins are plotted and
      the grouping column is not the protein id, the key alone otherwise. */
  function Label(g: PlotGroup, proteinCount: nat, groupBy: string): string {
    if proteinCount > 1 && groupBy != ProteinIdColumn then g.proteinId + " - " + g.key else g.key
  }

  /** One iteration: the intensity row and the count row of a group. */
  function GroupRows(fasta: seq<FastaRow>, proteinCount: nat, groupBy: string, aggregation: string,
                     countSum: CountSum): PlotGroup -> Result<(FrameRow, FrameRow)>
  {
    (g: PlotGroup) => match GetProteinSequence(fasta, g.proteinId)
           case Err(e) => Err(e)
           case Ok(sequence) =>
             var rows := countSum(sequence, g, aggregation);
             var tag := Label(g, proteinCount, groupBy);
             Ok((FrameRow(tag, rows.1), FrameRow(tag, rows.0)))
  }

  function Firsts<A, B>(pairs: seq<(A, B)>): (r: seq<A>)
    ensures |r| == |pairs| && forall i :: 0 <= i < |r| ==> r[i] == pairs[i].0
  {
    seq(|pairs|, i requires 0 <= i < |pairs| => pairs[i].0)
  }

  function Seconds<A, B>(pairs: seq<(A, B)>): (r: seq<B>)
    ensures |r| == |pairs| && forall i :: 0 <= i < |r| ==> r[i] == pairs[i].1
  {
    seq(|pairs|, i requires 0 <= i < |pairs| => pairs[i].1)
  }

  lemma PairsSnoc<A, B>(pairs: seq<(A, B)>, x: (A, B))
    ensures Firsts(pairs + [x]) == Firsts(pairs) + [x.0]
    ensures Seconds(pairs + [x]) == Seconds(pairs) + [x.1]
  {
    assert Firsts(pairs + [x]) == Firsts(pairs) + [x.0] by {
      assert forall i :: 0 <= i < |pairs| ==> (pairs + [x])[i] == pairs[i];
    }
    assert Seconds(pairs + [x]) == Seconds(pairs) + [x.1] by {
      assert forall i :: 0 <= i < |pairs| ==> (pairs + [x])[i] == pairs[i];
    }
  }

  /** The intensity frame and the count frame of `plot_data`. */
  function PlotFramesOf(groups: seq<PlotGroup>, fasta: seq<FastaRow>, proteinCount: nat, groupBy: string,
                        aggregation: string, countSum: CountSum): Result<(Frame, Frame)>
  {
    match MapAll(groups, GroupRows(fasta, proteinCount, groupBy, aggregation, countSum))
      case Err(e) => Err(e)
      case Ok(pairs) => Ok((Firsts(pairs), Seconds(pairs)))
  }

  /** The loop over the groups of `plot_data`. */
  method PlotFrames(groups: seq<PlotGroup>, fasta: seq<FastaRow>, proteinCount: nat, groupBy: string,
                    aggregation: string, countSum: CountSum) returns (r: Result<(Frame, Frame)>)
    ensures r == PlotFramesOf(groups, fasta, proteinCount, groupBy, aggregation, countSum)
  {
    var one := GroupRows(fasta, proteinCount, groupBy, aggregation, countSum);
    var intensity: Frame := [];
    var count: Frame := [];
    ghost var pairs: seq<(FrameRow, FrameRow)> := [];
    for k := 0 to |groups|
      invariant MapAll(groups[..k], one) == Ok(pairs)
      invariant intensity == Firsts(pairs) && count == Seconds(pairs)
    {
      var g := groups[k];
      var sequence := GetProteinSequence(fasta, g.proteinId);
      if sequence.Err? {
        assert one(g) == Err(sequence.msg);
        MapAllSnoc(groups, k, one, pairs);
        MapAllErrPersists(groups, k + 1, one);
        return Err(sequence.msg);
      }
      var rows := countSum(sequence.value, g, aggregation);
      var tag := Label(g, proteinCount, groupBy);
      assert one(g) == Ok((FrameRow(tag, rows.1), FrameRow(tag, rows.0)));
      MapAllSnoc(groups, k, one, pairs);
      PairsSnoc(pairs, (FrameRow(tag, rows.1), FrameRow(tag, rows.0)));
      intensity := intensity + [FrameRow(tag, rows.1)];
      count := count + [FrameRow(tag, rows.0)];
      pairs := pairs + [(FrameRow(tag, rows.1), FrameRow(tag, rows.0))];
    }
    assert groups[..|groups|] == groups;
    r := Ok((intensity, count));
  }

  /** The frames have one row per group, labelled by the label rule, the
      intensity frame holding the group's intensity row and the count frame
      its count row; the loop fails exactly when some group's protein has no
      unique FASTA entry. */
  lemma PlotFramesMeaning(groups: seq<PlotGroup>, fasta: seq<FastaRow>, proteinCount: nat, groupBy: string,
                          aggregation: string, countSum: CountSum)
    ensures var r := PlotFramesOf(groups, fasta, proteinCount, groupBy, aggregation, countSum);
            r.Ok? ==> |r.value.0| == |groups| && |r.value.1| == |groups| &&
                      forall i :: 0 <= i < |groups| ==>
                        GetProteinSequence(fasta, groups[i].proteinId).Ok? &&
                        var rows := countSum(GetProteinSequence(fasta, groups[i].proteinId).value, groups[i], aggregation);
                        r.value.0[i] == FrameRow(Label(groups[i], proteinCount, groupBy), rows.1) &&
                        r.value.1[i] == FrameRow(Label(groups[i], proteinCount, groupBy), rows.0)
    ensures PlotFramesOf(groups, fasta, proteinCount, groupBy, aggregation, countSum).Err? <==>
              exists i :: 0 <= i < |groups| && GetProteinSequence(fasta, groups[i].proteinId).Err?
  {
    var one := GroupRows(fasta, proteinCount, groupBy, aggregation, countSum);
    MapAllAligned(groups, one);
    var m := MapAll(groups, one);
    if m.Ok? {
      forall i | 0 <= i < |groups| ensures GetProteinSequence(fasta, groups[i].proteinId).Ok? {
        assert one(groups[i]).Ok?;
      }
    }
  }

  /** With one protein the labels are the group keys themselves. */
  lemma SingleProteinLabels(groups: seq<PlotGroup>, fasta: seq<FastaRow>, groupBy: string,
                            aggregation: string, countSum: CountSum)
    ensures var r := PlotFramesOf(groups, fasta, 1, groupBy, aggregation, countSum);
            r.Ok? ==> |r.value.0| == |groups| && forall i :: 0 <= i < |groups| ==> r.value.0[i].index == groups[i].key
  {
    PlotFramesMeaning(groups, fasta, 1, groupBy, aggregation, countSum);
  }

  /** `plot_data` after the merge and groupby: it returns the intensity
      frame and the count frame, or the first FASTA lookup error. */
  type PlotDataFn = (seq<string>, string, string) -> Result<(Frame, Frame)>

  // ---------------------------------------------------------------------
  // heatmap_data

  datatype HeatmapArgs = HeatmapArgs(
    proteins: seq<string>, aggregation: Option<string>, metric: Option<string>,
    groupBy: Option<string>, dendrogram: bool)

  /** A request that passed the checks, with the aggregation default filled
      in. */
  datatype HeatmapRequest = HeatmapRequest(protein: string, aggregation: string, metric: string, groupBy: string)

  /** The argument checks of `heatmap_data`, in the order the source makes
      them. */
  function CheckHeatmap(a: HeatmapArgs): (r: Result<HeatmapRequest>)
    ensures r.Ok? <==> (|a.proteins| == 1 && a.groupBy.Some? && a.metric.Some? &&
                        (a.metric.value == IntensityMetric || a.metric.value == CountMetric) &&
                        (a.aggregation.Some? || a.groupBy.value == BySample || a.metric.value == CountMetric))
    ensures r.Ok? ==> r.value.protein == a.proteins[0] && r.value.metric == a.metric.value &&
                      r.value.groupBy == a.groupBy.value
    ensures r.Ok? && Truthy(a.aggregation) ==> r.value.aggregation == a.aggregation.value
    ensures r.Ok? && !Truthy(a.aggregation) && (a.groupBy.value == BySample || a.metric.value == CountMetric) ==>
              r.value.aggregation == Median
    ensures r.Ok? && !Truthy(a.aggregation) && a.groupBy.value != BySample && a.metric.value != CountMetric ==>
              r.value.aggregation == ""
  {
    if a.proteins == [] then Err("ValueError: no protein specified")
    else if |a.proteins| > 1 then Err("ValueError: multiple proteins specified")
    else if a.groupBy.None? then Err("ValueError: no group_by specified")
    else if a.metric.None? then Err("ValueError: no metric specified")
    else if a.metric.value != IntensityMetric && a.metric.value != CountMetric then Err("ValueError: unknown heatmap metric")
    else
      var groupBy := a.groupBy.value;
      var metric := a.metric.value;
      var aggregation :=
        if !Truthy(a.aggregation) && (groupBy == BySample || metric == CountMetric) then Some(Median)
        else a.aggregation;
      if !Truthy(aggregation) && groupBy != BySample && metric != IntensityMetric then
        Err("ValueError: no aggregation method specified")
      else if aggregation.None? then Err("ValueError: no aggregation method specified")
      else Ok(HeatmapRequest(a.proteins[0], aggregation.value, metric, groupBy))
  }

  /** The second aggregation check can never fire: after the median default,
      a missing aggregation is left only with the intensity metric. */
  lemma SecondAggregationCheckIsDead(a: HeatmapArgs)
    requires a.metric.Some? && (a.metric.value == IntensityMetric || a.metric.value == CountMetric)
    requires a.groupBy.Some?
    ensures var aggregation :=
              if !Truthy(a.aggregation) && (a.groupBy.value == BySample || a.metric.value == CountMetric) then Some(Median)
              else a.aggregation;
            !(!Truthy(aggregation) && a.groupBy.value != BySample && a.metric.value != IntensityMetric)
  {
  }

  datatype HeatmapData = HeatmapData(df: Frame, name: string, ylabel: string, zlabel: string, dendrogram: bool)

  /** `heatmap_data`: the checks, then the frame the metric selects. */
  function HeatmapDataOf(a: HeatmapArgs, plot: PlotDataFn): (r: Result<HeatmapData>)
    ensures CheckHeatmap(a).Err? ==> r == Err(CheckHeatmap(a).msg)
    ensures CheckHeatmap(a).Ok? ==>
              var req := CheckHeatmap(a).value;
              var frames := plot([req.protein], req.aggregation, req.groupBy);
              (r.Ok? <==> frames.Ok?) && (frames.Err? ==> r == Err(frames.msg))
    ensures r.Ok? ==> CheckHeatmap(a).Ok? &&
                      var req := CheckHeatmap(a).value;
                      var frames := plot([req.protein], req.aggregation, req.groupBy);
                      frames.Ok? &&
                      r.value.name == "Heatmap for " + req.protein && r.value.ylabel == req.groupBy &&
                      r.value.dendrogram == a.dendrogram &&
                      (req.metric == IntensityMetric ==> r.value.zlabel == "Intensity" && r.value.df == frames.value.0) &&
                      (req.metric == CountMetric ==> r.value.zlabel == "Count" && r.value.df == frames.value.1)
  {
    match CheckHeatmap(a)
      case Err(e) => Err(e)
      case Ok(req) =>
        match plot([req.protein], req.aggregation, req.groupBy)
          case Err(e) => Err(e)
          case Ok(frames) =>
            var name := "Heatmap for " + req.protein;
            if req.metric == IntensityMetric then Ok(HeatmapData(frames.0, name, req.groupBy, "Intensity", a.dendrogram))
            else Ok(HeatmapData(frames.1, name, req.groupBy, "Count", a.dendrogram))
  }

  // ---------------------------------------------------------------------
  // barplot_data

  datatype BarplotArgs = BarplotArgs(
    groupBy: Option<string>, proteins: seq<string>, aggregation: Option<string>,
    metric: Option<string>, reference: Option<string>)

  datatype BarplotData = BarplotData(
    title: string, posDf: Option<Frame>, negDf: Option<Frame>, legendPos: string,
    legendNeg: string, ylabel: string, metric: string, referenceMode: bool)

  /** Reference mode: a reference group is given and the metric is not the
      intensity-and-count pair. */
  predicate ReferenceMode(a: BarplotArgs) {
    a.reference.Some? && a.metric != Some(IntensityCountMetric)
  }

  function Labels(df: Frame): (r: seq<string>)
    ensures |r| == |df| && forall i :: 0 <= i < |r| ==> r[i] == df[i].index
  {
    seq(|df|, i requires 0 <= i < |df| => df[i].index)
  }

  /** `df.loc[reference]`, read as the first row with that label. */
  function RowLabelled(df: Frame, reference: string): (r: FrameRow)
    requires reference in Labels(df)
    ensures r in df && r.index == reference
  {
    if df[0].index == reference then df[0]
    else
      assert reference in Labels(df[1..]) by {
        var i :| 0 <= i < |df| && Labels(df)[i] == reference;
        assert Labels(df[1..])[i - 1] == reference;
      }
      RowLabelled(df[1..], reference)
  }

  /** The reference split: the frame without the reference row, and the
      reference row repeated once per remaining row (`len(df) - 1` times);
      a KeyError when no row has the reference label. */
  function SplitReference(df: Frame, reference: string): (r: Result<(Frame, Frame)>)
    ensures r.Err? <==> reference !in Labels(df)
    ensures r.Ok? ==> forall row :: row in r.value.0 <==> row in df && row.index != reference
    ensures r.Ok? ==> IsSubseq(r.value.0, df)
    ensures r.Ok? ==> |r.value.1| == |df| - 1 &&
                      forall i :: 0 <= i < |r.value.1| ==> r.value.1[i] == RowLabelled(df, reference)
  {
    if reference !in Labels(df) then Err("KeyError")
    else Ok((Filter(NotLabelled(reference), df), Repeat(RowLabelled(df, reference), |df| - 1)))
  }

  function NotLabelled(reference: string): FrameRow -> bool {
    (row: FrameRow) => row.index != reference
  }

  /** With distinct labels both sides of the split have the same number of
      rows, so every bar has its reference bar. */
  lemma SplitReferenceAligned(df: Frame, reference: string)
    requires NoDuplicates(Labels(df)) && reference in Labels(df)
    ensures var r := SplitReference(df, reference);
            r.Ok? && |r.value.0| == |r.value.1|
  {
    DropsOneRow(df, reference);
  }

  lemma {:induction false} DropsOneRow(df: Frame, reference: string)
    requires NoDuplicates(Labels(df)) && reference in Labels(df)
    ensures |Filter(NotLabelled(reference), df)| == |df| - 1
  {
    var rest := df[1..];
    FilterCons(NotLabelled(reference), df[0], rest);
    assert df == [df[0]] + rest;
    TailLabels(df, reference);
    if df[0].index == reference {
      FilterAll(NotLabelled(reference), rest);
    } else {
      DropsOneRow(rest, reference);
    }
  }

  /** Distinct labels stay distinct in the tail; the reference is either the
      head's label, absent from the tail, or a label of the tail. */
  lemma TailLabels(df: Frame, reference: string)
    requires NoDuplicates(Labels(df)) && reference in Labels(df)
    ensures NoDuplicates(Labels(df[1..]))
    ensures df[0].index == reference ==> forall k :: 0 <= k < |df[1..]| ==> NotLabelled(reference)(df[1..][k])
    ensures df[0].index != reference ==> reference in Labels(df[1..])
  {
    var rest := df[1..];
    assert Labels(rest) == Labels(df)[1..];
    DistinctTail(Labels(df));
    if df[0].index == reference {
      forall k | 0 <= k < |rest| ensures NotLabelled(reference)(rest[k]) {
        assert Labels(rest)[k] in Labels(df)[1..];
      }
    } else {
      var i :| 0 <= i < |df| && Labels(df)[i] == reference;
      assert Labels(rest)[i - 1] == reference;
    }
  }

  /** The output for the intensity and count metrics: in reference mode the
      split, otherwise the whole frame on the positive side. */
  function WithReference(out: BarplotData, df: Frame, referenceMode: bool, reference: Option<string>): Result<BarplotData>
    requires referenceMode ==> reference.Some?
  {
    if referenceMode then
      match SplitReference(df, reference.value)
        case Err(e) => Err(e)
        case Ok(split) => Ok(out.(posDf := Some(split.0), negDf := Some(split.1)))
    else Ok(out.(posDf := Some(df)))
  }

  /** `barplot_data`. */
  function BarplotDataOf(a: BarplotArgs, plot: PlotDataFn): (r: Result<BarplotData>)
    ensures (a.proteins == [] || !Truthy(a.groupBy) || !Truthy(a.aggregation) || !Truthy(a.metric)) ==> r.Err?
    ensures a.proteins != [] && Truthy(a.groupBy) && Truthy(a.aggregation) && Truthy(a.metric) ==>
              var frames := plot(a.proteins, a.aggregation.value, a.groupBy.value);
              && (frames.Err? ==> r == Err(frames.msg))
              && (frames.Ok? ==>
                    var df := if a.metric == Some(IntensityMetric) then frames.value.0 else frames.value.1;
                    (r.Ok? <==> !(ReferenceMode(a) && a.metric in {Some(IntensityMetric), Some(CountMetric)}) ||
                                a.reference.value in Labels(df)))
    ensures r.Ok? ==> a.proteins != [] && Truthy(a.groupBy) && Truthy(a.aggregation) && Truthy(a.metric) &&
                      plot(a.proteins, a.aggregation.value, a.groupBy.value).Ok?
    ensures r.Ok? ==> r.value.referenceMode == ReferenceMode(a) && r.value.title == "Barplot"
    ensures r.Ok? && a.metric == Some(CountMetric) ==>
              r.value.legendPos == "Count of reference" && r.value.legendNeg == ""
    ensures r.Ok? && a.metric == Some(IntensityMetric) ==>
              r.value.legendPos == "Intensity" && r.value.legendNeg == "Intensity of reference"
    ensures r.Ok? && a.metric == Some(IntensityCountMetric) ==>
              r.value.legendPos == "Intensity" && r.value.legendNeg == "Count"
    ensures r.Ok? && a.metric !in {Some(IntensityMetric), Some(CountMetric), Some(IntensityCountMetric)} ==>
              r.value.posDf == None && r.value.negDf == None && r.value.legendPos == "" && r.value.legendNeg == ""
    ensures r.Ok? && a.metric == Some(IntensityCountMetric) ==>
              r.value.posDf == Some(plot(a.proteins, a.aggregation.value, a.groupBy.value).value.0) &&
              r.value.negDf == Some(plot(a.proteins, a.aggregation.value, a.groupBy.value).value.1)
    ensures r.Ok? && !ReferenceMode(a) && a.metric == Some(IntensityMetric) ==>
              r.value.posDf == Some(plot(a.proteins, a.aggregation.value, a.groupBy.value).value.0) &&
              r.value.negDf == None
    ensures r.Ok? && !ReferenceMode(a) && a.metric == Some(CountMetric) ==>
              r.value.posDf == Some(plot(a.proteins, a.aggregation.value, a.groupBy.value).value.1) &&
              r.value.negDf == None
  {
    if a.proteins == [] then Err("ValueError: no proteins specified")
    else if !Truthy(a.groupBy) then Err("ValueError: no group_by specified")
    else if !Truthy(a.aggregation) then Err("ValueError: no aggregation method specified")
    else if !Truthy(a.metric) then Err("ValueError: no metric specified")
    else
      match plot(a.proteins, a.aggregation.value, a.groupBy.value)
        case Err(e) => Err(e)
        case Ok(frames) =>
          var referenceMode := ReferenceMode(a);
          var out := BarplotData("Barplot", None, None, "", "", "", "", referenceMode);
          var metric := a.metric.value;
          if metric == IntensityCountMetric then
            Ok(out.(posDf := Some(frames.0), negDf := Some(frames.1), legendPos := "Intensity", legendNeg := "Count"))
          else if metric == IntensityMetric then
            WithReference(out.(legendPos := "Intensity", legendNeg := "Intensity of reference"), frames.0, referenceMode, a.reference)
          else if metric == CountMetric then
            WithReference(out.(legendPos := "Count of reference"), frames.1, referenceMode, a.reference)
          else Ok(out)
  }

  /** In reference mode, for the intensity metric (on the intensity frame)
      and the count metric (on the count frame), the positive frame keeps
      every row but the reference rows and the negative frame repeats the
      reference row once per remaining row. */
  lemma ReferenceModeSplits(a: BarplotArgs, plot: PlotDataFn)
    requires ReferenceMode(a) && (a.metric == Some(IntensityMetric) || a.metric == Some(CountMetric))
    requires BarplotDataOf(a, plot).Ok?
    ensures var out := BarplotDataOf(a, plot).value;
            var frames := plot(a.proteins, a.aggregation.value, a.groupBy.value).value;
            var df := if a.metric == Some(IntensityMetric) then frames.0 else frames.1;
            && a.reference.value in Labels(df)
            && out.posDf.Some? && out.negDf.Some?
            && (forall row :: row in out.posDf.value <==> row in df && row.index != a.reference.value)
            && IsSubseq(out.posDf.value, df)
            && |out.negDf.value| == |df| - 1
            && (forall k :: 0 <= k < |out.negDf.value| ==> out.negDf.value[k] == RowLabelled(df, a.reference.value))
  {
  }

  // ---------------------------------------------------------------------
  // get_plot

  /** What `get_plot` returns: no figure (`[]`) or the data a figure is
      built from. */
  datatype Figure = NoFigure | HeatmapFigure(heatmap: HeatmapData) | BarplotFigure(barplot: BarplotData)

  /** `get_plot`: dispatch on the plot type. */
  function GetPlot(plotType: Option<string>, heatmap: HeatmapArgs, barplot: BarplotArgs, plot: PlotDataFn): (r: Result<Figure>)
    ensures !Truthy(plotType) ==> r == Ok(NoFigure)
    ensures Truthy(plotType) && plotType.value != HeatmapPlot && plotType.value != BarplotPlot ==> r == Ok(NoFigure)
    ensures plotType == Some(HeatmapPlot) ==>
              (r.Ok? <==> HeatmapDataOf(heatmap, plot).Ok?) &&
              (r.Ok? ==> r.value == HeatmapFigure(HeatmapDataOf(heatmap, plot).value))
    ensures plotType == Some(BarplotPlot) ==>
              (r.Ok? <==> BarplotDataOf(barplot, plot).Ok?) &&
              (r.Ok? ==> r.value == BarplotFigure(BarplotDataOf(barplot, plot).value))
  {
    if !Truthy(plotType) then Ok(NoFigure)
    else if plotType.value == HeatmapPlot then
      match HeatmapDataOf(heatmap, plot)
        case Err(e) => Err(e)
        case Ok(d) => Ok(HeatmapFigure(d))
    else if plotType.value == BarplotPlot then
      match BarplotDataOf(barplot, plot)
        case Err(e) => Err(e)
        case Ok(d) => Ok(BarplotFigure(d))
    else Ok(NoFigure)
  }
}

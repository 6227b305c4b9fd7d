/** `importing.py`: the upload backend's queries over the peptide table and
    the metadata table, and the per-residue coverage arrays of
    `protein_plot_data`. Loading the tables from disk is not modelled: the
    tables are parameters. */
module Importing {
  import opened Common
  import Data

  /** A row of the peptide table; None stands for a missing (NaN) cell. */
  datatype PeptideEntry = PeptideEntry(
    proteinId: Option<string>, sample: Option<string>, sequence: string,
    start: int, end: int, intensity: Option<real>)

  /** A row of the metadata table. */
  datatype MetaRow = MetaRow(sample: Option<string>, group: Option<string>)

  /** The dictionary returned per protein: `data_pos` holds the intensities,
      `data_neg` the counts. */
  datatype PlotData = PlotData(proteinId: string, dataPos: seq<int>, dataNeg: seq<int>)

  /** The half-open index range `[start, end)` one peptide sequence covers and
      its aggregated intensity (None for NaN). */
  datatype Span = Span(start: int, end: int, level: Option<real>)

  /** pandas' per-sequence aggregation of the intensities; only its name
      decides, its arithmetic is not modelled. */
  type Aggregate = (string, seq<Option<real>>) -> Option<real>

  /** Python's `int()` on a float: truncation toward zero. */
  function Trunc(x: real): (r: int)
    ensures 0.0 <= x ==> 0 <= r && r as real <= x < r as real + 1.0
    ensures x < 0.0 ==> r <= 0 && r as real - 1.0 < x <= r as real
  {
    if x >= 0.0 then x.Floor else -((-x).Floor)
  }

  /** `getProteins`: the protein search over the peptide table. */
  function GetProteins(table: seq<PeptideEntry>, filter: string, count: int): (r: seq<string>)
    ensures count >= 0 ==> |r| <= count
    ensures NoDuplicates(r)
    ensures forall x :: x in r ==> (exists row :: row in table && row.proteinId == Some(x)) && ContainsIgnoreCase(x, filter)
  {
    var ids := ProteinColumn(table);
    var r := Data.GetProteins(ids, filter, count);
    forall x | x in r ensures exists row :: row in table && row.proteinId == Some(x) {
      var i :| 0 <= i < |ids| && ids[i] == Some(x);
      assert table[i] in table;
    }
    r
  }

  function ProteinColumn(table: seq<PeptideEntry>): (r: seq<Option<string>>)
    ensures |r| == |table| && forall i :: 0 <= i < |r| ==> r[i] == table[i].proteinId
  {
    seq(|table|, i requires 0 <= i < |table| => table[i].proteinId)
  }

  function GroupColumn(metadata: seq<MetaRow>): (r: seq<Option<string>>)
    ensures |r| == |metadata| && forall i :: 0 <= i < |r| ==> r[i] == metadata[i].group
  {
    seq(|metadata|, i requires 0 <= i < |metadata| => metadata[i].group)
  }

  function SampleColumn(table: seq<PeptideEntry>): (r: seq<Option<string>>)
    ensures |r| == |table| && forall i :: 0 <= i < |r| ==> r[i] == table[i].sample
  {
    seq(|table|, i requires 0 <= i < |table| => table[i].sample)
  }

  /** `getGroups`: the distinct non-missing groups of the metadata table, in
      order of first appearance. */
  function GetGroups(metadata: seq<MetaRow>): (r: seq<string>)
    ensures NoDuplicates(r)
    ensures forall g :: g in r <==> exists m :: m in metadata && m.group == Some(g)
    ensures InAppearanceOrder(r, Somes(GroupColumn(metadata)))
  {
    var column := GroupColumn(metadata);
    forall m | m in metadata ensures m.group in column {
      var i :| 0 <= i < |metadata| && metadata[i] == m;
      assert column[i] == m.group;
    }
    Unique(Somes(column))
  }

  /** `getSamples`: the distinct non-missing samples of the peptide table, in
      order of first appearance. */
  function GetSamples(table: seq<PeptideEntry>): (r: seq<string>)
    ensures NoDuplicates(r)
    ensures forall s :: s in r <==> exists row :: row in table && row.sample == Some(s)
    ensures InAppearanceOrder(r, Somes(SampleColumn(table)))
  {
    var column := SampleColumn(table);
    forall row | row in table ensures row.sample in column {
      var i :| 0 <= i < |table| && table[i] == row;
      assert column[i] == row.sample;
    }
    Unique(Somes(column))
  }

  /** `peptides[peptides["Protein ID"] == protein_id]`: the rows of one
      protein, each as often as in the table and in table order (a missing
      id never equals it). */
  function RowsOf(table: seq<PeptideEntry>, proteinId: string): (r: seq<PeptideEntry>)
    ensures forall row :: row in r <==> row in table && row.proteinId == Some(proteinId)
    ensures forall row: PeptideEntry :: row.proteinId == Some(proteinId) ==> multiset(r)[row] == multiset(table)[row]
    ensures IsSubseq(r, table)
  {
    Filter(OfProtein(proteinId), table)
  }

  function OfProtein(proteinId: string): PeptideEntry -> bool {
    (row: PeptideEntry) => row.proteinId == Some(proteinId)
  }

  /** The samples of the metadata rows whose group is one of `groups`, a
      missing sample included. */
  function InGroups(metadata: seq<MetaRow>, groups: seq<string>): (r: seq<Option<string>>)
    ensures forall s :: s in r <==> exists m :: m in metadata && m.sample == s && m.group.Some? && m.group.value in groups
  {
    if metadata == [] then []
    else
      var m := metadata[0];
      var rest := InGroups(metadata[1..], groups);
      assert forall x :: x in metadata <==> x == m || x in metadata[1..];
      (if m.group.Some? && m.group.value in groups then [m.sample] else []) + rest
  }

  /** `metadata[metadata["Group"].isin(groups)]["Sample"].unique()`. */
  function SamplesOfGroups(metadata: seq<MetaRow>, groups: seq<string>): (r: seq<Option<string>>)
    ensures NoDuplicates(r)
    ensures forall s :: s in r <==> exists m :: m in metadata && m.sample == s && m.group.Some? && m.group.value in groups
  {
    Unique(InGroups(metadata, groups))
  }

  /** The sample selection: a non-empty `groups` replaces `samples` by the
      samples of those groups. */
  function ChosenSamples(metadata: seq<MetaRow>, groups: seq<string>, samples: seq<string>): (r: seq<Option<string>>)
    ensures groups == [] ==> |r| == |samples| && forall i :: 0 <= i < |r| ==> r[i] == Some(samples[i])
    ensures groups != [] ==> r == SamplesOfGroups(metadata, groups)
  {
    if groups != [] then SamplesOfGroups(metadata, groups)
    else seq(|samples|, i requires 0 <= i < |samples| => Some(samples[i]))
  }

  /** The `isin(samples)` mask: the rows whose sample is chosen, each as
      often as in `rows` and in order; pandas matches a missing sample to a
      missing sample. */
  function InSamples(rows: seq<PeptideEntry>, chosen: seq<Option<string>>): (r: seq<PeptideEntry>)
    ensures forall row :: row in r <==> row in rows && row.sample in chosen
    ensures forall row: PeptideEntry :: row.sample in chosen ==> multiset(r)[row] == multiset(rows)[row]
    ensures IsSubseq(r, rows)
  {
    Filter(SampleIn(chosen), rows)
  }

  function SampleIn(chosen: seq<Option<string>>): PeptideEntry -> bool {
    (row: PeptideEntry) => row.sample in chosen
  }

  /** `int(peptides["End position"].max())`. */
  function MaxEnd(rows: seq<PeptideEntry>): (r: int)
    requires rows != []
    ensures forall row :: row in rows ==> row.end <= r
    ensures exists row :: row in rows && row.end == r
  {
    if |rows| == 1 then rows[0].end
    else
      var rest := MaxEnd(rows[1..]);
      if rows[0].end >= rest then rows[0].end else rest
  }

  /** `[0] * last` has no elements when `last` is not positive. */
  function Width(last: int): nat {
    if last < 0 then 0 else last
  }

  /** The first row of `sequence`, where the start and end are read. */
  function FirstWith(rows: seq<PeptideEntry>, sequence: string): (r: PeptideEntry)
    requires sequence in SequencesOf(rows)
    ensures r in rows && r.sequence == sequence
    ensures exists i :: 0 <= i < |rows| && rows[i] == r && forall k :: 0 <= k < i ==> rows[k].sequence != sequence
  {
    if rows[0].sequence == sequence then rows[0]
    else
      assert sequence in SequencesOf(rows[1..]) by {
        var i :| 0 <= i < |rows| && SequencesOf(rows)[i] == sequence;
        assert SequencesOf(rows[1..])[i - 1] == sequence;
      }
      var r := FirstWith(rows[1..], sequence);
      var i :| 0 <= i < |rows[1..]| && rows[1..][i] == r && forall k :: 0 <= k < i ==> rows[1..][k].sequence != sequence;
      assert rows[i + 1] == r;
      assert forall k :: 0 <= k < i + 1 ==> rows[k].sequence != sequence by {
        forall k | 0 <= k < i + 1 ensures rows[k].sequence != sequence {
          if k > 0 {
            assert rows[k] == rows[1..][k - 1];
          }
        }
      }
      r
  }

  function IntensitiesOf(rows: seq<PeptideEntry>, sequence: string): seq<Option<real>> {
    if rows == [] then []
    else (if rows[0].sequence == sequence then [rows[0].intensity] else []) + IntensitiesOf(rows[1..], sequence)
  }

  function SequencesOf(rows: seq<PeptideEntry>): (r: seq<string>)
    ensures |r| == |rows| && forall i :: 0 <= i < |r| ==> r[i] == rows[i].sequence
  {
    seq(|rows|, i requires 0 <= i < |rows| => rows[i].sequence)
  }

  /** One span per distinct sequence (`groupby("Sequence")`): the 1-based
      start of its first row made 0-based, that row's end, and the aggregated
      intensity of all its rows. */
  function GroupSpans(rows: seq<PeptideEntry>, how: string, aggregate: Aggregate): (r: seq<Span>)
    ensures var distinct := Unique(SequencesOf(rows));
            |r| == |distinct| &&
            forall i :: 0 <= i < |r| ==>
              var first := FirstWith(rows, distinct[i]);
              r[i] == Span(first.start - 1, first.end, aggregate(how, IntensitiesOf(rows, distinct[i])))
  {
    var distinct := Unique(SequencesOf(rows));
    seq(|distinct|, i requires 0 <= i < |distinct| =>
      var first := FirstWith(rows, distinct[i]);
      Span(first.start - 1, first.end, aggregate(how, IntensitiesOf(rows, distinct[i]))))
  }

  /** The array slot Python's `a[i]` reaches, for `-n <= i < n`. */
  function Slot(i: int, n: nat): int {
    if i < 0 then i + n else i
  }

  /** Every index of the span is a valid Python index of a list of length n. */
  predicate InBounds(s: Span, n: nat) {
    s.start >= s.end || (-(n as int) <= s.start && s.end <= n)
  }

  /** How many indices of `[start, end)` reach slot `j` of a list of length
      n: the index `j` itself and, through negative indexing, `j - n`. */
  function Hits(start: int, end: int, n: nat, j: int): nat {
    (if start <= j < end then 1 else 0) + (if start <= j - n < end then 1 else 0)
  }

  function Gain(s: Span): int {
    if s.level.Some? then Trunc(s.level.value) else 0
  }

  /** `count[j]` after the spans are painted. */
  function CountAt(spans: seq<Span>, n: nat, j: int): int {
    if spans == [] then 0
    else
      var last := spans[|spans| - 1];
      CountAt(spans[..|spans| - 1], n, j) + Hits(last.start, last.end, n, j)
  }

  /** `intensity[j]` after the spans are painted. */
  function IntensityAt(spans: seq<Span>, n: nat, j: int): int {
    if spans == [] then 0
    else
      var last := spans[|spans| - 1];
      IntensityAt(spans[..|spans| - 1], n, j) + Gain(last) * Hits(last.start, last.end, n, j)
  }

  /** The counts and intensities of all spans, or the IndexError of the first
      index outside the list. */
  function CoverageOf(spans: seq<Span>, n: nat): (r: Result<(seq<int>, seq<int>)>)
    ensures r.Ok? <==> forall k :: 0 <= k < |spans| ==> InBounds(spans[k], n)
    ensures r.Err? ==> r == Err("IndexError")
    ensures r.Ok? ==> |r.value.0| == n && |r.value.1| == n &&
                      forall j :: 0 <= j < n ==> r.value.0[j] == CountAt(spans, n, j) && r.value.1[j] == IntensityAt(spans, n, j)
  {
    if forall k :: 0 <= k < |spans| ==> InBounds(spans[k], n) then
      Ok((seq(n, j => CountAt(spans, n, j)), seq(n, j => IntensityAt(spans, n, j))))
    else Err("IndexError")
  }

  /** The nested loop of `protein_plot_data`, on two arrays of length n. */
  method Coverage(spans: seq<Span>, n: nat) returns (r: Result<(seq<int>, seq<int>)>)
    ensures r == CoverageOf(spans, n)
  {
    var count := new int[n](_ => 0);
    var intensity := new int[n](_ => 0);
    var k := 0;
    while k < |spans|
      invariant 0 <= k <= |spans|
      invariant forall m :: 0 <= m < k ==> InBounds(spans[m], n)
      invariant forall j :: 0 <= j < n ==> count[j] == CountAt(spans[..k], n, j)
      invariant forall j :: 0 <= j < n ==> intensity[j] == IntensityAt(spans[..k], n, j)
    {
      var ok := PaintSpan(count, intensity, spans[k]);
      if !ok {
        return Err("IndexError");
      }
      assert spans[..k + 1][..k] == spans[..k];
      k := k + 1;
    }
    assert spans[..k] == spans;
    assert count[..] == seq(n, j => CountAt(spans, n, j));
    assert intensity[..] == seq(n, j => IntensityAt(spans, n, j));
    r := Ok((count[..], intensity[..]));
  }

  /** The inner loop: one span adds one to `count` and its truncated
      intensity to `intensity` at every index it covers, or stops at the
      first index outside the arrays. */
  method PaintSpan(count: array<int>, intensity: array<int>, s: Span) returns (ok: bool)
    requires count != intensity && count.Length == intensity.Length
    modifies count, intensity
    ensures ok == InBounds(s, count.Length)
    ensures ok ==> forall j :: 0 <= j < count.Length ==>
                     count[j] == old(count[j]) + Hits(s.start, s.end, count.Length, j) &&
                     intensity[j] == old(intensity[j]) + Gain(s) * Hits(s.start, s.end, count.Length, j)
  {
    var n := count.Length;
    var i := s.start;
    while i < s.end
      invariant s.start <= i && (i <= s.end || i == s.start)
      invariant s.start < i ==> -(n as int) <= s.start && i <= n
      invariant forall j :: 0 <= j < n ==> count[j] == old(count[j]) + Hits(s.start, i, n, j)
      invariant forall j :: 0 <= j < n ==> intensity[j] == old(intensity[j]) + Gain(s) * Hits(s.start, i, n, j)
    {
      if i < -(n as int) || i >= n {
        return false;
      }
      var slot := Slot(i, n);
      HitsStep(s, i, n);
      count[slot] := count[slot] + 1;
      intensity[slot] := intensity[slot] + Gain(s);
      i := i + 1;
    }
    return true;
  }

  /** Index `i` reaches slot `Slot(i, n)` and no other. */
  lemma HitsStep(s: Span, i: int, n: nat)
    requires s.start <= i && -(n as int) <= i < n
    ensures forall j :: 0 <= j < n ==>
              Hits(s.start, i + 1, n, j) == Hits(s.start, i, n, j) + (if j == Slot(i, n) then 1 else 0)
    ensures forall j :: 0 <= j < n ==>
              Gain(s) * Hits(s.start, i + 1, n, j) == Gain(s) * Hits(s.start, i, n, j) + (if j == Slot(i, n) then Gain(s) else 0)
  {
    forall j | 0 <= j < n
      ensures Gain(s) * Hits(s.start, i + 1, n, j) == Gain(s) * Hits(s.start, i, n, j) + (if j == Slot(i, n) then Gain(s) else 0)
    {
      var h := Hits(s.start, i, n, j);
      assert Hits(s.start, i + 1, n, j) == h + (if j == Slot(i, n) then 1 else 0);
      assert Gain(s) * (h + 1) == Gain(s) * h + Gain(s);
    }
  }

  /** How many spans cover index j without wrapping. */
  function Covering(spans: seq<Span>, j: int): nat {
    if spans == [] then 0
    else
      var last := spans[|spans| - 1];
      Covering(spans[..|spans| - 1], j) + (if last.start <= j < last.end then 1 else 0)
  }

  /** The summed truncated intensity of the spans covering index j. */
  function CoveringGain(spans: seq<Span>, j: int): int {
    if spans == [] then 0
    else
      var last := spans[|spans| - 1];
      CoveringGain(spans[..|spans| - 1], j) + (if last.start <= j < last.end then Gain(last) else 0)
  }

  /** With every start position at least 1, `count[j]` is the number of
      peptide sequences covering j and `intensity[j]` the sum of their
      truncated intensities. */
  lemma {:induction false} CoverageCountsSpans(spans: seq<Span>, n: nat, j: int)
    requires forall k :: 0 <= k < |spans| ==> 0 <= spans[k].start
    requires 0 <= j < n
    ensures CountAt(spans, n, j) == Covering(spans, j)
    ensures IntensityAt(spans, n, j) == CoveringGain(spans, j)
  {
    if spans != [] {
      var init := spans[..|spans| - 1];
      assert forall k :: 0 <= k < |init| ==> init[k] == spans[k];
      CoverageCountsSpans(init, n, j);
    }
  }

  /** A missing (NaN) aggregate is still counted but adds no intensity. */
  lemma {:induction false} MissingIntensityAddsNothing(spans: seq<Span>, n: nat, j: int)
    requires forall k :: 0 <= k < |spans| ==> spans[k].level == None
    ensures IntensityAt(spans, n, j) == 0
  {
    if spans != [] {
      var init := spans[..|spans| - 1];
      assert forall k :: 0 <= k < |init| ==> init[k] == spans[k];
      MissingIntensityAddsNothing(init, n, j);
    }
  }

  /** The aggregation methods `protein_plot_data` accepts. */
  predicate KnownMethod(how: string) {
    how == "sum" || how == "median" || how == "mean"
  }

  /** The rows `protein_plot_data` paints: the protein's rows, restricted
      to the chosen samples when there are any. */
  function KeptRows(table: seq<PeptideEntry>, metadata: seq<MetaRow>, proteinId: string,
                    groups: seq<string>, samples: seq<string>): seq<PeptideEntry>
  {
    var rows := RowsOf(table, proteinId);
    var chosen := ChosenSamples(metadata, groups, samples);
    if chosen != [] then InSamples(rows, chosen) else rows
  }

  /** `protein_plot_data`, as a function of the two tables. `data_neg` is
      the count array and `data_pos` the intensity array painted from the
      spans of the kept rows, over the positions up to the largest End. */
  function PlotDataOf(table: seq<PeptideEntry>, metadata: seq<MetaRow>, proteinId: string,
                      groups: seq<string>, samples: seq<string>, how: string,
                      aggregate: Aggregate): (r: Result<PlotData>)
    ensures RowsOf(table, proteinId) == [] ==> r == Ok(PlotData(proteinId, [], []))
    ensures RowsOf(table, proteinId) != [] && !KnownMethod(how) ==> r == Err("ValueError")
    ensures r.Ok? ==> r.value.proteinId == proteinId && |r.value.dataPos| == |r.value.dataNeg|
    ensures r.Ok? && RowsOf(table, proteinId) != [] ==>
              |r.value.dataNeg| == Width(MaxEnd(RowsOf(table, proteinId)))
    ensures RowsOf(table, proteinId) != [] && KnownMethod(how) ==>
              var spans := GroupSpans(KeptRows(table, metadata, proteinId, groups, samples), how, aggregate);
              var n := Width(MaxEnd(RowsOf(table, proteinId)));
              && (r.Ok? <==> forall k :: 0 <= k < |spans| ==> InBounds(spans[k], n))
              && (r.Err? ==> r == Err("IndexError"))
              && (r.Ok? ==> forall j :: 0 <= j < n ==>
                               r.value.dataNeg[j] == CountAt(spans, n, j) &&
                               r.value.dataPos[j] == IntensityAt(spans, n, j))
  {
    var rows := RowsOf(table, proteinId);
    if rows == [] then Ok(PlotData(proteinId, [], []))
    else
      var last := MaxEnd(rows);
      var kept := KeptRows(table, metadata, proteinId, groups, samples);
      if !KnownMethod(how) then Err("ValueError")
      else
        var spans := GroupSpans(kept, how, aggregate);
        match CoverageOf(spans, Width(last))
        case Ok(arrays) => Ok(PlotData(proteinId, arrays.1, arrays.0))
        case Err(e) => Err(e)
  }

  /** With every kept row starting at position 1 or later, `data_neg[j]` is
      the number of distinct peptide sequences covering position j and
      `data_pos[j]` the sum of their truncated aggregated intensities. */
  lemma PlotDataCovering(table: seq<PeptideEntry>, metadata: seq<MetaRow>, proteinId: string,
                         groups: seq<string>, samples: seq<string>, how: string,
                         aggregate: Aggregate)
    requires RowsOf(table, proteinId) != [] && KnownMethod(how)
    requires forall row :: row in KeptRows(table, metadata, proteinId, groups, samples) ==> row.start >= 1
    requires PlotDataOf(table, metadata, proteinId, groups, samples, how, aggregate).Ok?
    ensures var r := PlotDataOf(table, metadata, proteinId, groups, samples, how, aggregate).value;
            var spans := GroupSpans(KeptRows(table, metadata, proteinId, groups, samples), how, aggregate);
            forall j :: 0 <= j < |r.dataNeg| ==>
              r.dataNeg[j] == Covering(spans, j) && r.dataPos[j] == CoveringGain(spans, j)
  {
    var kept := KeptRows(table, metadata, proteinId, groups, samples);
    var spans := GroupSpans(kept, how, aggregate);
    var n := Width(MaxEnd(RowsOf(table, proteinId)));
    forall k | 0 <= k < |spans| ensures 0 <= spans[k].start {
      var first := FirstWith(kept, Unique(SequencesOf(kept))[k]);
      assert first in kept;
    }
    forall j | 0 <= j < n ensures CountAt(spans, n, j) == Covering(spans, j) && IntensityAt(spans, n, j) == CoveringGain(spans, j) {
      CoverageCountsSpans(spans, n, j);
    }
  }

  /** A non-empty `groups` makes the `samples` argument irrelevant. */
  lemma GroupsOverrideSamples(table: seq<PeptideEntry>, metadata: seq<MetaRow>, proteinId: string,
                              groups: seq<string>, samples1: seq<string>, samples2: seq<string>,
                              how: string, aggregate: Aggregate)
    requires groups != []
    ensures PlotDataOf(table, metadata, proteinId, groups, samples1, how, aggregate)
         == PlotDataOf(table, metadata, proteinId, groups, samples2, how, aggregate)
  {
  }

  /** Groups no metadata row belongs to select no samples, and then no row
      is filtered out. */
  lemma UnknownGroupsKeepAllRows(table: seq<PeptideEntry>, metadata: seq<MetaRow>, proteinId: string,
                                 groups: seq<string>, samples: seq<string>, how: string,
                                 aggregate: Aggregate)
    requires groups != []
    requires forall m :: m in metadata ==> m.group.None? || m.group.value !in groups
    ensures PlotDataOf(table, metadata, proteinId, groups, samples, how, aggregate)
         == PlotDataOf(table, metadata, proteinId, [], [], how, aggregate)
  {
    NoMemberRowsNoSamples(metadata, groups);
    assert SamplesOfGroups(metadata, groups) == Unique([]);
  }

  lemma {:induction false} NoMemberRowsNoSamples(metadata: seq<MetaRow>, groups: seq<string>)
    requires forall m :: m in metadata ==> m.group.None? || m.group.value !in groups
    ensures InGroups(metadata, groups) == []
  {
    if metadata != [] {
      assert metadata[0] in metadata;
      NoMemberRowsNoSamples(metadata[1..], groups);
    }
  }

  /** `protein_plot_data`. */
  method ProteinPlotData(table: seq<PeptideEntry>, metadata: seq<MetaRow>, proteinId: string,
                         groups: seq<string>, samples: seq<string>, how: string,
                         aggregate: Aggregate) returns (r: Result<PlotData>)
    ensures r == PlotDataOf(table, metadata, proteinId, groups, samples, how, aggregate)
  {
    var rows := RowsOf(table, proteinId);
    if rows == [] {
      return Ok(PlotData(proteinId, [], []));
    }
    var last := MaxEnd(rows);
    var chosen := ChosenSamples(metadata, groups, samples);
    var kept := rows;
    if chosen != [] {
      kept := InSamples(rows, chosen);
    }
    if !KnownMethod(how) {
      return Err("ValueError");
    }
    var arrays := Coverage(GroupSpans(kept, how, aggregate), Width(last));
    match arrays {
      case Ok(a) => r := Ok(PlotData(proteinId, a.1, a.0));
      case Err(e) => r := Err(e);
    }
  }

  /** `protein_plot_data` for one id, the other arguments fixed. */
  function ForProtein(table: seq<PeptideEntry>, metadata: seq<MetaRow>, groups: seq<string>,
                      samples: seq<string>, how: string, aggregate: Aggregate): string -> Result<PlotData>
  {
    id => PlotDataOf(table, metadata, id, groups, samples, how, aggregate)
  }

  /** `get_plot_data`: one result per requested id, or the first error. */
  function PlotDataAll(table: seq<PeptideEntry>, metadata: seq<MetaRow>, ids: seq<string>,
                       groups: seq<string>, samples: seq<string>, how: string,
                       aggregate: Aggregate): Result<seq<PlotData>>
  {
    MapAll(ids, ForProtein(table, metadata, groups, samples, how, aggregate))
  }

  /** The results line up with the requested ids; an error is some
      requested protein's error. */
  lemma PlotDataAllAligned(table: seq<PeptideEntry>, metadata: seq<MetaRow>, ids: seq<string>,
                           groups: seq<string>, samples: seq<string>, how: string,
                           aggregate: Aggregate)
    ensures var r := PlotDataAll(table, metadata, ids, groups, samples, how, aggregate);
            r.Ok? ==> |r.value| == |ids| &&
                      forall i :: 0 <= i < |ids| ==>
                        PlotDataOf(table, metadata, ids[i], groups, samples, how, aggregate) == Ok(r.value[i])
    ensures var r := PlotDataAll(table, metadata, ids, groups, samples, how, aggregate);
            r.Err? ==> exists i :: 0 <= i < |ids| &&
                         PlotDataOf(table, metadata, ids[i], groups, samples, how, aggregate) == Err(r.msg)
  {
    MapAllAligned(ids, ForProtein(table, metadata, groups, samples, how, aggregate));
  }

  /** `get_plot_data`. */
  method GetPlotData(table: seq<PeptideEntry>, metadata: seq<MetaRow>, ids: seq<string>,
                     groups: seq<string>, samples: seq<string>, how: string,
                     aggregate: Aggregate) returns (r: Result<seq<PlotData>>)
    ensures r == PlotDataAll(table, metadata, ids, groups, samples, how, aggregate)
  {
    var one := ForProtein(table, metadata, groups, samples, how, aggregate);
    var data := [];
    for k := 0 to |ids|
      invariant MapAll(ids[..k], one) == Ok(data)
    {
      var d := ProteinPlotData(table, metadata, ids[k], groups, samples, how, aggregate);
      assert d == one(ids[k]);
      assert ids[..k + 1][..k] == ids[..k];
      if d.Err? {
        MapAllErrPersists(ids, k + 1, one);
        return Err(d.msg);
      }
      data := data + [d.value];
    }
    assert ids[..|ids|] == ids;
    r := Ok(data);
  }
}

/** `matching.py`: each annotated peptide's two windows are matched against
    the enzyme patterns; matches are tallied overall and per protein, and
    each protein's result lists its distinct cleavages and its enzymes,
    most frequent first. */
module Matching {
  import opened Common
  import Kmer

  /** `trie.match`: the labels of the patterns a window matches, in order. */
  type Trie = string -> seq<string>

  const Unspecified: string := "unspecified cleavage"

  /** `find_best_match`: the first label, or "unspecified cleavage" when
      nothing matched. */
  function FindBestMatch(matches: seq<string>): (r: string)
    ensures matches == [] ==> r == Unspecified
    ensures matches != [] ==> r == matches[0]
  {
    if |matches| == 0 then Unspecified else matches[0]
  }

  /** Every label the trie can return is a non-empty string. */
  ghost predicate NamedLabels(trie: Trie) {
    forall w: string, i :: 0 <= i < |trie(w)| ==> trie(w)[i] != ""
  }

  /** With non-empty labels the best match is never falsy. */
  lemma BestMatchTruthy(trie: Trie, window: string)
    requires NamedLabels(trie)
    ensures FindBestMatch(trie(window)) != ""
  {
    if trie(window) != [] {
      assert trie(window)[0] != "";
    }
  }

  // ----- the tallies -----

  /** A row of a protein's `cleavages` table. */
  datatype Cleavage = Cleavage(position: int, name: string)

  /** `per_protein_counts[protein][enzyme]`: residue counts per window
      position and the number of cleavages credited. */
  datatype Tally = Tally(motif: seq<multiset<char>>, total: nat)

  /** `per_protein_counts[protein]`: enzymes in insertion order and their tallies. */
  datatype ProteinTallies = ProteinTallies(order: seq<string>, byEnzyme: map<string, Tally>)

  const NoTallies: ProteinTallies := ProteinTallies([], map[])

  function NewTally(): (r: Tally)
    ensures |r.motif| == 8 && r.total == 0
  {
    Tally(Repeat(multiset{}, 8), 0)
  }

  /** The defaultdict access `per_protein_counts[protein][enzyme]`. */
  function TallyOf(pt: ProteinTallies, e: string): Tally {
    if e in pt.byEnzyme then pt.byEnzyme[e] else NewTally()
  }

  function Touch(pt: ProteinTallies, e: string): ProteinTallies {
    if e in pt.byEnzyme then pt else ProteinTallies(pt.order + [e], pt.byEnzyme[e := NewTally()])
  }

  /** The residue a window contributes at position `i`, if it reaches it. */
  function ResidueAt(window: string, i: int): multiset<char> {
    if 0 <= i < |window| then multiset{window[i]} else multiset{}
  }

  /** The motif after counting the residues of one window; a window longer
      than the motif raises IndexError. */
  function AddWindow(motif: seq<multiset<char>>, window: string): (r: Result<seq<multiset<char>>>)
    ensures r.Ok? <==> |window| <= |motif|
    ensures r.Ok? ==> |r.value| == |motif|
    ensures r.Ok? ==> forall i :: 0 <= i < |motif| ==> r.value[i] == motif[i] + ResidueAt(window, i)
  {
    if |window| > |motif| then Err("IndexError")
    else Ok(seq(|motif|, i requires 0 <= i < |motif| => motif[i] + ResidueAt(window, i)))
  }

  /** `for i, aa in enumerate(window): motif[i][aa] += 1`. */
  method CountResidues(motif: seq<multiset<char>>, window: string) returns (r: Result<seq<multiset<char>>>)
    ensures r == AddWindow(motif, window)
  {
    var m := motif;
    for i := 0 to |window|
      invariant i <= |motif| && |m| == |motif|
      invariant forall j :: 0 <= j < |motif| ==> m[j] == motif[j] + (if j < i then ResidueAt(window, j) else multiset{})
    {
      if i >= |m| {
        return Err("IndexError");
      }
      m := m[i := m[i] + multiset{window[i]}];
    }
    assert m == AddWindow(motif, window).value;
    return Ok(m);
  }

  /** Add a window to the motif of enzyme `e`. The entry of `e` is first
      reached inside the loop over the window, so an empty window leaves
      the tallies as they were. */
  function AddTo(pt: ProteinTallies, e: string, window: string): Result<ProteinTallies> {
    if window == "" then Ok(pt)
    else
      var t := TallyOf(pt, e);
      match AddWindow(t.motif, window)
      case Err(msg) => Err(msg)
      case Ok(m) =>
        var touched := Touch(pt, e);
        Ok(touched.(byEnzyme := touched.byEnzyme[e := Tally(m, t.total)]))
  }

  /** `per_protein_counts[protein][e]["total"] += 1`. */
  function CountOne(pt: ProteinTallies, e: string): ProteinTallies {
    var t := TallyOf(pt, e);
    var touched := Touch(pt, e);
    touched.(byEnzyme := touched.byEnzyme[e := Tally(t.motif, t.total + 1)])
  }

  /** The state of `map_sites_to_enzymes` between rows. */
  datatype MatchState = MatchState(
    proteins: seq<Option<string>>,
    cleavages: map<Option<string>, seq<Cleavage>>,
    tallies: map<Option<string>, ProteinTallies>,
    totals: multiset<string>)

  const Start: MatchState := MatchState([], map[], map[], multiset{})

  function Matched(name: string): multiset<string> {
    if name != "" then multiset{name} else multiset{}
  }

  function CleavageIf(position: int, name: string): seq<Cleavage> {
    if name != "" then [Cleavage(position, name)] else []
  }

  /** One iteration of the row loop. The C-term window's residues go to
      the motif of the N-term match, its `total` to the C-term match. A row
      without annotation columns raises AttributeError. */
  function RowStep(st: MatchState, row: Kmer.PeptideRow, trie: Trie): Result<MatchState> {
    if row.annotation.None? then Err("AttributeError")
    else
      var a := row.annotation.value;
      var pid := a.proteinId;
      var n := FindBestMatch(trie(a.nTermWindow));
      var c := FindBestMatch(trie(a.cTermWindow));
      var pt := if pid in st.tallies then st.tallies[pid] else NoTallies;
      var r1 := if n != "" then AddTo(pt, n, a.nTermWindow) else Ok(pt);
      if r1.Err? then Err(r1.msg)
      else
        var pt1 := if n != "" then CountOne(r1.value, n) else r1.value;
        var r2 := if c != "" then AddTo(pt1, n, a.cTermWindow) else Ok(pt1);
        if r2.Err? then Err(r2.msg)
        else
          var pt2 := if c != "" then CountOne(r2.value, c) else r2.value;
          var before := if pid in st.cleavages then st.cleavages[pid] else [];
          var proteins := if pid in st.cleavages then st.proteins else st.proteins + [pid];
          Ok(MatchState(proteins,
                        st.cleavages[pid := before + CleavageIf(a.nTermPosition, n) + CleavageIf(a.cTermPosition, c)],
                        st.tallies[pid := pt2],
                        st.totals + Matched(n) + Matched(c)))
  }

  /** The state after the row loop over `rows`. */
  function MapRows(rows: seq<Kmer.PeptideRow>, trie: Trie): Result<MatchState> {
    if rows == [] then Ok(Start)
    else
      match MapRows(rows[..|rows| - 1], trie)
      case Err(msg) => Err(msg)
      case Ok(st) => RowStep(st, rows[|rows| - 1], trie)
  }

  // ----- the per-protein results -----

  /** One column of the relative motif table per residue seen anywhere. */
  function Residues(counts: seq<multiset<char>>): set<char> {
    set i, c | 0 <= i < |counts| && c in counts[i] :: c
  }

  /** `counts_to_relative_motif`: each count divided by `total`, or 0.0
      when `total` is 0, over every residue seen at any position; one row
      per position (index -4..-1, 1..4). */
  function RelativeMotif(counts: seq<multiset<char>>, total: int): (r: seq<map<char, real>>)
    ensures |r| == |counts|
    ensures forall i :: 0 <= i < |r| ==> r[i].Keys == Residues(counts)
    ensures forall i, c :: 0 <= i < |r| && c in r[i] ==>
              r[i][c] == if total > 0 then counts[i][c] as real / total as real else 0.0
  {
    seq(|counts|, i requires 0 <= i < |counts| =>
      map c | c in Residues(counts) :: if total > 0 then counts[i][c] as real / total as real else 0.0)
  }

  /** An entry of `enzymes`. */
  datatype EnzymeResult = EnzymeResult(name: string, motif: seq<map<char, real>>, count: nat)

  datatype ProteinResult = ProteinResult(cleavages: seq<Cleavage>, enzymes: seq<EnzymeResult>)

  function NamedAs(e: string): Cleavage -> bool {
    (c: Cleavage) => c.name == e
  }

  /** `value_counts()[e]` over the deduplicated cleavages. */
  function CountOf(cleavages: seq<Cleavage>, e: string): nat {
    if cleavages == [] then 0
    else (if cleavages[0].name == e then 1 else 0) + CountOf(cleavages[1..], e)
  }

  lemma {:induction false} CountOfFilter(cleavages: seq<Cleavage>, e: string)
    ensures CountOf(cleavages, e) == |Filter(NamedAs(e), cleavages)|
  {
    if cleavages != [] {
      CountOfFilter(cleavages[1..], e);
      FilterCons(NamedAs(e), cleavages[0], cleavages[1..]);
      assert cleavages == [cleavages[0]] + cleavages[1..];
    }
  }

  /** `enzyme_result[e]`: the relative motif and the count of enzyme `e`. */
  function EntryFor(pt: ProteinTallies, deduped: seq<Cleavage>, e: string): EnzymeResult {
    var t := TallyOf(pt, e);
    EnzymeResult(e, RelativeMotif(t.motif, t.total), CountOf(deduped, e))
  }

  /** The enzyme loop over the first `upto` enzymes of a protein; an enzyme
      with no cleavage of its own raises KeyError. */
  function EnzymeResults(pt: ProteinTallies, deduped: seq<Cleavage>, upto: nat): Result<seq<EnzymeResult>>
    requires upto <= |pt.order|
  {
    if upto == 0 then Ok([])
    else
      match EnzymeResults(pt, deduped, upto - 1)
      case Err(msg) => Err(msg)
      case Ok(rs) =>
        var e := pt.order[upto - 1];
        if CountOf(deduped, e) == 0 then Err("KeyError") else Ok(rs + [EntryFor(pt, deduped, e)])
  }

  // ----- sorted(..., key=count, reverse=True) -----

  predicate NonIncreasing(s: seq<EnzymeResult>) {
    forall i, j :: 0 <= i < j < |s| ==> s[i].count >= s[j].count
  }

  /** Put `x` after every element whose count is at least its own. */
  function InsertByCount(x: EnzymeResult, s: seq<EnzymeResult>): (r: seq<EnzymeResult>)
    ensures |r| == |s| + 1
    ensures r[0] == if s == [] || s[0].count < x.count then x else s[0]
  {
    if s == [] then [x]
    else if s[0].count >= x.count then [s[0]] + InsertByCount(x, s[1..])
    else [x] + s
  }

  lemma NonIncreasingTail(s: seq<EnzymeResult>)
    requires NonIncreasing(s) && s != []
    ensures NonIncreasing(s[1..])
  {
    forall i, j | 0 <= i < j < |s| - 1 ensures s[1..][i].count >= s[1..][j].count {
      assert s[1..][i] == s[i + 1] && s[1..][j] == s[j + 1];
    }
  }

  lemma {:induction false} InsertKeepsOrder(x: EnzymeResult, s: seq<EnzymeResult>)
    requires NonIncreasing(s)
    ensures NonIncreasing(InsertByCount(x, s))
  {
    if s != [] && s[0].count >= x.count {
      var rest := InsertByCount(x, s[1..]);
      InsertKeepsOrder(x, s[1..]);
      var r := [s[0]] + rest;
      assert s[0].count >= rest[0].count by {
        if |s| > 1 { assert s[0].count >= s[1].count; }
      }
      forall i, j | 0 <= i < j < |r| ensures r[i].count >= r[j].count {
        if i > 0 {
          assert r[i] == rest[i - 1] && r[j] == rest[j - 1];
        } else if j > 1 {
          assert rest[0].count >= rest[j - 1].count;
        }
      }
    }
  }

  lemma {:induction false} InsertKeepsElements(x: EnzymeResult, s: seq<EnzymeResult>)
    ensures multiset(InsertByCount(x, s)) == multiset(s) + multiset{x}
  {
    if s != [] && s[0].count >= x.count {
      InsertKeepsElements(x, s[1..]);
      assert s == [s[0]] + s[1..];
    }
  }

  /** Python's stable `sorted` by count, descending. */
  function SortByCount(s: seq<EnzymeResult>): (r: seq<EnzymeResult>)
    ensures NonIncreasing(r)
  {
    if s == [] then []
    else
      var init := SortByCount(s[..|s| - 1]);
      InsertKeepsOrder(s[|s| - 1], init);
      InsertByCount(s[|s| - 1], init)
  }

  /** The sort is a permutation. */
  lemma {:induction false} SortKeepsElements(s: seq<EnzymeResult>)
    ensures multiset(SortByCount(s)) == multiset(s)
  {
    if s != [] {
      var init := s[..|s| - 1];
      SortKeepsElements(init);
      InsertKeepsElements(s[|s| - 1], SortByCount(init));
      assert s == init + [s[|s| - 1]];
    }
  }

  /** The enzymes of `s` whose count is `v`, in order. */
  function OfCount(s: seq<EnzymeResult>, v: nat): seq<EnzymeResult> {
    if s == [] then [] else (if s[0].count == v then [s[0]] else []) + OfCount(s[1..], v)
  }

  lemma {:induction false} OfCountAppend(a: seq<EnzymeResult>, b: seq<EnzymeResult>, v: nat)
    ensures OfCount(a + b, v) == OfCount(a, v) + OfCount(b, v)
  {
    if a == [] {
      assert a + b == b;
    } else {
      var ab := a + b;
      assert ab[0] == a[0] && ab[1..] == a[1..] + b;
      OfCountAppend(a[1..], b, v);
      assert OfCount(ab, v) == (if a[0].count == v then [a[0]] else []) + OfCount(a[1..] + b, v);
      assert OfCount(a, v) == (if a[0].count == v then [a[0]] else []) + OfCount(a[1..], v);
    }
  }

  lemma {:induction false} OfCountNone(s: seq<EnzymeResult>, v: nat)
    requires forall i :: 0 <= i < |s| ==> s[i].count < v
    ensures OfCount(s, v) == []
  {
    if s != [] {
      OfCountNone(s[1..], v);
    }
  }

  /** Enzymes with equal counts keep their insertion order. */
  lemma {:induction false} SortIsStable(s: seq<EnzymeResult>, v: nat)
    ensures OfCount(SortByCount(s), v) == OfCount(s, v)
  {
    if s != [] {
      var init, last := s[..|s| - 1], s[|s| - 1];
      var sorted := SortByCount(init);
      var tail := if last.count == v then [last] else [];
      calc {
        OfCount(SortByCount(s), v);
        OfCount(InsertByCount(last, sorted), v);
        { InsertOfCount(last, sorted, v); }
        OfCount(sorted, v) + tail;
        { SortIsStable(init, v); }
        OfCount(init, v) + tail;
        { OfCountAppend(init, [last], v);
          assert [last][1..] == []; }
        OfCount(init + [last], v);
        { assert init + [last] == s; }
        OfCount(s, v);
      }
    }
  }

  lemma {:induction false} InsertOfCount(x: EnzymeResult, s: seq<EnzymeResult>, v: nat)
    requires NonIncreasing(s)
    ensures OfCount(InsertByCount(x, s), v) == OfCount(s, v) + (if x.count == v then [x] else [])
  {
    if s == [] {
      assert [x][1..] == [];
    } else if s[0].count >= x.count {
      var rest := InsertByCount(x, s[1..]);
      assert InsertByCount(x, s) == [s[0]] + rest;
      NonIncreasingTail(s);
      InsertOfCount(x, s[1..], v);
      OfCountCons(s[0], rest, v);
    } else {
      assert InsertByCount(x, s) == [x] + s;
      OfCountCons(x, s, v);
      if x.count == v {
        forall i | 0 <= i < |s| ensures s[i].count < v {
          if i > 0 {
            assert s[0].count >= s[i].count;
          }
        }
        OfCountNone(s, v);
      }
    }
  }

  lemma OfCountCons(x: EnzymeResult, s: seq<EnzymeResult>, v: nat)
    ensures OfCount([x] + s, v) == (if x.count == v then [x] else []) + OfCount(s, v)
  {
    assert ([x] + s)[1..] == s;
  }

  // ----- the whole pass -----

  function CleavagesOf(st: MatchState, pid: Option<string>): seq<Cleavage> {
    if pid in st.cleavages then st.cleavages[pid] else []
  }

  function TalliesOf(st: MatchState, pid: Option<string>): ProteinTallies {
    if pid in st.tallies then st.tallies[pid] else NoTallies
  }

  /** One protein's result: its cleavages without repeated (position,
      name) pairs, keeping first occurrences, and its enzymes sorted. */
  function Summarize(cleavages: seq<Cleavage>, pt: ProteinTallies): Result<ProteinResult> {
    var deduped := Unique(cleavages);
    match EnzymeResults(pt, deduped, |pt.order|)
    case Err(msg) => Err(msg)
    case Ok(rs) => Ok(ProteinResult(deduped, SortByCount(rs)))
  }

  /** The protein loop over the first `upto` proteins. */
  function Results(st: MatchState, upto: nat): Result<seq<(Option<string>, ProteinResult)>>
    requires upto <= |st.proteins|
  {
    if upto == 0 then Ok([])
    else
      match Results(st, upto - 1)
      case Err(msg) => Err(msg)
      case Ok(rs) =>
        var pid := st.proteins[upto - 1];
        match Summarize(CleavagesOf(st, pid), TalliesOf(st, pid))
        case Err(msg) => Err(msg)
        case Ok(pr) => Ok(rs + [(pid, pr)])
  }

  /** `map_sites_to_enzymes`: per-protein results in order of first
      appearance, and the overall enzyme counts. */
  function MapSites(rows: seq<Kmer.PeptideRow>, trie: Trie): Result<(seq<(Option<string>, ProteinResult)>, multiset<string>)> {
    match MapRows(rows, trie)
    case Err(msg) => Err(msg)
    case Ok(st) =>
      match Results(st, |st.proteins|)
      case Err(msg) => Err(msg)
      case Ok(rs) => Ok((rs, st.totals))
  }

  lemma {:induction false} MapRowsErrPersists(rows: seq<Kmer.PeptideRow>, trie: Trie, k: nat)
    requires k <= |rows| && MapRows(rows[..k], trie).Err?
    ensures MapRows(rows, trie) == MapRows(rows[..k], trie)
    decreases |rows|
  {
    if k < |rows| {
      assert rows[..|rows| - 1][..k] == rows[..k];
      MapRowsErrPersists(rows[..|rows| - 1], trie, k);
    } else {
      assert rows[..k] == rows;
    }
  }

  lemma {:induction false} EnzymeResultsErrPersists(pt: ProteinTallies, deduped: seq<Cleavage>, k: nat, upto: nat)
    requires k <= upto <= |pt.order| && EnzymeResults(pt, deduped, k).Err?
    ensures EnzymeResults(pt, deduped, upto) == EnzymeResults(pt, deduped, k)
    decreases upto
  {
    if k < upto {
      EnzymeResultsErrPersists(pt, deduped, k, upto - 1);
    }
  }

  lemma {:induction false} ResultsErrPersists(st: MatchState, k: nat, upto: nat)
    requires k <= upto <= |st.proteins| && Results(st, k).Err?
    ensures Results(st, upto) == Results(st, k)
    decreases upto
  {
    if k < upto {
      ResultsErrPersists(st, k, upto - 1);
    }
  }

  /** The statements for one matched window: its residues counted into
      the motif of `owner`, then one more `total` for `counted`. */
  method TallyWindow(pt: ProteinTallies, owner: string, counted: string, window: string)
      returns (r: Result<ProteinTallies>)
    ensures AddTo(pt, owner, window).Err? ==> r == Err(AddTo(pt, owner, window).msg)
    ensures AddTo(pt, owner, window).Ok? ==> r == Ok(CountOne(AddTo(pt, owner, window).value, counted))
  {
    var touched := pt;
    if window != "" {
      var t := TallyOf(pt, owner);
      var m := CountResidues(t.motif, window);
      if m.Err? {
        return Err(m.msg);
      }
      touched := Touch(pt, owner);
      touched := touched.(byEnzyme := touched.byEnzyme[owner := Tally(m.value, t.total)]);
    }
    assert AddTo(pt, owner, window) == Ok(touched);
    r := Ok(CountOne(touched, counted));
  }

  /** One pass of the row loop, statement by statement. */
  method RecordRow(st: MatchState, row: Kmer.PeptideRow, trie: Trie) returns (r: Result<MatchState>)
    ensures r == RowStep(st, row, trie)
  {
    if row.annotation.None? {
      return Err("AttributeError");
    }
    var a := row.annotation.value;
    var pid := a.proteinId;
    var n := FindBestMatch(trie(a.nTermWindow));
    var c := FindBestMatch(trie(a.cTermWindow));
    var totals, newRows := RecordMatches(st.totals, a, n, c);
    var pt, pt1 := TallyRow(st, row, trie);
    if pt.Err? {
      if NTermFails(st, row, trie) {
        RowStepNTermFails(st, row, trie);
      } else {
        RowStepCTermFails(st, row, trie, pt1);
      }
      return Err(pt.msg);
    }
    RowStepSucceeds(st, row, trie, pt1, pt.value);
    assert CleavagesOf(st, pid) + newRows
        == CleavagesOf(st, pid) + CleavageIf(a.nTermPosition, n) + CleavageIf(a.cTermPosition, c);
    var proteins := if pid in st.cleavages then st.proteins else st.proteins + [pid];
    r := Ok(MatchState(proteins, st.cleavages[pid := CleavagesOf(st, pid) + newRows],
                       st.tallies[pid := pt.value], totals));
  }

  /** The `total_enzyme_counts` increments and the new cleavage rows of one
      annotated row: one for each truthy match, N-term first. */
  method RecordMatches(totals: multiset<string>, a: Kmer.Annotation, n: string, c: string)
      returns (counts: multiset<string>, newRows: seq<Cleavage>)
    ensures counts == totals + Matched(n) + Matched(c)
    ensures newRows == CleavageIf(a.nTermPosition, n) + CleavageIf(a.cTermPosition, c)
  {
    counts := totals;
    newRows := [];
    if n != "" {
      counts := counts + multiset{n};
      newRows := newRows + [Cleavage(a.nTermPosition, n)];
    }
    if c != "" {
      counts := counts + multiset{c};
      newRows := newRows + [Cleavage(a.cTermPosition, c)];
    }
  }

  /** The tally updates of one annotated row: the N-term window, then the
      C-term window, each counted by `TallyWindow`; an error in either
      stops the row. */
  method TallyRow(st: MatchState, row: Kmer.PeptideRow, trie: Trie) returns (r: Result<ProteinTallies>, ghost pt1: ProteinTallies)
    requires row.annotation.Some?
    ensures r.Err? ==>
              if NTermFails(st, row, trie) then r.msg == NTermError(st, row, trie)
              else AfterNTerm(st, row, trie, pt1) && CTermFails(st, row, trie, pt1) && r.msg == CTermError(st, row, trie, pt1)
    ensures r.Ok? ==> AfterNTerm(st, row, trie, pt1) && AfterCTerm(st, row, trie, pt1, r.value)
  {
    var a := row.annotation.value;
    var n := FindBestMatch(trie(a.nTermWindow));
    var c := FindBestMatch(trie(a.cTermWindow));
    var pt := TalliesOf(st, a.proteinId);
    if n != "" {
      var counted := TallyWindow(pt, n, n, a.nTermWindow);
      if counted.Err? {
        return Err(counted.msg), pt;
      }
      pt := counted.value;
    }
    pt1 := pt;
    if c != "" {
      var counted := TallyWindow(pt, n, c, a.cTermWindow);
      if counted.Err? {
        return Err(counted.msg), pt1;
      }
      pt := counted.value;
    }
    r := Ok(pt);
  }

  /** Counting the N-term window of an annotated row raises. */
  ghost predicate NTermFails(st: MatchState, row: Kmer.PeptideRow, trie: Trie)
    requires row.annotation.Some?
  {
    var a := row.annotation.value;
    var n := FindBestMatch(trie(a.nTermWindow));
    n != "" && AddTo(TalliesOf(st, a.proteinId), n, a.nTermWindow).Err?
  }

  ghost function NTermError(st: MatchState, row: Kmer.PeptideRow, trie: Trie): string
    requires row.annotation.Some? && NTermFails(st, row, trie)
  {
    var a := row.annotation.value;
    AddTo(TalliesOf(st, a.proteinId), FindBestMatch(trie(a.nTermWindow)), a.nTermWindow).msg
  }

  /** Counting the C-term window raises, after the N-term window left `pt1`. */
  ghost predicate CTermFails(st: MatchState, row: Kmer.PeptideRow, trie: Trie, pt1: ProteinTallies)
    requires row.annotation.Some?
  {
    var a := row.annotation.value;
    var c := FindBestMatch(trie(a.cTermWindow));
    c != "" && AddTo(pt1, FindBestMatch(trie(a.nTermWindow)), a.cTermWindow).Err?
  }

  ghost function CTermError(st: MatchState, row: Kmer.PeptideRow, trie: Trie, pt1: ProteinTallies): string
    requires row.annotation.Some? && CTermFails(st, row, trie, pt1)
  {
    var a := row.annotation.value;
    AddTo(pt1, FindBestMatch(trie(a.nTermWindow)), a.cTermWindow).msg
  }

  /** `pt1` is the protein's tallies once an annotated row's N-term window
      is counted. */
  ghost predicate AfterNTerm(st: MatchState, row: Kmer.PeptideRow, trie: Trie, pt1: ProteinTallies)
    requires row.annotation.Some?
  {
    var a := row.annotation.value;
    var n := FindBestMatch(trie(a.nTermWindow));
    var pt := TalliesOf(st, a.proteinId);
    if n != "" then AddTo(pt, n, a.nTermWindow).Ok? && pt1 == CountOne(AddTo(pt, n, a.nTermWindow).value, n)
    else pt1 == pt
  }

  /** `pt2` is the protein's tallies once the C-term window is counted too. */
  ghost predicate AfterCTerm(st: MatchState, row: Kmer.PeptideRow, trie: Trie, pt1: ProteinTallies, pt2: ProteinTallies)
    requires row.annotation.Some?
  {
    var a := row.annotation.value;
    var n := FindBestMatch(trie(a.nTermWindow));
    var c := FindBestMatch(trie(a.cTermWindow));
    if c != "" then AddTo(pt1, n, a.cTermWindow).Ok? && pt2 == CountOne(AddTo(pt1, n, a.cTermWindow).value, c)
    else pt2 == pt1
  }

  lemma RowStepNTermFails(st: MatchState, row: Kmer.PeptideRow, trie: Trie)
    requires row.annotation.Some? && NTermFails(st, row, trie)
    ensures RowStep(st, row, trie) == Err(NTermError(st, row, trie))
  {
  }

  lemma RowStepCTermFails(st: MatchState, row: Kmer.PeptideRow, trie: Trie, pt1: ProteinTallies)
    requires row.annotation.Some? && AfterNTerm(st, row, trie, pt1) && CTermFails(st, row, trie, pt1)
    ensures RowStep(st, row, trie) == Err(CTermError(st, row, trie, pt1))
  {
  }

  lemma RowStepSucceeds(st: MatchState, row: Kmer.PeptideRow, trie: Trie, pt1: ProteinTallies, pt2: ProteinTallies)
    requires row.annotation.Some? && AfterNTerm(st, row, trie, pt1) && AfterCTerm(st, row, trie, pt1, pt2)
    ensures var a := row.annotation.value;
            var pid := a.proteinId;
            var n := FindBestMatch(trie(a.nTermWindow));
            var c := FindBestMatch(trie(a.cTermWindow));
            var proteins := if pid in st.cleavages then st.proteins else st.proteins + [pid];
            RowStep(st, row, trie)
              == Ok(MatchState(proteins,
                               st.cleavages[pid := CleavagesOf(st, pid) + CleavageIf(a.nTermPosition, n) + CleavageIf(a.cTermPosition, c)],
                               st.tallies[pid := pt2],
                               st.totals + Matched(n) + Matched(c)))
  {
    var a := row.annotation.value;
    var n := FindBestMatch(trie(a.nTermWindow));
    var c := FindBestMatch(trie(a.cTermWindow));
    var pt := TalliesOf(st, a.proteinId);
    var r1 := if n != "" then AddTo(pt, n, a.nTermWindow) else Ok(pt);
    assert r1.Ok? && (if n != "" then CountOne(r1.value, n) else r1.value) == pt1;
    var r2 := if c != "" then AddTo(pt1, n, a.cTermWindow) else Ok(pt1);
    assert r2.Ok? && (if c != "" then CountOne(r2.value, c) else r2.value) == pt2;
  }

  /** The enzyme loop of one protein. */
  method SummarizeProtein(cleavages: seq<Cleavage>, pt: ProteinTallies) returns (r: Result<ProteinResult>)
    ensures r == Summarize(cleavages, pt)
  {
    var deduped := Unique(cleavages);
    var results := [];
    for i := 0 to |pt.order|
      invariant EnzymeResults(pt, deduped, i) == Ok(results)
    {
      var e := pt.order[i];
      var count := CountOf(deduped, e);
      if count == 0 {
        EnzymeResultsErrPersists(pt, deduped, i + 1, |pt.order|);
        return Err("KeyError");
      }
      var t := TallyOf(pt, e);
      var motif := RelativeMotif(t.motif, t.total);
      results := results + [EnzymeResult(e, motif, count)];
    }
    return Ok(ProteinResult(deduped, SortByCount(results)));
  }

  /** `map_sites_to_enzymes`: the row loop, then the protein loop. */
  method MapSitesToEnzymes(rows: seq<Kmer.PeptideRow>, trie: Trie)
    returns (r: Result<(seq<(Option<string>, ProteinResult)>, multiset<string>)>)
    ensures r == MapSites(rows, trie)
  {
    var collected := RecordRows(rows, trie);
    if collected.Err? {
      return Err(collected.msg);
    }
    var st := collected.value;
    var results := SummarizeProteins(st);
    if results.Err? {
      return Err(results.msg);
    }
    r := Ok((results.value, st.totals));
  }

  /** The row loop of `map_sites_to_enzymes`. */
  method RecordRows(rows: seq<Kmer.PeptideRow>, trie: Trie) returns (r: Result<MatchState>)
    ensures r == MapRows(rows, trie)
  {
    var st := Start;
    for k := 0 to |rows|
      invariant MapRows(rows[..k], trie) == Ok(st)
    {
      var next := RecordRow(st, rows[k], trie);
      MapRowsSnoc(rows, trie, k, st);
      if next.Err? {
        MapRowsErrPersists(rows, trie, k + 1);
        return Err(next.msg);
      }
      st := next.value;
    }
    assert rows[..|rows|] == rows;
    return Ok(st);
  }

  /** One more row: the state after it is the row's step from the state
      before it. */
  lemma MapRowsSnoc(rows: seq<Kmer.PeptideRow>, trie: Trie, k: nat, st: MatchState)
    requires k < |rows| && MapRows(rows[..k], trie) == Ok(st)
    ensures MapRows(rows[..k + 1], trie) == RowStep(st, rows[k], trie)
  {
    assert rows[..k + 1][..k] == rows[..k];
  }

  /** The protein loop of `map_sites_to_enzymes`. */
  method SummarizeProteins(st: MatchState) returns (r: Result<seq<(Option<string>, ProteinResult)>>)
    ensures r == Results(st, |st.proteins|)
  {
    var results := [];
    for i := 0 to |st.proteins|
      invariant Results(st, i) == Ok(results)
    {
      var pid := st.proteins[i];
      var summary := SummarizeProtein(CleavagesOf(st, pid), TalliesOf(st, pid));
      if summary.Err? {
        ResultsErrPersists(st, i + 1, |st.proteins|);
        return Err(summary.msg);
      }
      assert Results(st, i + 1) == Ok(results + [(pid, summary.value)]);
      results := results + [(pid, summary.value)];
    }
    return Ok(results);
  }

  // ----- what the pass promises -----

  /** With non-empty labels, every row adds one N-term and one C-term
      match to the overall counts. */
  lemma {:induction false} TwoMatchesPerRow(rows: seq<Kmer.PeptideRow>, trie: Trie)
    requires NamedLabels(trie) && MapRows(rows, trie).Ok?
    ensures |MapRows(rows, trie).value.totals| == 2 * |rows|
  {
    if rows != [] {
      var init, row := rows[..|rows| - 1], rows[|rows| - 1];
      TwoMatchesPerRow(init, trie);
      var a := row.annotation.value;
      BestMatchTruthy(trie, a.nTermWindow);
      BestMatchTruthy(trie, a.cTermWindow);
    }
  }

  /** The count of an enzyme is the number of distinct (position, enzyme)
      cleavages of the protein, i.e. its distinct cleavage positions. */
  lemma DistinctCleavageCount(cleavages: seq<Cleavage>, e: string)
    ensures CountOf(Unique(cleavages), e) == |set c | c in cleavages && c.name == e|
  {
    CountOfDistinct(Unique(cleavages), cleavages, e);
  }

  lemma CountOfDistinct(u: seq<Cleavage>, cleavages: seq<Cleavage>, e: string)
    requires NoDuplicates(u) && forall c :: c in u <==> c in cleavages
    ensures CountOf(u, e) == |set c | c in cleavages && c.name == e|
  {
    var named := set c | c in cleavages && c.name == e;
    assert forall c :: c in named <==> c in u && NamedAs(e)(c);
    DistinctFilterCard(NamedAs(e), u, named);
    CountOfFilter(u, e);
  }

  /** A row without annotation columns makes the pass raise. */
  lemma {:induction false} UnannotatedRowFails(rows: seq<Kmer.PeptideRow>, trie: Trie, k: nat)
    requires k < |rows| && rows[k].annotation.None?
    ensures MapRows(rows, trie).Err?
  {
    var init := rows[..|rows| - 1];
    if k < |rows| - 1 {
      assert init[k] == rows[k];
      UnannotatedRowFails(init, trie, k);
    }
  }

  /** Both windows of a row are credited to the motif of its N-term match,
      while each match's `total` counts its own cleavage. */
  lemma CTermCreditsNTermEnzyme(st: MatchState, row: Kmer.PeptideRow, trie: Trie)
    requires row.annotation.Some? && RowStep(st, row, trie).Ok?
    requires var a := row.annotation.value;
             var n := FindBestMatch(trie(a.nTermWindow));
             var c := FindBestMatch(trie(a.cTermWindow));
             n != "" && c != "" && n != c
    ensures var a := row.annotation.value;
            var n := FindBestMatch(trie(a.nTermWindow));
            var c := FindBestMatch(trie(a.cTermWindow));
            var before := TalliesOf(st, a.proteinId);
            var after := TalliesOf(RowStep(st, row, trie).value, a.proteinId);
            && TallyOf(after, n).total == TallyOf(before, n).total + 1
            && TallyOf(after, c).total == TallyOf(before, c).total + 1
            && TallyOf(after, c).motif == TallyOf(before, c).motif
            && |TallyOf(after, n).motif| == |TallyOf(before, n).motif|
            && forall i :: 0 <= i < |TallyOf(before, n).motif| ==>
                 TallyOf(after, n).motif[i]
                   == TallyOf(before, n).motif[i] + ResidueAt(a.nTermWindow, i) + ResidueAt(a.cTermWindow, i)
  {
    var a := row.annotation.value;
    var n := FindBestMatch(trie(a.nTermWindow));
    var c := FindBestMatch(trie(a.cTermWindow));
    var before := TalliesOf(st, a.proteinId);
    var pt1 := CountOne(AddTo(before, n, a.nTermWindow).value, n);
    var pt2 := CountOne(AddTo(pt1, n, a.cTermWindow).value, c);
    assert TalliesOf(RowStep(st, row, trie).value, a.proteinId) == pt2;
    AddToTally(before, n, a.nTermWindow);
    AddToTally(pt1, n, a.cTermWindow);
  }

  /** Adding a window changes only the motif of its enzyme, by the
      window's residues; an empty window changes nothing. */
  lemma AddToTally(pt: ProteinTallies, e: string, window: string)
    requires AddTo(pt, e, window).Ok?
    ensures var t := TallyOf(pt, e);
            var after := AddTo(pt, e, window).value;
            && |window| <= |t.motif|
            && TallyOf(after, e).total == t.total
            && |TallyOf(after, e).motif| == |t.motif|
            && (forall i :: 0 <= i < |t.motif| ==> TallyOf(after, e).motif[i] == t.motif[i] + ResidueAt(window, i))
            && (forall x :: x != e ==> TallyOf(after, x) == TallyOf(pt, x))
  {
    var t := TallyOf(pt, e);
    if window == "" {
      assert forall i :: 0 <= i < |t.motif| ==> t.motif[i] + ResidueAt(window, i) == t.motif[i];
    }
  }

  /** The enzymes a row gives an entry in its protein's tallies: the
      N-term match when it is truthy, or when a matched C-term window has
      residues to credit to it; and the C-term match when it is truthy. An
      empty C-term window gives the N-term match no entry. */
  lemma RowStepEnzymes(st: MatchState, row: Kmer.PeptideRow, trie: Trie)
    requires row.annotation.Some? && RowStep(st, row, trie).Ok?
    ensures var a := row.annotation.value;
            var n := FindBestMatch(trie(a.nTermWindow));
            var c := FindBestMatch(trie(a.cTermWindow));
            var before := TalliesOf(st, a.proteinId);
            var after := TalliesOf(RowStep(st, row, trie).value, a.proteinId);
            forall e :: e in after.byEnzyme <==>
                          || e in before.byEnzyme
                          || (e == n && (n != "" || (c != "" && a.cTermWindow != "")))
                          || (e == c && c != "")
  {
    var a := row.annotation.value;
    var n := FindBestMatch(trie(a.nTermWindow));
    var c := FindBestMatch(trie(a.cTermWindow));
    var before := TalliesOf(st, a.proteinId);
    var r1 := if n != "" then AddTo(before, n, a.nTermWindow) else Ok(before);
    var pt1 := if n != "" then CountOne(r1.value, n) else r1.value;
    var r2 := if c != "" then AddTo(pt1, n, a.cTermWindow) else Ok(pt1);
    var pt2 := if c != "" then CountOne(r2.value, c) else r2.value;
    assert TalliesOf(RowStep(st, row, trie).value, a.proteinId) == pt2;
    if n != "" {
      AddToKeys(before, n, a.nTermWindow);
      CountOneKeys(r1.value, n);
    }
    if c != "" {
      AddToKeys(pt1, n, a.cTermWindow);
      CountOneKeys(r2.value, c);
    }
  }

  lemma CountOneKeys(pt: ProteinTallies, e: string)
    ensures forall x :: x in CountOne(pt, e).byEnzyme <==> x in pt.byEnzyme || x == e
  {
  }

  /** A non-empty window gives its enzyme an entry; an empty one adds none. */
  lemma AddToKeys(pt: ProteinTallies, e: string, window: string)
    requires AddTo(pt, e, window).Ok?
    ensures forall x :: x in AddTo(pt, e, window).value.byEnzyme <==>
                          x in pt.byEnzyme || (x == e && window != "")
  {
  }

  /** The row of a zero-site annotation whose N-term window matches only a
      falsy label: its empty C-term window credits nothing to that label,
      so the protein's only enzyme is the C-term match and the pass
      succeeds. */
  lemma EmptyWindowRowSucceeds(row: Kmer.PeptideRow, trie: Trie)
    requires row.annotation.Some? && row.annotation.value.cTermWindow == ""
    requires FindBestMatch(trie(row.annotation.value.nTermWindow)) == ""
    requires FindBestMatch(trie(row.annotation.value.cTermWindow)) != ""
    ensures MapSites([row], trie).Ok?
  {
    var a := row.annotation.value;
    var c := FindBestMatch(trie(a.cTermWindow));
    var cleavages := [Cleavage(a.cTermPosition, c)];
    var pt := CountOne(NoTallies, c);
    var st := MatchState([a.proteinId], map[a.proteinId := cleavages], map[a.proteinId := pt], multiset{c});
    EmptyWindowRowStep(row, trie);
    assert [row][..0] == [];
    assert MapRows([row], trie) == Ok(st);
    OnlyEnzymeNamed(a.cTermPosition, c);
    assert Results(st, 0) == Ok([]);
  }

  /** The step of such a row from the start state. */
  lemma EmptyWindowRowStep(row: Kmer.PeptideRow, trie: Trie)
    requires row.annotation.Some? && row.annotation.value.cTermWindow == ""
    requires FindBestMatch(trie(row.annotation.value.nTermWindow)) == ""
    requires FindBestMatch(trie(row.annotation.value.cTermWindow)) != ""
    ensures var a := row.annotation.value;
            var c := FindBestMatch(trie(a.cTermWindow));
            RowStep(Start, row, trie)
              == Ok(MatchState([a.proteinId], map[a.proteinId := [Cleavage(a.cTermPosition, c)]],
                               map[a.proteinId := CountOne(NoTallies, c)], multiset{c}))
  {
    var a := row.annotation.value;
    var c := FindBestMatch(trie(a.cTermWindow));
    assert AddTo(NoTallies, "", a.cTermWindow) == Ok(NoTallies);
    assert [] + CleavageIf(a.nTermPosition, "") + CleavageIf(a.cTermPosition, c) == [Cleavage(a.cTermPosition, c)];
    assert multiset{} + Matched("") + Matched(c) == multiset{c};
    assert Start.proteins + [a.proteinId] == [a.proteinId];
  }

  /** A protein whose one enzyme has one cleavage of its own summarizes. */
  lemma OnlyEnzymeNamed(position: int, c: string)
    ensures Summarize([Cleavage(position, c)], CountOne(NoTallies, c)).Ok?
  {
    var cleavages := [Cleavage(position, c)];
    var pt := CountOne(NoTallies, c);
    assert pt.order == [c];
    assert cleavages[0] in cleavages && cleavages[0].name == pt.order[0];
    SummaryFails(cleavages, pt);
  }

  /** The enzyme loop, entry by entry: it fails exactly when some enzyme
      of the protein has no cleavage under its own name. */
  lemma {:induction false} EnzymeResultsFail(pt: ProteinTallies, deduped: seq<Cleavage>, upto: nat)
    requires upto <= |pt.order|
    ensures EnzymeResults(pt, deduped, upto).Ok?
            <==> (forall k :: 0 <= k < upto ==> CountOf(deduped, pt.order[k]) > 0)
  {
    if upto > 0 {
      EnzymeResultsFail(pt, deduped, upto - 1);
      var e := pt.order[upto - 1];
      assert EnzymeResults(pt, deduped, upto).Ok?
             == (EnzymeResults(pt, deduped, upto - 1).Ok? && CountOf(deduped, e) > 0);
      if EnzymeResults(pt, deduped, upto).Ok? {
        assert forall k :: 0 <= k < upto ==> CountOf(deduped, pt.order[k]) > 0 by {
          assert forall k :: 0 <= k < upto - 1 ==> CountOf(deduped, pt.order[k]) > 0;
        }
      }
    }
  }

  lemma {:induction false} EnzymeResultsEntries(pt: ProteinTallies, deduped: seq<Cleavage>, upto: nat)
    requires upto <= |pt.order| && EnzymeResults(pt, deduped, upto).Ok?
    ensures var rs := EnzymeResults(pt, deduped, upto).value;
            && |rs| == upto
            && forall k :: 0 <= k < upto ==> rs[k] == EntryFor(pt, deduped, pt.order[k])
  {
    if upto > 0 {
      EnzymeResultsEntries(pt, deduped, upto - 1);
    }
  }

  /** An enzyme is counted exactly when some cleavage carries its name. */
  lemma CountedIffNamed(cleavages: seq<Cleavage>, e: string)
    ensures CountOf(Unique(cleavages), e) > 0 <==> exists c :: c in cleavages && c.name == e
  {
    DistinctCleavageCount(cleavages, e);
    var named := set c | c in cleavages && c.name == e;
    if exists c :: c in cleavages && c.name == e {
      var c :| c in cleavages && c.name == e;
      assert c in named;
    } else {
      assert named == {};
    }
  }

  /** A protein's summary raises KeyError exactly when one of its enzymes
      has no cleavage under its own name. */
  lemma SummaryFails(cleavages: seq<Cleavage>, pt: ProteinTallies)
    ensures Summarize(cleavages, pt).Ok?
            <==> (forall k :: 0 <= k < |pt.order| ==> exists c :: c in cleavages && c.name == pt.order[k])
  {
    EnzymeResultsFail(pt, Unique(cleavages), |pt.order|);
    forall k | 0 <= k < |pt.order|
      ensures CountOf(Unique(cleavages), pt.order[k]) > 0
              <==> exists c :: c in cleavages && c.name == pt.order[k]
    {
      CountedIffNamed(cleavages, pt.order[k]);
    }
  }

  /** The `enzyme_result` entries of a protein, in the order its enzymes
      were first tallied. */
  function Entries(pt: ProteinTallies, deduped: seq<Cleavage>): (r: seq<EnzymeResult>)
    ensures |r| == |pt.order| && forall k :: 0 <= k < |r| ==> r[k] == EntryFor(pt, deduped, pt.order[k])
  {
    seq(|pt.order|, k requires 0 <= k < |pt.order| => EntryFor(pt, deduped, pt.order[k]))
  }

  /** One protein's result: the distinct cleavages, and the entries of its
      tallied enzymes rearranged, most cleavages first; each entry carries
      its enzyme's relative motif and counts its distinct cleavages. */
  lemma SummaryMeaning(cleavages: seq<Cleavage>, pt: ProteinTallies)
    requires Summarize(cleavages, pt).Ok?
    ensures var pr := Summarize(cleavages, pt).value;
            && pr.cleavages == Unique(cleavages)
            && multiset(pr.enzymes) == multiset(Entries(pt, pr.cleavages))
            && |pr.enzymes| == |pt.order|
            && NonIncreasing(pr.enzymes)
            && (forall e :: e in pt.order ==> EntryFor(pt, pr.cleavages, e) in pr.enzymes)
            && forall x :: x in pr.enzymes ==>
                 && x.name in pt.order
                 && x == EntryFor(pt, pr.cleavages, x.name)
                 && x.motif == RelativeMotif(TallyOf(pt, x.name).motif, TallyOf(pt, x.name).total)
                 && x.count == |set c | c in cleavages && c.name == x.name|
                 && x.count > 0
  {
    var u := Unique(cleavages);
    var rs := EnzymeResults(pt, u, |pt.order|).value;
    EnzymeResultsEntries(pt, u, |pt.order|);
    EnzymeResultsFail(pt, u, |pt.order|);
    assert rs == Entries(pt, u);
    var sorted := SortByCount(rs);
    SortKeepsElements(rs);
    assert |sorted| == |multiset(sorted)| == |multiset(rs)| == |rs|;
    forall e | e in pt.order ensures EntryFor(pt, u, e) in sorted {
      var k :| 0 <= k < |pt.order| && pt.order[k] == e;
      assert rs[k] in multiset(sorted);
    }
    forall x | x in sorted
      ensures x.name in pt.order && x == EntryFor(pt, u, x.name)
      ensures x.count == |set c | c in cleavages && c.name == x.name| && x.count > 0
    {
      assert x in multiset(rs);
      var k :| 0 <= k < |rs| && rs[k] == x;
      DistinctCleavageCount(cleavages, x.name);
    }
  }

  /** When the protein's enzymes were tallied once each, as every pass
      leaves them (`PassTalliesKeyed`), each enzyme appears exactly once
      in its result. */
  lemma SummaryNamesDistinct(cleavages: seq<Cleavage>, pt: ProteinTallies)
    requires Summarize(cleavages, pt).Ok? && NoDuplicates(pt.order)
    ensures var pr := Summarize(cleavages, pt).value;
            forall i, j :: 0 <= i < j < |pr.enzymes| ==> pr.enzymes[i].name != pr.enzymes[j].name
  {
    var pr := Summarize(cleavages, pt).value;
    var entries := Entries(pt, pr.cleavages);
    SummaryMeaning(cleavages, pt);
    forall i, j | 0 <= i < j < |entries| ensures entries[i] != entries[j] {
      assert entries[i].name == pt.order[i] && entries[j].name == pt.order[j];
    }
    PermutationKeepsDistinct(pr.enzymes, entries);
    forall i, j | 0 <= i < j < |pr.enzymes| ensures pr.enzymes[i].name != pr.enzymes[j].name {
      assert pr.enzymes[i] in pr.enzymes && pr.enzymes[j] in pr.enzymes;
    }
  }

  /** A protein's enzyme list has no repeats and names exactly the enzymes
      with a tally. */
  ghost predicate Keyed(pt: ProteinTallies) {
    NoDuplicates(pt.order) && forall e :: e in pt.order <==> e in pt.byEnzyme
  }

  ghost predicate AllKeyed(st: MatchState) {
    KeyedIn(st.tallies)
  }

  ghost predicate KeyedIn(tallies: map<Option<string>, ProteinTallies>) {
    forall pid :: pid in tallies ==> Keyed(tallies[pid])
  }

  lemma TouchKeyed(pt: ProteinTallies, e: string)
    requires Keyed(pt)
    ensures Keyed(Touch(pt, e)) && e in Touch(pt, e).byEnzyme
  {
    if e !in pt.byEnzyme {
      var order := pt.order + [e];
      forall i, j | 0 <= i < j < |order| ensures order[i] != order[j] {
        assert order[i] == pt.order[i];
        if j < |pt.order| { assert order[j] == pt.order[j]; }
      }
    }
  }

  lemma CountOneKeyed(pt: ProteinTallies, e: string)
    requires Keyed(pt)
    ensures Keyed(CountOne(pt, e))
  {
    TouchKeyed(pt, e);
  }

  lemma AddToKeyed(pt: ProteinTallies, e: string, window: string)
    requires Keyed(pt) && AddTo(pt, e, window).Ok?
    ensures Keyed(AddTo(pt, e, window).value)
  {
    TouchKeyed(pt, e);
  }

  /** One row keeps every protein's enzyme list keyed. */
  lemma RowStepKeyed(st: MatchState, row: Kmer.PeptideRow, trie: Trie)
    requires AllKeyed(st) && RowStep(st, row, trie).Ok?
    ensures AllKeyed(RowStep(st, row, trie).value)
  {
    var a := row.annotation.value;
    var pid := a.proteinId;
    var n := FindBestMatch(trie(a.nTermWindow));
    var c := FindBestMatch(trie(a.cTermWindow));
    var pt := if pid in st.tallies then st.tallies[pid] else NoTallies;
    var r1 := if n != "" then AddTo(pt, n, a.nTermWindow) else Ok(pt);
    if n != "" {
      AddToKeyed(pt, n, a.nTermWindow);
      CountOneKeyed(r1.value, n);
    }
    var pt1 := if n != "" then CountOne(r1.value, n) else r1.value;
    var r2 := if c != "" then AddTo(pt1, n, a.cTermWindow) else Ok(pt1);
    if c != "" {
      AddToKeyed(pt1, n, a.cTermWindow);
      CountOneKeyed(r2.value, c);
    }
    var pt2 := if c != "" then CountOne(r2.value, c) else r2.value;
    assert RowStep(st, row, trie).value.tallies == st.tallies[pid := pt2];
    KeyedUpdate(st.tallies, pid, pt2);
  }

  /** Each protein's result lines up with its summary. */
  lemma {:induction false} ResultsAligned(st: MatchState, upto: nat)
    requires upto <= |st.proteins| && Results(st, upto).Ok?
    ensures var rs := Results(st, upto).value;
            && |rs| == upto
            && forall i :: 0 <= i < upto ==>
                 rs[i].0 == st.proteins[i] &&
                 Summarize(CleavagesOf(st, st.proteins[i]), TalliesOf(st, st.proteins[i])) == Ok(rs[i].1)
  {
    if upto > 0 {
      ResultsAligned(st, upto - 1);
      var rs := Results(st, upto - 1).value;
      var pid := st.proteins[upto - 1];
      var pr := Summarize(CleavagesOf(st, pid), TalliesOf(st, pid));
      assert Results(st, upto) == Ok(rs + [(pid, pr.value)]);
    }
  }

  /** In the result of a whole pass every enzyme appears once per protein. */
  lemma MapSitesEnzymesOnce(rows: seq<Kmer.PeptideRow>, trie: Trie)
    requires MapSites(rows, trie).Ok?
    ensures var rs := MapSites(rows, trie).value.0;
            forall k, i, j :: 0 <= k < |rs| && 0 <= i < j < |rs[k].1.enzymes| ==>
              rs[k].1.enzymes[i].name != rs[k].1.enzymes[j].name
  {
    var st := MapRows(rows, trie).value;
    var rs := MapSites(rows, trie).value.0;
    PassTalliesKeyed(rows, trie);
    ResultsAligned(st, |st.proteins|);
    forall k | 0 <= k < |rs|
      ensures forall i, j :: 0 <= i < j < |rs[k].1.enzymes| ==> rs[k].1.enzymes[i].name != rs[k].1.enzymes[j].name
    {
      var pid := st.proteins[k];
      assert Keyed(TalliesOf(st, pid));
      SummaryNamesDistinct(CleavagesOf(st, pid), TalliesOf(st, pid));
    }
  }

  lemma KeyedUpdate(tallies: map<Option<string>, ProteinTallies>, pid: Option<string>, pt: ProteinTallies)
    requires KeyedIn(tallies) && Keyed(pt)
    ensures KeyedIn(tallies[pid := pt])
  {
  }

  /** After the row loop every protein's enzymes were tallied once each. */
  lemma {:induction false} PassTalliesKeyed(rows: seq<Kmer.PeptideRow>, trie: Trie)
    requires MapRows(rows, trie).Ok?
    ensures AllKeyed(MapRows(rows, trie).value)
  {
    if rows != [] {
      PassTalliesKeyed(rows[..|rows| - 1], trie);
      RowStepKeyed(MapRows(rows[..|rows| - 1], trie).value, rows[|rows| - 1], trie);
    }
  }
}

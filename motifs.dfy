/** `motifs.py`: per-enzyme count tables filled from the enzyme table, their
    position-specific scoring matrices (PSSMs), the patterns read off a PSSM
    by thresholding, and the enzyme-table filter of the motif path. */
module Motifs {
  import opened Common
  import opened Constants
  import Preprocessing

  /** A table over the eight sites (rows, in `SiteColumns()` order) and the
      twenty amino acids (columns, in `Alphabet()` order). */
  type Table = seq<seq<real>>

  predicate IsTable(t: Table) {
    |t| == 8 && forall s :: 0 <= s < 8 ==> |t[s]| == 20
  }

  /** `pd.DataFrame(0, index=site_columns, columns=amino_acids)`. */
  function ZeroTable(): (r: Table)
    ensures IsTable(r)
    ensures forall s, a :: 0 <= s < 8 && 0 <= a < 20 ==> r[s][a] == 0.0
  {
    Repeat(Repeat(0.0, 20), 8)
  }

  // ----- calculate_pssms -----

  /** Biopython's log-odds score of amino acid `a` at row `i` of a count
      matrix, against the background; the arithmetic is not modelled. */
  type LogOdds = (seq<seq<real>>, nat, nat) -> real

  /** A site whose counts are all zero. */
  predicate ZeroRow(row: seq<real>) {
    forall a :: 0 <= a < |row| ==> row[a] == 0.0
  }

  predicate Observed(row: seq<real>) {
    !ZeroRow(row)
  }

  /** `site_counts_clean`: the sites with a non-zero count, in site order. */
  function CleanRows(t: Table): (r: seq<seq<real>>)
    ensures |r| <= |t|
  {
    if t == [] then []
    else CleanRows(t[..|t| - 1]) + (if Observed(t[|t| - 1]) then [t[|t| - 1]] else [])
  }

  /** The clean rows of a prefix of the table begin the clean rows of the
      whole table. */
  lemma {:induction false} CleanRowsOfPrefix(t: Table, k: nat)
    requires k <= |t|
    ensures |CleanRows(t[..k])| <= |CleanRows(t)|
    ensures CleanRows(t)[..|CleanRows(t[..k])|] == CleanRows(t[..k])
  {
    if k < |t| {
      var init := t[..|t| - 1];
      assert init[..k] == t[..k];
      CleanRowsOfPrefix(init, k);
    } else {
      assert t[..k] == t;
    }
  }

  /** With no clean row left, every site is empty. */
  lemma {:induction false} NoCleanRowsAllZero(t: Table)
    requires CleanRows(t) == []
    ensures forall i :: 0 <= i < |t| ==> ZeroRow(t[i])
  {
    if t != [] {
      var init := t[..|t| - 1];
      NoCleanRowsAllZero(init);
      assert forall i :: 0 <= i < |t| - 1 ==> t[i] == init[i];
    }
  }

  /** The number of non-empty sites before site `s`: the row of the clean
      matrix that site `s` lands in. */
  function ObservedBefore(t: Table, s: nat): (r: nat)
    requires s <= |t|
    ensures r <= s
  {
    if s == 0 then 0 else ObservedBefore(t, s - 1) + (if Observed(t[s - 1]) then 1 else 0)
  }

  /** Row `s` of a code's PSSM: all 0.0 for an empty site, otherwise the
      scores of the clean row that holds this site. */
  function PssmRow(t: Table, s: nat, logOdds: LogOdds): (r: seq<real>)
    requires IsTable(t) && s < 8
    ensures |r| == 20
  {
    if ZeroRow(t[s]) then Repeat(0.0, 20)
    else ScoredRow(CleanRows(t), ObservedBefore(t, s), logOdds)
  }

  /** The twenty scores of row `i` of the clean count matrix. */
  function ScoredRow(clean: seq<seq<real>>, i: nat, logOdds: LogOdds): (r: seq<real>)
    ensures |r| == 20
  {
    seq(20, a requires 0 <= a < 20 => logOdds(clean, i, a))
  }

  /** `full_pssm` of one code. */
  function CodePssm(t: Table, logOdds: LogOdds): (r: Table)
    requires IsTable(t)
    ensures IsTable(r)
  {
    seq(8, s requires 0 <= s < 8 => PssmRow(t, s, logOdds))
  }

  /** The clean row a non-empty site is scored at holds that site's own
      counts, so each non-empty site keeps its own scores. */
  lemma ScoredRowIsSite(t: Table, s: nat)
    requires IsTable(t) && s < 8 && Observed(t[s])
    ensures ObservedBefore(t, s) < |CleanRows(t)|
    ensures CleanRows(t)[ObservedBefore(t, s)] == t[s]
  {
    CountIsCleanPrefix(t, s);
    assert t[..s + 1][..s] == t[..s];
    assert CleanRows(t[..s + 1]) == CleanRows(t[..s]) + [t[s]];
    CleanRowsOfPrefix(t, s + 1);
  }

  lemma {:induction false} CountIsCleanPrefix(t: Table, s: nat)
    requires s <= |t|
    ensures ObservedBefore(t, s) == |CleanRows(t[..s])|
  {
    if s > 0 {
      CountIsCleanPrefix(t, s - 1);
      assert t[..s][..s - 1] == t[..s - 1];
    }
  }

  /** `calculate_pssms`: one PSSM per code, in the order of the codes. */
  method CalculatePssms(counts: seq<(string, Table)>, logOdds: LogOdds) returns (pssms: seq<(string, Table)>)
    requires forall i :: 0 <= i < |counts| ==> IsTable(counts[i].1)
    ensures |pssms| == |counts|
    ensures forall i :: 0 <= i < |counts| ==> pssms[i] == (counts[i].0, CodePssm(counts[i].1, logOdds))
  {
    pssms := [];
    for c := 0 to |counts|
      invariant |pssms| == c
      invariant forall i :: 0 <= i < c ==> pssms[i] == (counts[i].0, CodePssm(counts[i].1, logOdds))
    {
      var full := FullPssm(counts[c].1, logOdds);
      pssms := pssms + [(counts[c].0, full)];
    }
  }

  /** The body of the code loop: start from zeros and write the scores of
      the clean rows into their sites. */
  method FullPssm(t: Table, logOdds: LogOdds) returns (full: Table)
    requires IsTable(t)
    ensures full == CodePssm(t, logOdds)
  {
    var clean := CleanRows(t);
    full := ZeroTable();
    if clean == [] {
      NoCleanRowsAllZero(t);
      return;
    }
    full := WriteScores(t, clean, logOdds);
  }

  /** `full_pssm.loc[clean.index] = pssm_df`, site by site. */
  method WriteScores(t: Table, clean: seq<seq<real>>, logOdds: LogOdds) returns (full: Table)
    requires IsTable(t) && clean == CleanRows(t)
    ensures full == CodePssm(t, logOdds)
  {
    full := ZeroTable();
    var i := 0;
    for s := 0 to 8
      invariant |full| == 8
      invariant i == ObservedBefore(t, s)
      invariant forall s' :: 0 <= s' < s ==> full[s'] == PssmRow(t, s', logOdds)
      invariant forall s' :: s <= s' < 8 ==> full[s'] == Repeat(0.0, 20)
    {
      if Observed(t[s]) {
        full := full[s := ScoredRow(clean, i, logOdds)];
        i := i + 1;
      }
    }
  }

  // ----- pssm_to_regex -----

  const Threshold: real := 1.68

  /** Indices of the amino acids among the first `n` whose score exceeds
      the threshold, in alphabet order. */
  function EnrichedUpTo(row: seq<real>, n: nat): (r: seq<nat>)
    requires n <= |row|
    ensures forall i :: 0 <= i < |r| ==> r[i] < n
  {
    if n == 0 then []
    else EnrichedUpTo(row, n - 1) + (if row[n - 1] > Threshold then [n - 1] else [])
  }

  /** The enriched indices are increasing and are exactly the scores above
      the threshold. */
  lemma {:induction false} EnrichedUpToMeaning(row: seq<real>, n: nat)
    requires n <= |row|
    ensures forall i, j :: 0 <= i < j < |EnrichedUpTo(row, n)| ==> EnrichedUpTo(row, n)[i] < EnrichedUpTo(row, n)[j]
    ensures forall a :: a in EnrichedUpTo(row, n) <==> 0 <= a < n && row[a] > Threshold
  {
    if n > 0 {
      EnrichedUpToMeaning(row, n - 1);
    }
  }

  /** Amino-acid indices as one-letter strings. */
  function Letters(idx: seq<nat>): (r: seq<string>)
    requires forall i :: 0 <= i < |idx| ==> idx[i] < 20
    ensures |r| == |idx|
    ensures forall i :: 0 <= i < |idx| ==> r[i] == [Alphabet()[idx[i]]]
  {
    if idx == [] then [] else Letters(idx[..|idx| - 1]) + [[Alphabet()[idx[|idx| - 1]]]]
  }

  /** `depleted_aa_list`: `"!" + aa` for the scores below -1.68; built, then
      never used. */
  function DepletedUpTo(row: seq<real>, n: nat): (r: seq<string>)
    requires n <= |row| && n <= 20
    ensures |r| <= n
  {
    if n == 0 then []
    else DepletedUpTo(row, n - 1) + (if row[n - 1] < -Threshold then ["!" + [Alphabet()[n - 1]]] else [])
  }

  /** The pattern entry of one site: the enriched amino acids in alphabet
      order, or `["X"]` when there is none. */
  function SiteEntry(row: seq<real>): seq<string>
    requires |row| == 20
  {
    var enriched := EnrichedUpTo(row, |row|);
    if |enriched| == 0 then Any else Letters(enriched)
  }

  /** A site is `["X"]` exactly when no score exceeds 1.68; otherwise it
      lists exactly the amino acids above 1.68 ... */
  lemma SiteEntryMeaning(row: seq<real>)
    requires |row| == 20
    ensures SiteEntry(row) == Any <==> forall a :: 0 <= a < 20 ==> row[a] <= Threshold
    ensures SiteEntry(row) != Any ==>
              forall a :: 0 <= a < 20 ==> ([Alphabet()[a]] in SiteEntry(row) <==> row[a] > Threshold)
  {
    var enriched := EnrichedUpTo(row, |row|);
    EnrichedUpToMeaning(row, |row|);
    if |enriched| != 0 {
      LettersMembership(enriched);
      assert enriched[0] in enriched;
      assert Letters(enriched)[0] == [Alphabet()[enriched[0]]];
    }
  }

  /** ... in alphabet order. */
  lemma SiteEntryOrder(row: seq<real>)
    requires |row| == 20
    ensures SiteEntry(row) != Any ==>
              exists idx: seq<nat> ::
                && (forall i, j :: 0 <= i < j < |idx| ==> idx[i] < idx[j])
                && (forall i :: 0 <= i < |idx| ==> idx[i] < 20)
                && SiteEntry(row) == Letters(idx)
  {
    var enriched := EnrichedUpTo(row, |row|);
    EnrichedUpToMeaning(row, |row|);
    if |enriched| != 0 {
      assert SiteEntry(row) == Letters(enriched);
    }
  }

  lemma LettersMembership(idx: seq<nat>)
    requires forall i :: 0 <= i < |idx| ==> idx[i] < 20
    ensures forall a :: 0 <= a < 20 ==> ([Alphabet()[a]] in Letters(idx) <==> a in idx)
  {
    forall a | 0 <= a < 20 ensures [Alphabet()[a]] in Letters(idx) ==> a in idx {
      if [Alphabet()[a]] in Letters(idx) {
        var i :| 0 <= i < |idx| && Letters(idx)[i] == [Alphabet()[a]];
        assert Alphabet()[idx[i]] == Alphabet()[a];
      }
    }
    forall a | 0 <= a < 20 && a in idx ensures [Alphabet()[a]] in Letters(idx) {
      var i :| 0 <= i < |idx| && idx[i] == a;
      assert Letters(idx)[i] == [Alphabet()[a]];
    }
  }

  /** The eight site entries of a PSSM. */
  function PatternOf(pssm: Table): (r: Pattern)
    requires IsTable(pssm)
    ensures |r| == 8
  {
    EntriesUpTo(pssm, 8)
  }

  /** The entries of the first `s` sites, as the site loop appends them. */
  function EntriesUpTo(pssm: Table, s: nat): (r: Pattern)
    requires IsTable(pssm) && s <= 8
    ensures |r| == s
  {
    if s == 0 then [] else EntriesUpTo(pssm, s - 1) + [SiteEntry(pssm[s - 1])]
  }

  /** Each entry of the first `s` is read off its own site's row. */
  lemma {:induction false} EntriesUpToSites(pssm: Table, s: nat)
    requires IsTable(pssm) && s <= 8
    ensures forall i :: 0 <= i < s ==> EntriesUpTo(pssm, s)[i] == SiteEntry(pssm[i])
  {
    if s > 0 {
      EntriesUpToSites(pssm, s - 1);
      var prev := EntriesUpTo(pssm, s - 1);
      var last := SiteEntry(pssm[s - 1]);
      var cur := EntriesUpTo(pssm, s);
      forall i | 0 <= i < s ensures cur[i] == SiteEntry(pssm[i]) {
        if i < s - 1 {
          assert cur[i] == prev[i];
        } else {
          assert cur[i] == last;
        }
      }
    }
  }

  /** Entry `s` of a PSSM's pattern is the entry of its site `s`. */
  lemma PatternOfSites(pssm: Table)
    requires IsTable(pssm)
    ensures forall s :: 0 <= s < 8 ==> PatternOf(pssm)[s] == SiteEntry(pssm[s])
  {
    EntriesUpToSites(pssm, 8);
  }

  /** The pattern `pssm_to_regex` gives a code: a standard enzyme's fixed
      pattern, or the PSSM's own, sliced `[4 - sites : 4 + sites]`. For
      `sites` up to 4 that is the 2*sites entries around P1/P1'. */
  function RegexFor(code: string, pssm: Table, sites: int, base: map<string, Pattern>): (r: Pattern)
    requires IsTable(pssm)
    ensures 0 <= sites <= 4 && (code in base ==> |base[code]| == 8) ==>
              |r| == 2 * sites
              && forall i :: 0 <= i < 2 * sites ==>
                   r[i] == (if code in base then base[code] else PatternOf(pssm))[4 - sites + i]
  {
    var full := if code in base then base[code] else PatternOf(pssm);
    assert 0 <= sites <= 4 && |full| == 8 ==> PySlice(full, 4 - sites, 4 + sites) == full[4 - sites..4 + sites];
    PySlice(full, 4 - sites, 4 + sites)
  }

  /** `pssm_to_regex`: one pattern per code, in the order of the PSSMs. */
  method PssmToRegex(pssms: seq<(string, Table)>, sites: int, base: map<string, Pattern>)
      returns (regexs: seq<(string, Pattern)>)
    requires forall i :: 0 <= i < |pssms| ==> IsTable(pssms[i].1)
    ensures |regexs| == |pssms|
    ensures forall i :: 0 <= i < |pssms| ==>
              regexs[i] == (pssms[i].0, RegexFor(pssms[i].0, pssms[i].1, sites, base))
  {
    regexs := [];
    for c := 0 to |pssms|
      invariant |regexs| == c
      invariant forall i :: 0 <= i < c ==> regexs[i] == (pssms[i].0, RegexFor(pssms[i].0, pssms[i].1, sites, base))
    {
      var code, pssm := pssms[c].0, pssms[c].1;
      var regex: Pattern;
      if code in base {
        regex := base[code];
      } else {
        regex := SitePatterns(pssm);
      }
      regexs := regexs + [(code, PySlice(regex, 4 - sites, 4 + sites))];
    }
  }

  /** The site loop for one PSSM. */
  method SitePatterns(pssm: Table) returns (regex: Pattern)
    requires IsTable(pssm)
    ensures regex == PatternOf(pssm)
  {
    regex := [];
    for s := 0 to 8
      invariant regex == EntriesUpTo(pssm, s)
    {
      var entry := SiteEntryOf(pssm[s]);
      regex := regex + [entry];
    }
  }

  /** One site: the enriched list, and the depleted list that the guard
      (which re-tests the empty enriched list) never selects. */
  method SiteEntryOf(row: seq<real>) returns (entry: seq<string>)
    requires |row| == 20
    ensures entry == SiteEntry(row)
  {
    var enriched: seq<string> := [];
    for a := 0 to 20
      invariant enriched == Letters(EnrichedUpTo(row, a))
    {
      var before := EnrichedUpTo(row, a);
      if row[a] > Threshold {
        assert (before + [a])[..|before|] == before;
        enriched := enriched + [[Alphabet()[a]]];
      } else {
        assert EnrichedUpTo(row, a + 1) == before;
      }
    }
    if |enriched| == 0 {
      var depleted := DepletedUpTo(row, |row|);
      if |enriched| != 0 {
        entry := depleted;
      } else {
        entry := Any;
      }
    } else {
      entry := enriched;
    }
  }

  // ----- create_regexs: the count tables -----

  /** `counts_by_code`: the codes in insertion order and their tables. */
  datatype CodeCounts = CodeCounts(order: seq<string>, tables: map<string, Table>)

  /** Every table has eight sites of twenty amino acids. */
  ghost predicate WellFormed(cc: CodeCounts) {
    forall c :: c in cc.tables ==> IsTable(cc.tables[c])
  }

  /** The key order lists each code with a table exactly once. */
  ghost predicate KeyOrder(cc: CodeCounts) {
    && NoDuplicates(cc.order)
    && (forall c :: c in cc.order <==> c in cc.tables)
  }

  const NoCounts := CodeCounts([], map[])

  /** `counts_by_code[code].at[site, aa] = v` on the defaultdict: an unseen
      code starts as a zero table, appended to the key order. */
  function SetCell(cc: CodeCounts, code: string, s: nat, a: nat, v: real): (r: CodeCounts)
    requires WellFormed(cc) && s < 8 && a < 20
    ensures WellFormed(r)
  {
    var t := if code in cc.tables then cc.tables[code] else ZeroTable();
    var order := if code in cc.tables then cc.order else cc.order + [code];
    CodeCounts(order, cc.tables[code := t[s := t[s][a := v]]])
  }

  /** The enzyme-table column of a site and amino acid: `f"{pos}_{aa}"`. */
  function ColumnName(s: nat, a: nat): string
    requires s < 8 && a < 20
  {
    SiteColumns()[s] + "_" + [Alphabet()[a]]
  }

  /** The row has the column and its value is not NaN. */
  predicate Present(row: EnzymeRow, s: nat, a: nat)
    requires s < 8 && a < 20
  {
    ColumnName(s, a) in row.cells && row.cells[ColumnName(s, a)].Some?
  }

  function CellValue(row: EnzymeRow, s: nat, a: nat): real
    requires s < 8 && a < 20 && Present(row, s, a)
  {
    row.cells[ColumnName(s, a)].value
  }

  /** The amino-acid loop of one site: cells `a < n` copied from the row. */
  function FillSite(cc: CodeCounts, row: EnzymeRow, s: nat, n: nat): (r: CodeCounts)
    requires WellFormed(cc) && s < 8 && n <= 20
    ensures WellFormed(r)
  {
    if n == 0 then cc
    else
      var prev := FillSite(cc, row, s, n - 1);
      if Present(row, s, n - 1) then SetCell(prev, row.code, s, n - 1, CellValue(row, s, n - 1)) else prev
  }

  /** The site loop: sites `s < m` copied from the row. */
  function FillSites(cc: CodeCounts, row: EnzymeRow, m: nat): (r: CodeCounts)
    requires WellFormed(cc) && m <= 8
    ensures WellFormed(r)
  {
    if m == 0 then cc else FillSite(FillSites(cc, row, m - 1), row, m - 1, 20)
  }

  /** Background residue count of amino acid `a` (`background[aa]`). */
  function BackgroundOf(background: multiset<char>, a: nat): real
    requires a < 20
  {
    background[Alphabet()[a]] as real
  }

  /** The amino-acid loop of the overwrite for one code: P1' cells `a < n`
      set to the background. */
  function OverwriteCode(cc: CodeCounts, code: string, background: multiset<char>, n: nat): (r: CodeCounts)
    requires WellFormed(cc) && n <= 20
    ensures WellFormed(r)
  {
    if n == 0 then cc
    else SetCell(OverwriteCode(cc, code, background, n - 1), code, 4, n - 1, BackgroundOf(background, n - 1))
  }

  /** The overwrite loop over the first `i` codes of `withoutP`. */
  function OverwriteCodes(cc: CodeCounts, withoutP: seq<string>, background: multiset<char>, i: nat): (r: CodeCounts)
    requires WellFormed(cc) && i <= |withoutP|
    ensures WellFormed(r)
  {
    if i == 0 then cc
    else OverwriteCode(OverwriteCodes(cc, withoutP, background, i - 1), withoutP[i - 1], background, 20)
  }

  /** One iteration of the row loop: copy the row's cells, then overwrite
      the P1' row of every code in `withoutP`. */
  function ApplyRow(cc: CodeCounts, row: EnzymeRow, withoutP: seq<string>, background: multiset<char>): (r: CodeCounts)
    requires WellFormed(cc)
    ensures WellFormed(r)
  {
    OverwriteCodes(FillSites(cc, row, 8), withoutP, background, |withoutP|)
  }

  /** `counts_by_code` after the row loop over `rows`. */
  function CountsAfter(rows: seq<EnzymeRow>, withoutP: seq<string>, background: multiset<char>): (r: CodeCounts)
    ensures WellFormed(r)
  {
    if rows == [] then NoCounts
    else ApplyRow(CountsAfter(rows[..|rows| - 1], withoutP, background), rows[|rows| - 1], withoutP, background)
  }

  /** `code_to_name` after the row loop: the last name seen per code. */
  function NamesAfter(rows: seq<EnzymeRow>): map<string, Option<string>> {
    if rows == [] then map[]
    else NamesAfter(rows[..|rows| - 1])[rows[|rows| - 1].code := rows[|rows| - 1].enzymeName]
  }

  /** The row loop of `create_regexs`. */
  method FillCounts(table: seq<EnzymeRow>, background: multiset<char>, withoutP: seq<string>)
      returns (counts: CodeCounts, codeToName: map<string, Option<string>>)
    ensures counts == CountsAfter(table, withoutP, background)
    ensures codeToName == NamesAfter(table)
  {
    counts, codeToName := NoCounts, map[];
    for r := 0 to |table|
      invariant counts == CountsAfter(table[..r], withoutP, background)
      invariant codeToName == NamesAfter(table[..r])
    {
      var row := table[r];
      assert table[..r + 1][..r] == table[..r];
      codeToName := codeToName[row.code := row.enzymeName];
      counts := CopyCells(counts, row);
      counts := OverwriteP1prime(counts, withoutP, background);
    }
    assert table[..|table|] == table;
  }

  /** The nested site and amino-acid loops that copy a row's cells. */
  method CopyCells(counts: CodeCounts, row: EnzymeRow) returns (counts': CodeCounts)
    requires WellFormed(counts)
    ensures counts' == FillSites(counts, row, 8)
  {
    counts' := counts;
    for s := 0 to 8
      invariant counts' == FillSites(counts, row, s)
    {
      var before := counts';
      for a := 0 to 20
        invariant counts' == FillSite(before, row, s, a)
      {
        var col := SiteColumns()[s] + "_" + [Alphabet()[a]];
        if col in row.cells && row.cells[col].Some? {
          counts' := SetCell(counts', row.code, s, a, row.cells[col].value);
        }
      }
    }
  }

  /** The loop that sets the P1' row of every code in `withoutP` to the
      background counts. */
  method OverwriteP1prime(counts: CodeCounts, withoutP: seq<string>, background: multiset<char>)
      returns (counts': CodeCounts)
    requires WellFormed(counts)
    ensures counts' == OverwriteCodes(counts, withoutP, background, |withoutP|)
  {
    counts' := counts;
    for i := 0 to |withoutP|
      invariant counts' == OverwriteCodes(counts, withoutP, background, i)
    {
      var before := counts';
      for a := 0 to 20
        invariant counts' == OverwriteCode(before, withoutP[i], background, a)
      {
        counts' := SetCell(counts', withoutP[i], 4, a, background[Alphabet()[a]] as real);
      }
    }
  }

  // ----- create_regexs: what the count tables hold -----

  /** The value of a cell in the last row of `code` that has it, if any. */
  function LastCell(rows: seq<EnzymeRow>, code: string, s: nat, a: nat): Option<real>
    requires s < 8 && a < 20
  {
    if rows == [] then None
    else
      var last := rows[|rows| - 1];
      if last.code == code && Present(last, s, a) then Some(CellValue(last, s, a))
      else LastCell(rows[..|rows| - 1], code, s, a)
  }

  function OrZero(v: Option<real>): real {
    if v.Some? then v.value else 0.0
  }

  lemma {:induction false} FillSiteCell(cc: CodeCounts, row: EnzymeRow, site: nat, n: nat, code: string, s: nat, a: nat)
    requires WellFormed(cc) && site < 8 && n <= 20 && s < 8 && a < 20
    ensures var r := FillSite(cc, row, site, n);
            var hit := code == row.code && s == site && a < n && Present(row, s, a);
            && (code in cc.tables || hit ==> code in r.tables)
            && (code in r.tables ==>
                  r.tables[code][s][a] == if hit then CellValue(row, s, a)
                                          else if code in cc.tables then cc.tables[code][s][a] else 0.0)
  {
    if n > 0 {
      FillSiteCell(cc, row, site, n - 1, code, s, a);
      var prev := FillSite(cc, row, site, n - 1);
      if Present(row, site, n - 1) {
        assert FillSite(cc, row, site, n) == SetCell(prev, row.code, site, n - 1, CellValue(row, site, n - 1));
      } else {
        assert FillSite(cc, row, site, n) == prev;
      }
    }
  }

  /** A code the amino-acid loop adds is the row's, and the row has a cell there. */
  lemma {:induction false} FillSiteNew(cc: CodeCounts, row: EnzymeRow, site: nat, n: nat, code: string)
    requires WellFormed(cc) && site < 8 && n <= 20
    requires code in FillSite(cc, row, site, n).tables && code !in cc.tables
    ensures code == row.code && exists a :: 0 <= a < n && Present(row, site, a)
  {
    var prev := FillSite(cc, row, site, n - 1);
    if code in prev.tables {
      FillSiteNew(cc, row, site, n - 1, code);
    } else {
      assert Present(row, site, n - 1);
    }
  }

  lemma {:induction false} FillSitesCell(cc: CodeCounts, row: EnzymeRow, m: nat, code: string, s: nat, a: nat)
    requires WellFormed(cc) && m <= 8 && s < 8 && a < 20
    ensures var r := FillSites(cc, row, m);
            var hit := code == row.code && s < m && Present(row, s, a);
            && (code in cc.tables || hit ==> code in r.tables)
            && (code in r.tables ==>
                  r.tables[code][s][a] == if hit then CellValue(row, s, a)
                                          else if code in cc.tables then cc.tables[code][s][a] else 0.0)
  {
    if m > 0 {
      var prev := FillSites(cc, row, m - 1);
      FillSitesCell(cc, row, m - 1, code, s, a);
      FillSiteCell(prev, row, m - 1, 20, code, s, a);
    }
  }

  /** A code the row adds is the row's own, and the row has a cell for it. */
  lemma {:induction false} FillSitesNew(cc: CodeCounts, row: EnzymeRow, m: nat, code: string)
    requires WellFormed(cc) && m <= 8
    requires code in FillSites(cc, row, m).tables && code !in cc.tables
    ensures code == row.code && exists s, a :: 0 <= s < m && 0 <= a < 20 && Present(row, s, a)
  {
    var prev := FillSites(cc, row, m - 1);
    if code in prev.tables {
      FillSitesNew(cc, row, m - 1, code);
    } else {
      FillSiteNew(prev, row, m - 1, 20, code);
    }
  }

  lemma {:induction false} OverwriteCodeCell(cc: CodeCounts, code0: string, background: multiset<char>, n: nat,
                                             code: string, s: nat, a: nat)
    requires WellFormed(cc) && n <= 20 && s < 8 && a < 20
    ensures var r := OverwriteCode(cc, code0, background, n);
            var hit := code == code0 && s == 4 && a < n;
            && (code in cc.tables || (code == code0 && n > 0) ==> code in r.tables)
            && (code in r.tables ==> code in cc.tables || code == code0)
            && (code in r.tables ==>
                  r.tables[code][s][a] == if hit then BackgroundOf(background, a)
                                          else if code in cc.tables then cc.tables[code][s][a] else 0.0)
  {
    if n > 0 {
      OverwriteCodeCell(cc, code0, background, n - 1, code, s, a);
    }
  }

  lemma {:induction false} OverwriteCodesCell(cc: CodeCounts, withoutP: seq<string>, background: multiset<char>, i: nat,
                                              code: string, s: nat, a: nat)
    requires WellFormed(cc) && i <= |withoutP| && s < 8 && a < 20
    ensures var r := OverwriteCodes(cc, withoutP, background, i);
            var hit := code in withoutP[..i] && s == 4;
            && (code in cc.tables || code in withoutP[..i] ==> code in r.tables)
            && (code in r.tables ==> code in cc.tables || code in withoutP[..i])
            && (code in r.tables ==>
                  r.tables[code][s][a] == if hit then BackgroundOf(background, a)
                                          else if code in cc.tables then cc.tables[code][s][a] else 0.0)
  {
    if i > 0 {
      var prev := OverwriteCodes(cc, withoutP, background, i - 1);
      OverwriteCodesCell(cc, withoutP, background, i - 1, code, s, a);
      OverwriteCodeCell(prev, withoutP[i - 1], background, 20, code, s, a);
      assert withoutP[..i] == withoutP[..i - 1] + [withoutP[i - 1]];
    }
  }

  /** The amino-acid loop keeps every table and adds the row's code once it
      meets a non-NaN cell. */
  lemma {:induction false} FillSiteKeys(cc: CodeCounts, row: EnzymeRow, site: nat, n: nat)
    requires WellFormed(cc) && site < 8 && n <= 20
    ensures cc.tables.Keys <= FillSite(cc, row, site, n).tables.Keys
    ensures forall a :: 0 <= a < n && Present(row, site, a) ==> row.code in FillSite(cc, row, site, n).tables
  {
    if n > 0 {
      FillSiteKeys(cc, row, site, n - 1);
    }
  }

  lemma {:induction false} FillSitesKeys(cc: CodeCounts, row: EnzymeRow, m: nat)
    requires WellFormed(cc) && m <= 8
    ensures cc.tables.Keys <= FillSites(cc, row, m).tables.Keys
    ensures forall s, a :: 0 <= s < m && 0 <= a < 20 && Present(row, s, a) ==> row.code in FillSites(cc, row, m).tables
  {
    if m > 0 {
      FillSitesKeys(cc, row, m - 1);
      FillSiteKeys(FillSites(cc, row, m - 1), row, m - 1, 20);
    }
  }

  /** The overwrite of one code gives that code a table and touches no other key. */
  lemma {:induction false} OverwriteCodeKeys(cc: CodeCounts, code0: string, background: multiset<char>, n: nat)
    requires WellFormed(cc) && n <= 20
    ensures forall code :: code in OverwriteCode(cc, code0, background, n).tables <==>
                             code in cc.tables || (code == code0 && n > 0)
  {
    if n > 0 {
      OverwriteCodeKeys(cc, code0, background, n - 1);
    }
  }

  lemma {:induction false} OverwriteCodesKeys(cc: CodeCounts, withoutP: seq<string>, background: multiset<char>, i: nat)
    requires WellFormed(cc) && i <= |withoutP|
    ensures forall code :: code in OverwriteCodes(cc, withoutP, background, i).tables <==>
                             code in cc.tables || code in withoutP[..i]
  {
    if i > 0 {
      var prev := OverwriteCodes(cc, withoutP, background, i - 1);
      OverwriteCodesKeys(cc, withoutP, background, i - 1);
      OverwriteCodeKeys(prev, withoutP[i - 1], background, 20);
      assert withoutP[..i] == withoutP[..i - 1] + [withoutP[i - 1]];
    }
  }

  /** Every cell of `counts_by_code` after the row loop: the P1' cells of a
      code in `withoutP` hold the background (once there is any row); every
      other cell holds the value of the last row of that code having the
      column with a non-NaN value, and 0 when there is none. */
  lemma {:induction false} CountCells(rows: seq<EnzymeRow>, withoutP: seq<string>, background: multiset<char>,
                                      code: string, s: nat, a: nat)
    requires s < 8 && a < 20
    ensures var cc := CountsAfter(rows, withoutP, background);
            && (rows != [] && code in withoutP ==> code in cc.tables)
            && (LastCell(rows, code, s, a).Some? ==> code in cc.tables)
            && (code in cc.tables ==>
                  cc.tables[code][s][a] == if rows != [] && code in withoutP && s == 4 then BackgroundOf(background, a)
                                           else OrZero(LastCell(rows, code, s, a)))
  {
    if rows != [] {
      var init := rows[..|rows| - 1];
      var last := rows[|rows| - 1];
      var prev := CountsAfter(init, withoutP, background);
      var mid := FillSites(prev, last, 8);
      CountCells(init, withoutP, background, code, s, a);
      FillSitesCell(prev, last, 8, code, s, a);
      OverwriteCodesCell(mid, withoutP, background, |withoutP|, code, s, a);
      assert withoutP[..|withoutP|] == withoutP;
    }
  }

  /** A row of `code` with a non-NaN count column. */
  predicate HasCountFor(rows: seq<EnzymeRow>, code: string) {
    exists j, s, a :: 0 <= j < |rows| && 0 <= s < 8 && 0 <= a < 20 && rows[j].code == code && Present(rows[j], s, a)
  }

  /** `counts_by_code` has a table exactly for the codes in `withoutP` (once
      there is any row) and the codes of rows with a non-NaN count column. */
  lemma CountKeys(rows: seq<EnzymeRow>, withoutP: seq<string>, background: multiset<char>, code: string)
    ensures code in CountsAfter(rows, withoutP, background).tables <==>
              (rows != [] && code in withoutP) || HasCountFor(rows, code)
  {
    if (rows != [] && code in withoutP) || HasCountFor(rows, code) {
      CountKeysFrom(rows, withoutP, background, code);
    }
    if code in CountsAfter(rows, withoutP, background).tables {
      CountKeysOnly(rows, withoutP, background, code);
    }
  }

  lemma CountKeysFrom(rows: seq<EnzymeRow>, withoutP: seq<string>, background: multiset<char>, code: string)
    requires (rows != [] && code in withoutP) || HasCountFor(rows, code)
    ensures code in CountsAfter(rows, withoutP, background).tables
  {
    if code in withoutP && rows != [] {
      ApplyRowKeys(CountsAfter(rows[..|rows| - 1], withoutP, background), rows[|rows| - 1], withoutP, background);
    } else {
      var j, s, a :| 0 <= j < |rows| && 0 <= s < 8 && 0 <= a < 20 && rows[j].code == code && Present(rows[j], s, a);
      CountKeysFromRow(rows, withoutP, background, j, s, a);
    }
  }

  /** A row with a non-NaN count cell gives its code a table that every
      later row keeps. */
  lemma {:induction false} CountKeysFromRow(rows: seq<EnzymeRow>, withoutP: seq<string>, background: multiset<char>,
                                            j: nat, s: nat, a: nat)
    requires j < |rows| && s < 8 && a < 20 && Present(rows[j], s, a)
    ensures rows[j].code in CountsAfter(rows, withoutP, background).tables
  {
    var init := rows[..|rows| - 1];
    var prev := CountsAfter(init, withoutP, background);
    ApplyRowKeys(prev, rows[|rows| - 1], withoutP, background);
    if j < |init| {
      assert init[j] == rows[j];
      CountKeysFromRow(init, withoutP, background, j, s, a);
    }
  }

  /** One row keeps every table, gives every code of `withoutP` one, and
      gives the row's code one when it has a non-NaN count cell. */
  lemma ApplyRowKeys(cc: CodeCounts, row: EnzymeRow, withoutP: seq<string>, background: multiset<char>)
    requires WellFormed(cc)
    ensures cc.tables.Keys <= ApplyRow(cc, row, withoutP, background).tables.Keys
    ensures forall code :: code in withoutP ==> code in ApplyRow(cc, row, withoutP, background).tables
    ensures forall s, a :: 0 <= s < 8 && 0 <= a < 20 && Present(row, s, a) ==>
              row.code in ApplyRow(cc, row, withoutP, background).tables
  {
    var mid := FillSites(cc, row, 8);
    FillSitesKeys(cc, row, 8);
    OverwriteCodesKeys(mid, withoutP, background, |withoutP|);
    assert withoutP[..|withoutP|] == withoutP;
  }

  lemma {:induction false} CountKeysOnly(rows: seq<EnzymeRow>, withoutP: seq<string>, background: multiset<char>,
                                         code: string)
    requires code in CountsAfter(rows, withoutP, background).tables
    ensures (rows != [] && code in withoutP) || HasCountFor(rows, code)
  {
    var init := rows[..|rows| - 1];
    var last := rows[|rows| - 1];
    var prev := CountsAfter(init, withoutP, background);
    var mid := FillSites(prev, last, 8);
    OverwriteCodesKeys(mid, withoutP, background, |withoutP|);
    assert withoutP[..|withoutP|] == withoutP;
    if code !in withoutP {
      if code in prev.tables {
        CountKeysOnly(init, withoutP, background, code);
        var j, s, a :| 0 <= j < |init| && 0 <= s < 8 && 0 <= a < 20 && init[j].code == code && Present(init[j], s, a);
        assert rows[j] == init[j];
      } else {
        FillSitesNew(prev, last, 8, code);
        var s, a :| 0 <= s < 8 && 0 <= a < 20 && Present(last, s, a);
        assert rows[|rows| - 1] == last;
      }
    }
  }

  /** `code_to_name[code]` is the name on the last row of that code. */
  lemma {:induction false} NamesLastWins(rows: seq<EnzymeRow>, j: nat)
    requires j < |rows|
    requires forall j' :: j < j' < |rows| ==> rows[j'].code != rows[j].code
    ensures rows[j].code in NamesAfter(rows) && NamesAfter(rows)[rows[j].code] == rows[j].enzymeName
  {
    if j < |rows| - 1 {
      NamesLastWins(rows[..|rows| - 1], j);
    }
  }

  // ----- the key order of counts_by_code -----

  lemma SetCellOrder(cc: CodeCounts, code: string, s: nat, a: nat, v: real)
    requires WellFormed(cc) && KeyOrder(cc) && s < 8 && a < 20
    ensures KeyOrder(SetCell(cc, code, s, a, v))
  {
    if code !in cc.tables {
      var order := cc.order + [code];
      forall i, j | 0 <= i < j < |order| ensures order[i] != order[j] {
        if j == |cc.order| {
          assert order[i] == cc.order[i] && cc.order[i] in cc.tables;
        }
      }
    }
  }

  lemma {:induction false} FillSiteOrder(cc: CodeCounts, row: EnzymeRow, s: nat, n: nat)
    requires WellFormed(cc) && KeyOrder(cc) && s < 8 && n <= 20
    ensures KeyOrder(FillSite(cc, row, s, n))
  {
    if n > 0 {
      FillSiteOrder(cc, row, s, n - 1);
      if Present(row, s, n - 1) {
        SetCellOrder(FillSite(cc, row, s, n - 1), row.code, s, n - 1, CellValue(row, s, n - 1));
      }
    }
  }

  lemma {:induction false} FillSitesOrder(cc: CodeCounts, row: EnzymeRow, m: nat)
    requires WellFormed(cc) && KeyOrder(cc) && m <= 8
    ensures KeyOrder(FillSites(cc, row, m))
  {
    if m > 0 {
      FillSitesOrder(cc, row, m - 1);
      FillSiteOrder(FillSites(cc, row, m - 1), row, m - 1, 20);
    }
  }

  lemma {:induction false} OverwriteCodeOrder(cc: CodeCounts, code: string, background: multiset<char>, n: nat)
    requires WellFormed(cc) && KeyOrder(cc) && n <= 20
    ensures KeyOrder(OverwriteCode(cc, code, background, n))
  {
    if n > 0 {
      OverwriteCodeOrder(cc, code, background, n - 1);
      SetCellOrder(OverwriteCode(cc, code, background, n - 1), code, 4, n - 1, BackgroundOf(background, n - 1));
    }
  }

  lemma {:induction false} OverwriteCodesOrder(cc: CodeCounts, withoutP: seq<string>, background: multiset<char>, i: nat)
    requires WellFormed(cc) && KeyOrder(cc) && i <= |withoutP|
    ensures KeyOrder(OverwriteCodes(cc, withoutP, background, i))
  {
    if i > 0 {
      OverwriteCodesOrder(cc, withoutP, background, i - 1);
      OverwriteCodeOrder(OverwriteCodes(cc, withoutP, background, i - 1), withoutP[i - 1], background, 20);
    }
  }

  /** The codes of `counts_by_code`, in insertion order, without repeats. */
  lemma {:induction false} CountsOrder(rows: seq<EnzymeRow>, withoutP: seq<string>, background: multiset<char>)
    ensures KeyOrder(CountsAfter(rows, withoutP, background))
  {
    if rows != [] {
      var prev := CountsAfter(rows[..|rows| - 1], withoutP, background);
      CountsOrder(rows[..|rows| - 1], withoutP, background);
      FillSitesOrder(prev, rows[|rows| - 1], 8);
      OverwriteCodesOrder(FillSites(prev, rows[|rows| - 1], 8), withoutP, background, |withoutP|);
    }
  }

  // ----- create_regexs -----

  /** `counts_by_code.items()` in insertion order. */
  function Entries(cc: CodeCounts): (r: seq<(string, Table)>)
    requires WellFormed(cc)
    ensures |r| == |cc.order|
    ensures forall i :: 0 <= i < |r| ==> r[i].0 == cc.order[i] && IsTable(r[i].1)
  {
    seq(|cc.order|, i requires 0 <= i < |cc.order| =>
      (cc.order[i], if cc.order[i] in cc.tables then cc.tables[cc.order[i]] else ZeroTable()))
  }

  /** `create_regexs`: fill the count tables, score them, and read a
      pattern off each score table. `useMerops` is accepted and not used. */
  method CreateRegexs(table: seq<EnzymeRow>, background: multiset<char>, useMerops: bool, sites: int,
                      withoutP: seq<string>, base: map<string, Pattern>, logOdds: LogOdds)
      returns (pssms: seq<(string, Table)>, regexs: seq<(string, Pattern)>, codeToName: map<string, Option<string>>)
    ensures var entries := Entries(CountsAfter(table, withoutP, background));
            && |pssms| == |entries| && |regexs| == |entries|
            && (forall i :: 0 <= i < |entries| ==>
                  && pssms[i] == (entries[i].0, CodePssm(entries[i].1, logOdds))
                  && regexs[i] == (entries[i].0, RegexFor(entries[i].0, pssms[i].1, sites, base)))
    ensures codeToName == NamesAfter(table)
  {
    var counts;
    counts, codeToName := FillCounts(table, background, withoutP);
    pssms := CalculatePssms(Entries(counts), logOdds);
    regexs := PssmToRegex(pssms, sites, base);
  }

  /** Every code in the key order has its own table, so `Entries` lists
      exactly the tables of `counts_by_code`. */
  lemma EntriesAreTables(rows: seq<EnzymeRow>, withoutP: seq<string>, background: multiset<char>, i: nat)
    requires i < |CountsAfter(rows, withoutP, background).order|
    ensures var cc := CountsAfter(rows, withoutP, background);
            cc.order[i] in cc.tables && Entries(cc)[i] == (cc.order[i], cc.tables[cc.order[i]])
  {
    CountsOrder(rows, withoutP, background);
  }

  // ----- get_filtered_enzyme_df (motifs.py) -----

  /** Without MEROPS only the standard enzymes; with it, everything unless a
      species or a name list is given, and then the rows matching either. */
  function FilterEnzymes(table: seq<EnzymeRow>, useMerops: bool, baseCodes: seq<string>,
                         species: Option<string>, enzymes: Option<seq<string>>): (r: seq<EnzymeRow>)
    ensures IsSubseq(r, table)
    ensures !useMerops ==> forall row :: row in r <==> row in table && row.code in baseCodes
    ensures useMerops && species.None? && enzymes.None? ==> r == table
    ensures useMerops && (species.Some? || enzymes.Some?) ==>
              forall row :: row in r <==>
                row in table
                && ((species.Some? && row.species == species)
                    || (enzymes.Some? && row.enzymeName.Some? && row.enzymeName.value in enzymes.value))
  {
    if !useMerops then
      Filter((row: EnzymeRow) => row.code in baseCodes, table)
    else if species.None? && enzymes.None? then
      SubseqRefl(table);
      table
    else
      Filter((row: EnzymeRow) =>
               (species.Some? && row.species == species)
               || (enzymes.Some? && row.enzymeName.Some? && row.enzymeName.value in enzymes.value),
             table)
  }

  /** The motif filter is the preprocessing filter: with MEROPS, without the
      standard enzymes; without MEROPS, the standard enzymes alone. */
  lemma FilterEnzymesAgree(table: seq<EnzymeRow>, useMerops: bool, baseCodes: seq<string>,
                           species: Option<string>, enzymes: Option<seq<string>>)
    ensures useMerops ==>
              FilterEnzymes(table, useMerops, baseCodes, species, enzymes)
                == Preprocessing.FilterEnzymes(table, false, baseCodes, species, enzymes)
    ensures !useMerops ==>
              FilterEnzymes(table, useMerops, baseCodes, species, enzymes)
                == Preprocessing.FilterEnzymes(table, true, baseCodes, None, None)
  {
    if !useMerops {
      FilterCongruent((row: EnzymeRow) => row.code in baseCodes,
                      (row: EnzymeRow) => Preprocessing.Selected(row, true, baseCodes, None, None), table);
    } else if species.Some? || enzymes.Some? {
      FilterCongruent((row: EnzymeRow) =>
                        (species.Some? && row.species == species)
                        || (enzymes.Some? && row.enzymeName.Some? && row.enzymeName.value in enzymes.value),
                      (row: EnzymeRow) => Preprocessing.Selected(row, false, baseCodes, species, enzymes), table);
    }
  }
}

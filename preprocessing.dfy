/** `preprocessing.py`: selecting rows of the enzyme table, and the variant
    of the cleavage-site annotation that first drops peptides without a
    measured intensity. */
module Preprocessing {
  import opened Common
  import opened Constants
  import Kmer

  /** The mask of `get_filtered_enzyme_df`: a standard enzyme (when asked
      for), the requested species, or one of the requested enzyme names. */
  predicate Selected(row: EnzymeRow, useStandard: bool, baseCodes: seq<string>,
                     species: Option<string>, enzymes: Option<seq<string>>)
  {
    || (useStandard && row.code in baseCodes)
    || (species.Some? && row.species == species)
    || (enzymes.Some? && row.enzymeName.Some? && row.enzymeName.value in enzymes.value)
  }

  /** `get_filtered_enzyme_df` (preprocessing.py). With no filter at all the
      table comes back as it is; otherwise exactly the selected rows, each as
      often as in the table and in table order. */
  function FilterEnzymes(table: seq<EnzymeRow>, useStandard: bool, baseCodes: seq<string>,
                         species: Option<string>, enzymes: Option<seq<string>>): (r: seq<EnzymeRow>)
    ensures IsSubseq(r, table)
    ensures species.None? && enzymes.None? && !useStandard ==> r == table
    ensures species.Some? || enzymes.Some? || useStandard ==>
              forall row :: row in r <==> row in table && Selected(row, useStandard, baseCodes, species, enzymes)
    ensures forall row :: Selected(row, useStandard, baseCodes, species, enzymes) ==>
              multiset(r)[row] == multiset(table)[row]
  {
    if species.None? && enzymes.None? && !useStandard then
      SubseqRefl(table);
      table
    else
      Filter((row: EnzymeRow) => Selected(row, useStandard, baseCodes, species, enzymes), table)
  }

  /** The rows that survive the intensity filter: `Intensity` present and not 0. */
  predicate Measured(row: Kmer.PeptideRow) {
    row.intensity.Some? && row.intensity.value != 0.0
  }

  /** `get_cleavage_sites` (preprocessing.py): the k-mer annotation of the
      rows with a measured intensity. Its loop is the one of kmer.py, shared
      through `Kmer.GetCleavageSites`. */
  method GetCleavageSites(rows: seq<Kmer.PeptideRow>, index: Kmer.KmerIndex, sequences: map<string, string>,
                          k: nat, sites: nat) returns (r: Result<seq<Kmer.PeptideRow>>)
    requires Kmer.Consistent(index, sequences)
    ensures r == Kmer.AnnotateRows(Filter(Measured, rows), index, sequences, k, sites)
  {
    var measured := Filter(Measured, rows);
    r := Kmer.GetCleavageSites(measured, index, sequences, k, sites);
  }

  /** On success the annotated table has one row per measured row, in
      order, each with a measured intensity and its own sequence. */
  lemma MeasuredRowsAnnotated(rows: seq<Kmer.PeptideRow>, index: Kmer.KmerIndex,
                              sequences: map<string, string>, k: nat, sites: nat, j: nat)
    requires Kmer.Consistent(index, sequences)
    requires Kmer.AnnotateRows(Filter(Measured, rows), index, sequences, k, sites).Ok?
    requires j < |Filter(Measured, rows)|
    ensures var out := Kmer.AnnotateRows(Filter(Measured, rows), index, sequences, k, sites).value;
            && |out| == |Filter(Measured, rows)|
            && out[j].sequence == Filter(Measured, rows)[j].sequence
            && out[j].intensity == Filter(Measured, rows)[j].intensity
            && Measured(out[j])
  {
    var measured := Filter(Measured, rows);
    Kmer.AnnotatedRow(measured, j, index, sequences, k, sites);
    assert measured[j] in measured;
  }

  /** When every row has a measured intensity, the two `get_cleavage_sites`
      functions agree. */
  lemma {:induction false} AllMeasured(rows: seq<Kmer.PeptideRow>)
    requires forall j :: 0 <= j < |rows| ==> Measured(rows[j])
    ensures Filter(Measured, rows) == rows
  {
    if rows != [] {
      AllMeasured(rows[1..]);
    }
  }
}

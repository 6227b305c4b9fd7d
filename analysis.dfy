/** `cleavage_enrichment_analysis.py`: the analysis object. Setting the
    FASTA proteins rebuilds the k-mer index and re-annotates a stored
    peptide table; setting the peptide table annotates it once proteins are
    known; the match results are computed on first request and kept. */
module Analysis {
  import opened Common
  import opened Constants
  import Kmer
  import Matching

  /** `SITES`: residues on each side of a cleavage. */
  const Sites: nat := 4
  /** The default k-mer length of the index and of the peptide lookup. */
  const K: nat := 6

  /** A row of the sample metadata: sample name and group. */
  datatype SampleRow = SampleRow(sample: string, group: Option<string>)

  type ProteinResults = seq<(Option<string>, Matching.ProteinResult)>

  /** An empty `cleavages` table and no enzymes: the default entry of
      `per_protein_results`. */
  const NoResult: Matching.ProteinResult := Matching.ProteinResult([], [])

  /** `per_protein_results[protein_id]` on the defaultdict: the stored
      entry, or None when the key is absent. */
  function Lookup(results: ProteinResults, id: Option<string>): (r: Option<Matching.ProteinResult>)
    ensures r.None? <==> forall i :: 0 <= i < |results| ==> results[i].0 != id
    ensures r.Some? ==> exists i :: 0 <= i < |results| && results[i] == (id, r.value)
  {
    if results == [] then None
    else if results[0].0 == id then Some(results[0].1)
    else Lookup(results[1..], id)
  }

  /** The patterns `calculate` inserts into the trie, in dict order. */
  function Inserted(): seq<(string, Pattern)> {
    BaseEnzymes()
  }

  /** The k-mer index, the id -> sequence map and the background that
      `build_kmer_index_and_background` builds from `proteins`. */
  predicate Built(proteins: seq<Kmer.Protein>, index: Kmer.KmerIndex, sequences: map<string, string>,
                  background: multiset<char>) {
    && index == Kmer.Group(Kmer.KmerLog(proteins, K))
    && sequences == Kmer.SequencesOf(proteins)
    && background == Kmer.BackgroundOf(proteins, K)
    && Kmer.Consistent(index, sequences)
  }

  /** `get_cleavage_sites` as the setters use it: the annotated table, or
      the table as it was together with the raised error. */
  function Reannotated(rows: seq<Kmer.PeptideRow>, index: Kmer.KmerIndex, sequences: map<string, string>)
    : (r: (seq<Kmer.PeptideRow>, Option<string>))
    requires Kmer.Consistent(index, sequences)
  {
    match Kmer.AnnotateRows(rows, index, sequences, K, Sites)
    case Ok(annotated) => (annotated, None)
    case Err(msg) => (rows, Some(msg))
  }

  method AnnotateOrKeep(rows: seq<Kmer.PeptideRow>, index: Kmer.KmerIndex, sequences: map<string, string>)
      returns (out: seq<Kmer.PeptideRow>, err: Option<string>)
    requires Kmer.Consistent(index, sequences)
    ensures (out, err) == Reannotated(rows, index, sequences)
  {
    var annotated := Kmer.GetCleavageSites(rows, index, sequences, K, Sites);
    if annotated.Err? {
      out, err := rows, Some(annotated.msg);
    } else {
      out, err := annotated.value, None;
    }
  }

  /** `build_kmer_index_and_background` with the default k. */
  method BuildDatabase(proteins: seq<Kmer.Protein>)
      returns (index: Kmer.KmerIndex, sequences: map<string, string>, background: multiset<char>)
    ensures Built(proteins, index, sequences, background)
  {
    index, sequences, background := Kmer.BuildKmerIndexAndBackground(proteins, K);
    Kmer.BuiltIndexConsistent(proteins, K);
  }

  /** What the `fasta` setter does to a stored peptide table. */
  function Refreshed(rows: seq<Kmer.PeptideRow>, index: Kmer.KmerIndex, sequences: map<string, string>)
    : (seq<Kmer.PeptideRow>, Option<string>)
    requires Kmer.Consistent(index, sequences)
  {
    if |rows| == 0 then (rows, None) else Reannotated(rows, index, sequences)
  }

  method Refresh(rows: seq<Kmer.PeptideRow>, index: Kmer.KmerIndex, sequences: map<string, string>)
      returns (out: seq<Kmer.PeptideRow>, err: Option<string>)
    requires Kmer.Consistent(index, sequences)
    ensures (out, err) == Refreshed(rows, index, sequences)
  {
    out, err := rows, None;
    if |rows| != 0 {
      out, err := AnnotateOrKeep(rows, index, sequences);
    }
  }

  class CleavageEnrichmentAnalysis {
    var fasta: Option<seq<Kmer.Protein>>
    var peptides: seq<Kmer.PeptideRow>
    var metadata: Option<seq<SampleRow>>
    var useMerops: bool
    var species: Option<string>
    var additionalEnzymes: Option<seq<string>>
    var kmerIndex: Option<Kmer.KmerIndex>
    var proteinSequences: Option<map<string, string>>
    var background: Option<multiset<char>>
    var perProteinResult: Option<ProteinResults>
    var totalResult: Option<multiset<string>>

    /** Once proteins are set, so are the index, the sequences and the
        background, and every indexed hit names a known protein; both
        results are cached together. */
    predicate Valid()
      reads this
    {
      && (fasta.Some? ==>
            && kmerIndex.Some? && proteinSequences.Some? && background.Some?
            && Kmer.Consistent(kmerIndex.value, proteinSequences.value))
      && (perProteinResult.Some? <==> totalResult.Some?)
    }

    constructor ()
      ensures Valid()
      ensures fasta.None? && peptides == [] && metadata.None? && !useMerops
      ensures species.None? && additionalEnzymes.None?
      ensures kmerIndex.None? && proteinSequences.None? && background.None?
      ensures perProteinResult.None? && totalResult.None?
    {
      fasta := None;
      peptides := [];
      metadata := None;
      useMerops := false;
      species := None;
      additionalEnzymes := None;
      kmerIndex := None;
      proteinSequences := None;
      background := None;
      perProteinResult := None;
      totalResult := None;
    }

    /** The `fasta` setter. A raised annotation error leaves the new index
        in place and the peptide table as it was; cached results stay. */
    method SetFasta(proteins: seq<Kmer.Protein>) returns (err: Option<string>)
      requires Valid()
      modifies this
      ensures Valid()
      ensures fasta == Some(proteins)
      ensures kmerIndex.Some? && proteinSequences.Some? && background.Some?
      ensures Built(proteins, kmerIndex.value, proteinSequences.value, background.value)
      ensures (peptides, err) == Refreshed(old(peptides), kmerIndex.value, proteinSequences.value)
      ensures metadata == old(metadata) && useMerops == old(useMerops)
      ensures species == old(species) && additionalEnzymes == old(additionalEnzymes)
      ensures perProteinResult == old(perProteinResult) && totalResult == old(totalResult)
    {
      var index, sequences, counts := BuildDatabase(proteins);
      var rows, e := Refresh(peptides, index, sequences);
      fasta, kmerIndex, proteinSequences, background := Some(proteins), Some(index), Some(sequences), Some(counts);
      peptides, err := rows, e;
    }

    /** The `peptide_df` setter: annotated when proteins are known, stored
        as given otherwise. */
    method SetPeptides(rows: seq<Kmer.PeptideRow>) returns (err: Option<string>)
      requires Valid()
      modifies this
      ensures Valid()
      ensures old(fasta).None? ==> peptides == rows && err.None?
      ensures old(fasta).Some? ==>
                var (annotated, raised) := Reannotated(rows, old(kmerIndex).value, old(proteinSequences).value);
                && err == raised
                && peptides == (if raised.None? then annotated else old(peptides))
      ensures fasta == old(fasta) && kmerIndex == old(kmerIndex)
      ensures proteinSequences == old(proteinSequences) && background == old(background)
      ensures metadata == old(metadata) && useMerops == old(useMerops)
      ensures species == old(species) && additionalEnzymes == old(additionalEnzymes)
      ensures perProteinResult == old(perProteinResult) && totalResult == old(totalResult)
    {
      if fasta.Some? {
        var annotated;
        annotated, err := AnnotateOrKeep(rows, kmerIndex.value, proteinSequences.value);
        if err.None? {
          peptides := annotated;
        }
      } else {
        peptides, err := rows, None;
      }
    }

    method SetMetadata(m: seq<SampleRow>)
      requires Valid()
      modifies this
      ensures Valid()
      ensures metadata == Some(m)
      ensures fasta == old(fasta) && peptides == old(peptides) && useMerops == old(useMerops)
      ensures species == old(species) && additionalEnzymes == old(additionalEnzymes)
      ensures kmerIndex == old(kmerIndex) && proteinSequences == old(proteinSequences)
      ensures background == old(background)
      ensures perProteinResult == old(perProteinResult) && totalResult == old(totalResult)
    {
      metadata := Some(m);
    }

    method SetUseMerops(b: bool)
      requires Valid()
      modifies this
      ensures Valid()
      ensures useMerops == b
      ensures fasta == old(fasta) && peptides == old(peptides) && metadata == old(metadata)
      ensures species == old(species) && additionalEnzymes == old(additionalEnzymes)
      ensures kmerIndex == old(kmerIndex) && proteinSequences == old(proteinSequences)
      ensures background == old(background)
      ensures perProteinResult == old(perProteinResult) && totalResult == old(totalResult)
    {
      useMerops := b;
    }

    method SetSpecies(s: Option<string>)
      requires Valid()
      modifies this
      ensures Valid()
      ensures species == s
      ensures fasta == old(fasta) && peptides == old(peptides) && metadata == old(metadata)
      ensures useMerops == old(useMerops) && additionalEnzymes == old(additionalEnzymes)
      ensures kmerIndex == old(kmerIndex) && proteinSequences == old(proteinSequences)
      ensures background == old(background)
      ensures perProteinResult == old(perProteinResult) && totalResult == old(totalResult)
    {
      species := s;
    }

    method SetAdditionalEnzymes(enzymes: Option<seq<string>>)
      requires Valid()
      modifies this
      ensures Valid()
      ensures additionalEnzymes == enzymes
      ensures fasta == old(fasta) && peptides == old(peptides) && metadata == old(metadata)
      ensures useMerops == old(useMerops) && species == old(species)
      ensures kmerIndex == old(kmerIndex) && proteinSequences == old(proteinSequences)
      ensures background == old(background)
      ensures perProteinResult == old(perProteinResult) && totalResult == old(totalResult)
    {
      additionalEnzymes := enzymes;
    }

    /** `calculate`: insert the standard enzymes into a fresh trie, in
        order, and map the current peptide table onto them. `trieOf` stands
        for the trie built from the inserted patterns. A raised error leaves
        the cache as it was. */
    method Calculate(trieOf: seq<(string, Pattern)> -> Matching.Trie) returns (err: Option<string>)
      requires Valid()
      modifies this
      ensures Valid()
      ensures var mapped := Matching.MapSites(old(peptides), trieOf(Inserted()));
              && (mapped.Ok? ==> perProteinResult == Some(mapped.value.0)
                                 && totalResult == Some(mapped.value.1) && err.None?)
              && (mapped.Err? ==> perProteinResult == old(perProteinResult)
                                  && totalResult == old(totalResult) && err == Some(mapped.msg))
      ensures fasta == old(fasta) && peptides == old(peptides) && metadata == old(metadata)
      ensures useMerops == old(useMerops) && species == old(species)
      ensures additionalEnzymes == old(additionalEnzymes)
      ensures kmerIndex == old(kmerIndex) && proteinSequences == old(proteinSequences)
      ensures background == old(background)
    {
      var inserted: seq<(string, Pattern)> := [];
      var enzymes := BaseEnzymes();
      for e := 0 to |enzymes|
        invariant inserted == enzymes[..e]
      {
        inserted := inserted + [enzymes[e]];
      }
      assert inserted == Inserted();
      var mapped := Matching.MapSitesToEnzymes(peptides, trieOf(inserted));
      if mapped.Err? {
        return Some(mapped.msg);
      }
      perProteinResult, totalResult := Some(mapped.value.0), Some(mapped.value.1);
      err := None;
    }

    /** `total_counts`: computed on the first request only. */
    method TotalCounts(trieOf: seq<(string, Pattern)> -> Matching.Trie) returns (r: Result<multiset<string>>)
      requires Valid()
      modifies this
      ensures Valid()
      ensures old(totalResult).Some? ==>
                r == Ok(old(totalResult).value) && perProteinResult == old(perProteinResult)
                && totalResult == old(totalResult)
      ensures old(totalResult).None? ==>
                var mapped := Matching.MapSites(old(peptides), trieOf(Inserted()));
                && (mapped.Ok? ==> r == Ok(mapped.value.1) && totalResult == Some(mapped.value.1)
                                   && perProteinResult == Some(mapped.value.0))
                && (mapped.Err? ==> r == Err(mapped.msg) && totalResult.None?
                                    && perProteinResult == old(perProteinResult))
      ensures fasta == old(fasta) && peptides == old(peptides) && metadata == old(metadata)
      ensures useMerops == old(useMerops) && species == old(species)
      ensures additionalEnzymes == old(additionalEnzymes)
      ensures kmerIndex == old(kmerIndex) && proteinSequences == old(proteinSequences)
      ensures background == old(background)
    {
      if totalResult.None? {
        var err := Calculate(trieOf);
        if err.Some? {
          return Err(err.value);
        }
      }
      r := Ok(totalResult.value);
    }

    /** `protein(proteinID)`: computed on the first request only; an id
        without cleavages gets, and adds to the cache, the default entry. */
    method Protein(id: Option<string>, trieOf: seq<(string, Pattern)> -> Matching.Trie)
      returns (r: Result<Matching.ProteinResult>)
      requires Valid()
      modifies this
      ensures Valid()
      ensures old(perProteinResult).Some? ==>
                var cached := old(perProteinResult).value;
                && totalResult == old(totalResult)
                && (Lookup(cached, id).Some? ==> r == Ok(Lookup(cached, id).value) && perProteinResult == Some(cached))
                && (Lookup(cached, id).None? ==> r == Ok(NoResult) && perProteinResult == Some(cached + [(id, NoResult)]))
      ensures old(perProteinResult).None? ==>
                var mapped := Matching.MapSites(old(peptides), trieOf(Inserted()));
                && (mapped.Err? ==> r == Err(mapped.msg) && perProteinResult.None?
                                    && totalResult == old(totalResult))
                && (mapped.Ok? ==>
                      && totalResult == Some(mapped.value.1)
                      && (Lookup(mapped.value.0, id).Some? ==>
                            r == Ok(Lookup(mapped.value.0, id).value) && perProteinResult == Some(mapped.value.0))
                      && (Lookup(mapped.value.0, id).None? ==>
                            r == Ok(NoResult) && perProteinResult == Some(mapped.value.0 + [(id, NoResult)])))
      ensures fasta == old(fasta) && peptides == old(peptides) && metadata == old(metadata)
      ensures useMerops == old(useMerops) && species == old(species)
      ensures additionalEnzymes == old(additionalEnzymes)
      ensures kmerIndex == old(kmerIndex) && proteinSequences == old(proteinSequences)
      ensures background == old(background)
    {
      if perProteinResult.None? {
        var err := Calculate(trieOf);
        if err.Some? {
          return Err(err.value);
        }
      }
      var cached := perProteinResult.value;
      var found := Lookup(cached, id);
      if found.Some? {
        r := Ok(found.value);
      } else {
        perProteinResult := Some(cached + [(id, NoResult)]);
        r := Ok(NoResult);
      }
    }
  }
}

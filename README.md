# cleavviz cleavage-enrichment core in Dafny

This project models the cleavage-site pipeline of cleavviz and proves properties of the model. The pipeline finds out which proteases cut the observed peptides of a proteomics experiment:

- It builds a k-mer index over the FASTA proteins and counts the residue background while doing so.
- It locates each peptide in its protein through its first k residues.
- It cuts the two eight-residue windows around the peptide's N-terminal and C-terminal cleavage sites.
- It matches each window against enzyme patterns (P4 … P1 | P1′ … P4′) and tallies the matches overall and per protein.

Two more parts come with it:

- The enzyme-table side turns MEROPS-style count tables into position-specific scoring matrices (PSSMs) and then into patterns.
- The backend shapes peptide data for the protein-coverage, heatmap and barplot views. It validates the request arguments and handles the reference group of a barplot.

Modules follow the source files:

| module | file |
|---|---|
| `Constants` | `constants.py` (and the `site_columns` list of `kmer.py`) |
| `Helper` | `helper.py` |
| `Kmer` | `kmer.py` |
| `Preprocessing` | `preprocessing.py` |
| `Motifs` | `motifs.py` |
| `Matching` | `matching.py` |
| `Analysis` | `cleavage_enrichment_analysis.py` |
| `Importing` | `backend/cleavage_enrichment/importing.py` |
| `Enrichment` | `backend/cleavage_enrichment/cleavage_enrichment.py` |
| `Data` | `backend/cleavage_enrichment/data.py` |
| `Common` | pandas idioms they share: `dropna`, `unique`, boolean masks, `head`, Python slicing |

Loops in the source become methods with loop invariants. Each method is proved equal to a specification function, and the functions carry the lemmas.

The analysis object is a class whose setters change its fields. Its contracts state the whole new state.

Pandas tables are sequences of rows. A missing value (NaN, None) is an `Option`. Exceptions are the `Err` case of a `Result`.

## Model

| member | source | states |
|---|---|---|
| Constants.Alphabet | cleavviz/src/cleavviz/cleavage_calculation/constants.py:6-33 | the alphabet has 20 distinct capital letters, in the `AminoAcid` order, and none of B, J, O, U, X or Z |
| Constants.SiteColumns | cleavviz/src/cleavviz/cleavage_calculation/kmer.py:3-6 | eight distinct window-column names, with `Site_P1prime` at index 4 |
| Constants.CentredPattern | cleavviz/src/cleavviz/cleavage_calculation/constants.py:49 | a standard pattern has 8 positions: the P1 options at index 3, the P1′ options at index 4, and `X` everywhere else |
| Constants.BaseEnzymes | cleavviz/src/cleavviz/cleavage_calculation/constants.py:37-60 | exactly two enzymes are active, leukocyte elastase (P1 ∈ A,L,I,V) then Trypsin (P1 ∈ K,R); both have P1′ `!P` and all other positions `X`, and each pattern has 8 entries |
| Helper.ThreeToOne | cleavviz/src/cleavviz/cleavage_calculation/helper.py:4-9 | the table has 20 entries whose one-letter codes are the alphabet, in order |
| Helper.ThreeToOneIsOneToOne | cleavviz/src/cleavviz/cleavage_calculation/helper.py:4-9 | the three-letter codes are pairwise distinct, and so are the one-letter codes |
| Helper.Lookup | cleavviz/src/cleavviz/cleavage_calculation/helper.py:15 | `dict.get` gives None iff no entry has the key; a found letter belongs to an entry with that key |
| Helper.Capitalize | cleavviz/src/cleavviz/cleavage_calculation/helper.py:14 | with the case of ASCII letters mapped, the capitalized string has the input's length |
| Helper.CapitalizeIgnoresCase | cleavviz/src/cleavviz/cleavage_calculation/helper.py:14 | two strings that differ only in letter case capitalize to the same string |
| Helper.Convert3To1 | cleavviz/src/cleavviz/cleavage_calculation/helper.py:11-15 | None gives `X`; the result is always `X` or an amino-acid letter; for a string it is not `X` iff the capitalized code is in the table |
| Helper.CaseVariantsConvert | cleavviz/src/cleavviz/cleavage_calculation/helper.py:11-15 | every case variant of a table code ("LYS", "lys", "Lys") converts to that code's letter |
| Helper.Expand | cleavviz/src/cleavviz/cleavage_calculation/helper.py:19-22 | a bare string entry becomes a one-option list, and a list entry keeps its options, position by position |
| Helper.Combos | cleavviz/src/cleavviz/cleavage_calculation/helper.py:24 | `itertools.product` yields as many tuples as the product of the option counts; component i of each tuple comes from option list i |
| Helper.CombosAt | cleavviz/src/cleavviz/cleavage_calculation/helper.py:24 | the tuple made of the choices d sits at d's mixed-radix rank, so the last position varies fastest |
| Helper.RankInjective | cleavviz/src/cleavviz/cleavage_calculation/helper.py:24 | different choices have different ranks, so no tuple of the product stands for two choices |
| Helper.GeneratePatternStrings | cleavviz/src/cleavviz/cleavage_calculation/helper.py:18-25 | the number of strings is the product of the option counts, and an empty pattern gives the single empty string |
| Helper.PatternStringAt | cleavviz/src/cleavviz/cleavage_calculation/helper.py:18-25 | the string at a choice's rank is the concatenation of the chosen options |
| Kmer.KmersUpTo | cleavviz/src/cleavviz/cleavage_calculation/kmer.py:19-21 | the first `upto` iterations of the k-mer loop append `upto` entries |
| Kmer.BuildKmerIndexAndBackground | cleavviz/src/cleavviz/cleavage_calculation/kmer.py:8-26 | the loop builds the index that groups the k-mer log by k-mer in insertion order, the id → sequence map, and the background counts |
| Kmer.IndexKmers | cleavviz/src/cleavviz/cleavage_calculation/kmer.py:19-22 | one protein's loop appends its k-mers in order and counts the residue at each start offset |
| Kmer.CountEach | cleavviz/src/cleavviz/cleavage_calculation/kmer.py:23-24 | the tail loop adds each residue it visits to the background |
| Kmer.AppendHit | cleavviz/src/cleavviz/cleavage_calculation/kmer.py:21 | `kmer_index[kmer].append(...)` on the defaultdict pushes onto that k-mer's list |
| Kmer.GroupHolds | cleavviz/src/cleavviz/cleavage_calculation/kmer.py:12-21 | a k-mer is a key of the index iff it was logged, and its list holds its log entries in log order |
| Kmer.TotalHitsGroup | cleavviz/src/cleavviz/cleavage_calculation/kmer.py:19-21 | the index holds exactly as many entries as the loop appended |
| Kmer.ProteinAddsEntries | cleavviz/src/cleavviz/cleavage_calculation/kmer.py:19-21 | a protein of length n adds n−k+1 entries when n ≥ k, and none otherwise |
| Kmer.ProteinHitValid | cleavviz/src/cleavviz/cleavage_calculation/kmer.py:19-21 | each entry a protein adds under k-mer m sits at an offset where the protein reads m, below the loop bound |
| Kmer.ProteinHitsOrdered | cleavviz/src/cleavviz/cleavage_calculation/kmer.py:19-21 | one protein's entries under a k-mer come in strictly increasing offset order |
| Kmer.ProteinHitsComplete | cleavviz/src/cleavviz/cleavage_calculation/kmer.py:19-21 | every offset where the protein reads m is listed under m |
| Kmer.HitOrigin | cleavviz/src/cleavviz/cleavage_calculation/kmer.py:16-21 | every logged entry is an occurrence of its k-mer in some protein of the input |
| Kmer.SequencesOfLast | cleavviz/src/cleavviz/cleavage_calculation/kmer.py:18 | with duplicate ids the last protein's sequence wins |
| Kmer.IndexEntriesValid | cleavviz/src/cleavviz/cleavage_calculation/kmer.py:18-21 | with unique ids, every entry (id, i) under key m satisfies `protein_sequences[id][i:i+k] == m` |
| Kmer.CountedResiduesQuirk | cleavviz/src/cleavviz/cleavage_calculation/kmer.py:19-24 | a protein of length n ≥ k contributes n+1 residues, its whole multiset plus the residue at n−k a second time; a shorter one contributes exactly its n residues |
| Kmer.BackgroundGrowth | cleavviz/src/cleavviz/cleavage_calculation/kmer.py:16-24 | appending a protein grows the background by n+1 (n ≥ k) or n residues, with the double-counted residue named |
| Kmer.BuiltIndexConsistent | cleavviz/src/cleavviz/cleavage_calculation/kmer.py:8-26 | every id the built index mentions has a sequence, so the lookup at line 46 never misses |
| Kmer.FirstVerified | cleavviz/src/cleavviz/cleavage_calculation/kmer.py:44-50 | the search returns the first candidate whose slice equals the peptide, none before it qualifies, and it returns None iff no candidate qualifies |
| Kmer.Locate | cleavviz/src/cleavviz/cleavage_calculation/kmer.py:40-50 | a located hit's protein is known and reads the peptide at the hit |
| Kmer.LocatedOccurs | cleavviz/src/cleavviz/cleavage_calculation/kmer.py:44-49 | for a non-empty peptide the located span [start, start+len) lies inside the protein and equals the peptide |
| Kmer.LocatePeptide | cleavviz/src/cleavviz/cleavage_calculation/kmer.py:40-50 | the candidate loop with its `break` computes `Locate` |
| Kmer.Wildcards | cleavviz/src/cleavviz/cleavage_calculation/kmer.py:52-53 | `"XX"*sites` has 2·sites characters, all `X` |
| Kmer.CentredWindows | cleavviz/src/cleavviz/cleavage_calculation/kmer.py:58-62 | the N-term window is `protein[start−sites:start+sites]` iff start ≥ sites; the C-term window is `protein[end−sites:end+sites]` iff end < len−sites (strict); otherwise all `X`; for a peptide of at least `sites` residues (start + sites ≤ end) both windows have 2·sites residues |
| Kmer.AnnotatePeptide | cleavviz/src/cleavviz/cleavage_calculation/kmer.py:52-73 | one loop iteration computes the row's windows, id and positions, or its exception |
| Kmer.GetCleavageSites | cleavviz/src/cleavviz/cleavage_calculation/kmer.py:29-83 | the peptide loop and the column writes compute `AnnotateRows` on the peptide table |
| Kmer.AnnotatedRowsLength | cleavviz/src/cleavviz/cleavage_calculation/kmer.py:39-81 | on success the output has one row per input peptide |
| Kmer.AnnotatedRow | cleavviz/src/cleavviz/cleavage_calculation/kmer.py:39-81 | row j keeps its sequence and intensity; it gets the located protein id (None when unmatched), the positions of the last located peptide so far, and two windows of 2·sites residues that are all `X` when unmatched |
| Kmer.AnnotateRowsFails | cleavviz/src/cleavviz/cleavage_calculation/kmer.py:39-73 | the function raises iff the first peptide is unmatched (positions unbound), or sites > 4, or some located peptide's window is cut short by the protein end (the tally's IndexError) |
| Kmer.ErrorStops | cleavviz/src/cleavviz/cleavage_calculation/kmer.py:39 | once a row raises, later rows change nothing |
| Kmer.NoIndexError | cleavviz/src/cleavviz/cleavage_calculation/kmer.py:39-73 | with sites ≤ 4 and peptides at least max(1, sites) long, the only failure is an unmatched first peptide |
| Preprocessing.FilterEnzymes | cleavviz/src/cleavviz/cleavage_calculation/preprocessing.py:32-50 | with no filter the table comes back unchanged; otherwise a row is kept iff it is a base code (when standard enzymes are used), has the species, or has a listed name; each kept row keeps its multiplicity, and the result is an order-preserving subsequence |
| Preprocessing.GetCleavageSites | cleavviz/src/cleavviz/cleavage_calculation/preprocessing.py:53-116 | the result is the k-mer annotation of the rows whose intensity is present and non-zero |
| Preprocessing.MeasuredRowsAnnotated | cleavviz/src/cleavviz/cleavage_calculation/preprocessing.py:74-114 | the output aligns one-to-one with the intensity-filtered rows; each row keeps its sequence and its measured intensity |
| Preprocessing.AllMeasured | cleavviz/src/cleavviz/cleavage_calculation/preprocessing.py:74 | when every intensity is measured the filter keeps all rows, so both `get_cleavage_sites` agree |
| Motifs.ZeroTable | cleavviz/src/cleavviz/cleavage_calculation/motifs.py:26 | `full_pssm` starts as an 8 × 20 table of 0.0 |
| Motifs.NoCleanRowsAllZero | cleavviz/src/cleavviz/cleavage_calculation/motifs.py:23-29 | when no row survives the drop, every site row is all zero |
| Motifs.ScoredRowIsSite | cleavviz/src/cleavviz/cleavage_calculation/motifs.py:23-45 | a site with a non-zero count is row ObservedBefore(s) of the cleaned table, so `.loc` writes that row's score back to the site |
| Motifs.CleanRowsOfPrefix | cleavviz/src/cleavviz/cleavage_calculation/motifs.py:23-24 | dropping empty rows from a prefix gives a prefix of the cleaned table |
| Motifs.CalculatePssms | cleavviz/src/cleavviz/cleavage_calculation/motifs.py:15-55 | one PSSM per code, in input order, each equal to `CodePssm` of its counts |
| Motifs.FullPssm | cleavviz/src/cleavviz/cleavage_calculation/motifs.py:21-49 | the per-code body computes `CodePssm`: zero rows for all-zero sites, log-odds rows for the others |
| Motifs.WriteScores | cleavviz/src/cleavviz/cleavage_calculation/motifs.py:29-45 | the `.loc` write into the zero table computes `CodePssm` |
| Motifs.EnrichedUpToMeaning | cleavviz/src/cleavviz/cleavage_calculation/motifs.py:69 | the enriched list is strictly increasing in alphabet index and holds exactly the amino acids scoring above 1.68 |
| Motifs.Letters | cleavviz/src/cleavviz/cleavage_calculation/motifs.py:69 | the entry lists the one-letter names of the chosen indices, in order |
| Motifs.DepletedUpTo | cleavviz/src/cleavviz/cleavage_calculation/motifs.py:72 | the depleted list holds at most one entry per amino acid |
| Motifs.SiteEntryMeaning | cleavviz/src/cleavviz/cleavage_calculation/motifs.py:68-78 | a site is `["X"]` iff no score exceeds 1.68; otherwise it lists exactly the letters scoring above 1.68 |
| Motifs.SiteEntryOrder | cleavviz/src/cleavviz/cleavage_calculation/motifs.py:69-78 | a non-`X` site lists its letters in alphabet order |
| Motifs.SiteEntryOf | cleavviz/src/cleavviz/cleavage_calculation/motifs.py:69-78 | the per-site branch computes `SiteEntry`, with the depleted list built and then discarded by the guard that re-tests the empty enriched list |
| Motifs.PatternOfSites | cleavviz/src/cleavviz/cleavage_calculation/motifs.py:67-78 | the derived pattern has one `SiteEntry` per site column |
| Motifs.SitePatterns | cleavviz/src/cleavviz/cleavage_calculation/motifs.py:67-78 | the site loop computes `PatternOf` |
| Motifs.RegexFor | cleavviz/src/cleavviz/cleavage_calculation/motifs.py:63-79 | for 0 ≤ sites ≤ 4 the pattern has 2·sites entries; entry i is entry 4−sites+i of the fixed base pattern for base codes, or of the PSSM-derived pattern otherwise |
| Motifs.PssmToRegex | cleavviz/src/cleavviz/cleavage_calculation/motifs.py:58-81 | one pattern per code, in order, each `RegexFor` its code |
| Motifs.FillCounts | cleavviz/src/cleavviz/cleavage_calculation/motifs.py:87-104 | the row loop computes `CountsAfter` and `NamesAfter` of the enzyme table |
| Motifs.CopyCells | cleavviz/src/cleavviz/cleavage_calculation/motifs.py:96-100 | the cell loop copies every present, non-NaN `"{pos}_{aa}"` cell of the row |
| Motifs.OverwriteP1prime | cleavviz/src/cleavviz/cleavage_calculation/motifs.py:102-104 | every code without P gets its `Site_P1prime` row set to the background counts |
| Motifs.CountCells | cleavviz/src/cleavviz/cleavage_calculation/motifs.py:87-104 | a filled cell is the background count at P1′ for a code without P (once any row was read); otherwise it is the last present value of that cell among the code's rows, or 0 |
| Motifs.CountKeys | cleavviz/src/cleavviz/cleavage_calculation/motifs.py:87-104 | a code gets a count table iff it is a code without P (and the table is non-empty) or some row has a present cell for it |
| Motifs.CountsOrder | cleavviz/src/cleavviz/cleavage_calculation/motifs.py:87-104 | the defaultdict's key order has no duplicates and lists exactly its keys |
| Motifs.NamesLastWins | cleavviz/src/cleavviz/cleavage_calculation/motifs.py:94 | the last row with a code decides that code's name |
| Motifs.EntriesAreTables | cleavviz/src/cleavviz/cleavage_calculation/motifs.py:19-21 | iterating the count tables visits each key, in insertion order, with its table |
| Motifs.CreateRegexs | cleavviz/src/cleavviz/cleavage_calculation/motifs.py:85-112 | one PSSM and one pattern per counted code, in key order, and the code → name map of the table |
| Motifs.FilterEnzymes | cleavviz/src/cleavviz/cleavage_calculation/motifs.py:114-131 | without MEROPS only base codes are kept; with MEROPS and no filter the table comes back unchanged; otherwise rows matching the species or a listed name are kept; the result is an order-preserving subsequence |
| Motifs.FilterEnzymesAgree | cleavviz/src/cleavviz/cleavage_calculation/motifs.py:114-131 | the motifs filter is the preprocessing filter with standard enzymes off (MEROPS on), or with only standard enzymes (MEROPS off) |
| Matching.FindBestMatch | cleavviz/src/cleavviz/cleavage_calculation/matching.py:75-80 | "unspecified cleavage" iff there is no match, otherwise the first match |
| Matching.BestMatchTruthy | cleavviz/src/cleavviz/cleavage_calculation/matching.py:26-39 | with non-empty trie labels the best match is never falsy |
| Matching.AddWindow | cleavviz/src/cleavviz/cleavage_calculation/matching.py:35-43 | counting a window succeeds iff it fits in the eight motif positions; position i then gains the window's residue i |
| Matching.CountResidues | cleavviz/src/cleavviz/cleavage_calculation/matching.py:35-36 | the `enumerate` loop computes `AddWindow` |
| Matching.RelativeMotif | cleavviz/src/cleavviz/cleavage_calculation/matching.py:82-91 | one row per position; every row has the residues observed anywhere as keys; each cell is count/total, or 0.0 when the total is 0 |
| Matching.TallyWindow | cleavviz/src/cleavviz/cleavage_calculation/matching.py:32-44 | one matched window's residues go into the motif of the N-term match and one `total` to the window's own match; an empty window reaches no motif entry; a window longer than the motif raises IndexError, as `AddTo` states |
| Matching.RecordRow | cleavviz/src/cleavviz/cleavage_calculation/matching.py:23-54 | one peptide row updates the totals, the protein's tallies and its cleavages as `RowStep` states |
| Matching.RecordMatches | cleavviz/src/cleavviz/cleavage_calculation/matching.py:30-41 | each truthy match adds one to `total_enzyme_counts` and one new cleavage row, the N-term match first |
| Matching.TallyRow | cleavviz/src/cleavviz/cleavage_calculation/matching.py:32-44 | the N-term window and then the C-term window are tallied; an IndexError in either ends the row with that error |
| Matching.RecordRows | cleavviz/src/cleavviz/cleavage_calculation/matching.py:23-54 | the row loop computes `MapRows` |
| Matching.TwoMatchesPerRow | cleavviz/src/cleavviz/cleavage_calculation/matching.py:26-44 | because matches are never falsy, every row adds exactly 2 to `total_enzyme_counts` |
| Matching.RowStepEnzymes | cleavviz/src/cleavviz/cleavage_calculation/matching.py:32-44 | a row gives its protein entries exactly for the truthy N-term match, for the C-term match when truthy, and for the N-term match (even a falsy one) when a matched C-term window is non-empty; an empty C-term window gives the N-term match no entry |
| Matching.EmptyWindowRowSucceeds | cleavviz/src/cleavviz/cleavage_calculation/matching.py:32-70 | a row whose N-term match is falsy and whose matched C-term window is empty leaves only the C-term enzyme in the tallies, and the pass succeeds |
| Matching.CTermCreditsNTermEnzyme | cleavviz/src/cleavviz/cleavage_calculation/matching.py:32-44 | when the two matches differ, the N-term enzyme's motif gains the residues of both windows, the C-term enzyme's motif is unchanged, and each total grows by 1 |
| Matching.UnannotatedRowFails | cleavviz/src/cleavviz/cleavage_calculation/matching.py:26 | a row without cleavage columns makes the whole mapping fail |
| Matching.SummarizeProtein | cleavviz/src/cleavviz/cleavage_calculation/matching.py:57-70 | the per-protein body computes `Summarize` |
| Matching.SummarizeProteins | cleavviz/src/cleavviz/cleavage_calculation/matching.py:56-70 | the protein loop computes the results of every protein, in first-seen order |
| Matching.MapSitesToEnzymes | cleavviz/src/cleavviz/cleavage_calculation/matching.py:4-73 | the function computes `MapSites`: the per-protein results and the total counts, or the first error |
| Matching.DistinctCleavageCount | cleavviz/src/cleavviz/cleavage_calculation/matching.py:57-67 | after `drop_duplicates` an enzyme's count is the number of distinct (position, name) cleavages with its name |
| Matching.CountedIffNamed | cleavviz/src/cleavviz/cleavage_calculation/matching.py:57-67 | the count is positive iff some cleavage carries that name |
| Matching.EnzymeResultsFail | cleavviz/src/cleavviz/cleavage_calculation/matching.py:64-68 | the enzyme loop succeeds iff every tallied enzyme has a count |
| Matching.SummaryFails | cleavviz/src/cleavviz/cleavage_calculation/matching.py:57-70 | the summary raises KeyError iff some tallied enzyme has no cleavage under its own name |
| Matching.SummaryMeaning | cleavviz/src/cleavviz/cleavage_calculation/matching.py:57-70 | on success the cleavages are deduplicated keeping first occurrences; the enzyme list is a rearrangement of the entries of the tallied enzymes, one per tallied name, sorted non-increasing by count; each entry carries its enzyme's `counts_to_relative_motif` and counts its distinct cleavages |
| Matching.SummaryNamesDistinct | cleavviz/src/cleavviz/cleavage_calculation/matching.py:59-70 | when the tallied enzymes are distinct, no enzyme appears twice in the result |
| Matching.PassTalliesKeyed | cleavviz/src/cleavviz/cleavage_calculation/matching.py:12-44 | after the row loop, every protein's tallied enzymes are distinct and are exactly the enzymes with a tally |
| Matching.ResultsAligned | cleavviz/src/cleavviz/cleavage_calculation/matching.py:56-70 | the protein loop gives one result per protein, in first-seen order, each the protein's summary |
| Matching.MapSitesEnzymesOnce | cleavviz/src/cleavviz/cleavage_calculation/matching.py:4-73 | in the result of a whole pass, each protein lists every enzyme at most once |
| Matching.SortByCount | cleavviz/src/cleavviz/cleavage_calculation/matching.py:70 | the sort result is non-increasing by count |
| Matching.SortKeepsElements | cleavviz/src/cleavviz/cleavage_calculation/matching.py:70 | the sort is a permutation of its input |
| Matching.SortIsStable | cleavviz/src/cleavviz/cleavage_calculation/matching.py:70 | entries with equal counts keep their insertion order |
| Analysis.CleavageEnrichmentAnalysis.constructor | cleavviz/src/cleavviz/cleavage_calculation/cleavage_enrichment_analysis.py:13-30 | the initial state: an empty peptide table, useMerops false, every other field None |
| Analysis.BuildDatabase | cleavviz/src/cleavviz/cleavage_calculation/cleavage_enrichment_analysis.py:59-61 | the index, sequences and background are those built from the proteins with k = 6 |
| Analysis.AnnotateOrKeep | cleavviz/src/cleavviz/cleavage_calculation/cleavage_enrichment_analysis.py:68 | annotate with sites = 4, or keep the table and report the raised error |
| Analysis.Refresh | cleavviz/src/cleavviz/cleavage_calculation/cleavage_enrichment_analysis.py:62-63 | an empty peptide table is kept; a non-empty one is re-annotated |
| Analysis.CleavageEnrichmentAnalysis.SetFasta | cleavviz/src/cleavviz/cleavage_calculation/cleavage_enrichment_analysis.py:56-63 | stores the proteins and rebuilds index, sequences and background from them; re-annotates the stored table only when it is non-empty; leaves every other field and the cached results as they were |
| Analysis.CleavageEnrichmentAnalysis.SetPeptides | cleavviz/src/cleavviz/cleavage_calculation/cleavage_enrichment_analysis.py:65-70 | the table is annotated iff proteins were set, and stored raw otherwise; nothing else changes |
| Analysis.CleavageEnrichmentAnalysis.SetMetadata | cleavviz/src/cleavviz/cleavage_calculation/cleavage_enrichment_analysis.py:72-74 | only the metadata field changes |
| Analysis.CleavageEnrichmentAnalysis.SetUseMerops | cleavviz/src/cleavviz/cleavage_calculation/cleavage_enrichment_analysis.py:77-80 | only the useMerops field changes |
| Analysis.CleavageEnrichmentAnalysis.SetSpecies | cleavviz/src/cleavviz/cleavage_calculation/cleavage_enrichment_analysis.py:82-85 | only the species field changes |
| Analysis.CleavageEnrichmentAnalysis.SetAdditionalEnzymes | cleavviz/src/cleavviz/cleavage_calculation/cleavage_enrichment_analysis.py:87-90 | only the additionalEnzymes field changes |
| Analysis.CleavageEnrichmentAnalysis.Calculate | cleavviz/src/cleavviz/cleavage_calculation/cleavage_enrichment_analysis.py:106-121 | the trie gets the base enzymes in dict order; both cached results become the result of mapping the current peptide table; inputs are unchanged |
| Analysis.CleavageEnrichmentAnalysis.TotalCounts | cleavviz/src/cleavviz/cleavage_calculation/cleavage_enrichment_analysis.py:92-97 | a cached total is returned untouched, even after later input changes; otherwise the results are calculated and cached |
| Analysis.Lookup | cleavviz/src/cleavviz/cleavage_calculation/cleavage_enrichment_analysis.py:103 | a protein's entry is found iff the results hold its id |
| Analysis.CleavageEnrichmentAnalysis.Protein | cleavviz/src/cleavviz/cleavage_calculation/cleavage_enrichment_analysis.py:99-103 | the results are calculated only while none are cached, and then both caches hold the calculated results; a failed calculation leaves both caches as they were; an unknown id returns the empty default entry and adds it to the cached results, as the defaultdict does |
| Data.GetProteins | backend/cleavage_enrichment/data.py:5-15 | at most `count` ids, no duplicates, each non-null in the table and containing the filter ignoring case |
| Data.GetProteinsOrder | backend/cleavage_enrichment/data.py:10-15 | the ids come in order of first appearance |
| Data.GetProteinsComplete | backend/cleavage_enrichment/data.py:14-15 | a matching id is missing only when `count` ids were already returned |
| Data.EmptyFilterKeepsAll | backend/cleavage_enrichment/data.py:5-15 | the empty filter returns the first `count` unique ids |
| Importing.GetProteins | backend/cleavage_enrichment/importing.py:93-104 | at most `count` ids, no duplicates, each the protein id of some row and containing the filter ignoring case |
| Importing.GetGroups | backend/cleavage_enrichment/importing.py:106-113 | the distinct non-null groups, each present in the metadata, in order of first appearance |
| Importing.GetSamples | backend/cleavage_enrichment/importing.py:115-122 | the distinct non-null samples of the peptide table, in order of first appearance |
| Importing.RowsOf | backend/cleavage_enrichment/importing.py:132 | exactly the rows of the protein, each as often as in the table, in table order |
| Importing.SamplesOfGroups | backend/cleavage_enrichment/importing.py:144 | the distinct samples of metadata rows whose group is listed |
| Importing.ChosenSamples | backend/cleavage_enrichment/importing.py:143-144 | a non-empty group list replaces the sample list with the samples of those groups |
| Importing.InSamples | backend/cleavage_enrichment/importing.py:146-147 | exactly the rows whose sample is chosen, each as often as before, in order |
| Importing.MaxEnd | backend/cleavage_enrichment/importing.py:141 | the largest End position among the protein's rows |
| Importing.FirstWith | backend/cleavage_enrichment/importing.py:164-165 | `.iloc[0]`: the first row carrying the sequence |
| Importing.Trunc | backend/cleavage_enrichment/importing.py:169 | `int()` truncates toward zero |
| Importing.GroupSpans | backend/cleavage_enrichment/importing.py:149-165 | one span per distinct sequence (listed in first-seen order): [Start−1, End) of its first row, with its aggregated intensity |
| Importing.PaintSpan | backend/cleavage_enrichment/importing.py:166-169 | the inner loop adds 1 to count, and the truncated intensity to intensity, at every slot the span's indices reach (negative indices wrap); it fails iff an index falls outside the list |
| Importing.Coverage | backend/cleavage_enrichment/importing.py:159-169 | the nested loop computes `CoverageOf` |
| Importing.CoverageCountsSpans | backend/cleavage_enrichment/importing.py:162-169 | with start positions ≥ 1, count[j] is the number of spans covering j, and intensity[j] is the sum of their truncated intensities |
| Importing.MissingIntensityAddsNothing | backend/cleavage_enrichment/importing.py:168-169 | NaN aggregates add nothing to intensity |
| Importing.PlotDataOf | backend/cleavage_enrichment/importing.py:124-175 | a protein without rows gives empty arrays before the method is checked; an unknown method raises ValueError; otherwise both arrays are as long as the largest End position, taken before sample filtering; the result is Ok iff every span of the kept rows indexes inside the arrays, and IndexError otherwise; `data_neg[j]` is the painted count and `data_pos[j]` the painted truncated intensity at j |
| Importing.PlotDataCovering | backend/cleavage_enrichment/importing.py:159-175 | when every kept row starts at position 1 or later, `data_neg[j]` is the number of distinct sequences covering j, and `data_pos[j]` is the sum of their truncated intensities |
| Importing.GroupsOverrideSamples | backend/cleavage_enrichment/importing.py:143-144 | with groups given, the sample argument does not matter |
| Importing.UnknownGroupsKeepAllRows | backend/cleavage_enrichment/importing.py:143-147 | groups that no metadata row has select no samples, so no sample filter applies |
| Importing.ProteinPlotData | backend/cleavage_enrichment/importing.py:124-175 | the method computes `PlotDataOf` |
| Importing.PlotDataAllAligned | backend/cleavage_enrichment/importing.py:177-187 | one result per requested id, in request order, or the first error |
| Importing.GetPlotData | backend/cleavage_enrichment/importing.py:177-187 | the loop computes `PlotDataAll` |
| Enrichment.WithId | backend/cleavage_enrichment/cleavage_enrichment.py:58 | exactly the FASTA rows with the id, each as often as in the table, in table order |
| Enrichment.GetProteinSequence | backend/cleavage_enrichment/cleavage_enrichment.py:54-64 | succeeds iff exactly one row has the id, and then returns that row's sequence; an unknown id fails |
| Enrichment.DuplicateIdFails | backend/cleavage_enrichment/cleavage_enrichment.py:61-63 | two rows with the id, equal or not, make the lookup fail |
| Enrichment.UniqueIdSucceeds | backend/cleavage_enrichment/cleavage_enrichment.py:58-64 | when exactly one position has the id, the lookup returns that row's sequence |
| Enrichment.TwoMatchesCounted | backend/cleavage_enrichment/cleavage_enrichment.py:58-63 | two rows with the id give at least two matches, the count the lookup tests |
| Enrichment.GetProteins | backend/cleavage_enrichment/cleavage_enrichment.py:38-45 | at most `count` ids, no duplicates, each present and containing the filter ignoring case |
| Enrichment.DistinctValues | backend/cleavage_enrichment/cleavage_enrichment.py:50 | the distinct non-null values of a column, in order of first appearance |
| Enrichment.GetMetadataGroups | backend/cleavage_enrichment/cleavage_enrichment.py:47-52 | one entry per column, holding that column's `DistinctValues` |
| Enrichment.KeepMatching | backend/cleavage_enrichment/cleavage_enrichment.py:85 | `isin` keeps exactly the rows whose cell is listed, each as often as in the table, in order |
| Enrichment.FilterMetadata | backend/cleavage_enrichment/cleavage_enrichment.py:82-87 | the filter loop computes `Filtered` |
| Enrichment.FilteredMeaning | backend/cleavage_enrichment/cleavage_enrichment.py:82-87 | a row survives iff it matches every filter on an existing column with a non-empty list; other filters are skipped; each survivor is kept as often as in the table, and order is kept |
| Enrichment.PlotFrames | backend/cleavage_enrichment/cleavage_enrichment.py:95-107 | the group loop computes `PlotFramesOf` |
| Enrichment.PlotFramesMeaning | backend/cleavage_enrichment/cleavage_enrichment.py:96-102 | one intensity row and one count row per group, labelled "protein - key" only with several proteins and grouping other than by protein; row i of the intensity frame holds the intensity and row i of the count frame the count that `calculate_count_sum` gives for group i; fails iff some group's protein sequence lookup fails |
| Enrichment.SingleProteinLabels | backend/cleavage_enrichment/cleavage_enrichment.py:100 | with one protein every label is the group key |
| Enrichment.CheckHeatmap | backend/cleavage_enrichment/cleavage_enrichment.py:150-174 | the request passes iff there is exactly one protein, a group_by, and a metric that is intensity or count, and an aggregation is given or defaults to median (grouping by sample or counting) |
| Enrichment.SecondAggregationCheckIsDead | backend/cleavage_enrichment/cleavage_enrichment.py:167-171 | after the median default the second aggregation check can never raise |
| Enrichment.HeatmapDataOf | backend/cleavage_enrichment/cleavage_enrichment.py:127-193 | a failed check is the result; after a passing check the result is Ok iff `plot_data` returns, and otherwise `plot_data`'s error; the name is "Heatmap for <protein>", the ylabel is group_by, and the frame and zlabel follow the metric |
| Enrichment.SplitReference | backend/cleavage_enrichment/cleavage_enrichment.py:253-264 | fails iff the reference label is missing; otherwise keeps the rows not labelled with the reference, in order, and repeats the reference row len(df)−1 times |
| Enrichment.SplitReferenceAligned | backend/cleavage_enrichment/cleavage_enrichment.py:253-255 | with distinct labels both frames have the same length |
| Enrichment.BarplotDataOf | backend/cleavage_enrichment/cleavage_enrichment.py:207-267 | missing proteins, group_by, aggregation or metric raise; with all four given, `plot_data`'s error is the result, and otherwise the result is Ok unless reference mode asks for a reference label missing from the metric's frame; the reference mode is recorded; legends follow the metric: "Intensity"/"Count" for intensity_count, "Intensity"/"Intensity of reference" for intensity, "Count of reference"/"" for count, and none for another metric, which passes no frame; intensity_count passes both frames; without reference mode the metric's frame is passed |
| Enrichment.ReferenceModeSplits | backend/cleavage_enrichment/cleavage_enrichment.py:240-265 | in reference mode, for the intensity metric on the intensity frame and the count metric on the count frame: the reference label exists, the positive frame is the frame without the reference rows, in order, and the negative frame is the reference row repeated len(df)−1 times |
| Enrichment.GetPlot | backend/cleavage_enrichment/cleavage_enrichment.py:270-305 | a missing or unknown plot type gives no figure; heatmap and barplot requests succeed iff their data does |

## Left out

- File and database I/O are not modelled: `read_csv`, `read_fasta`, the `load_*` helpers, the lazy-load decorators, `get_enzyme_df` (parquet) and both `io_utils.py`. Their tables are inputs.
- Biopython's PSSM values are the uninterpreted parameter `LogOdds`. Only the zero-row structure and the thresholding are modelled.
- `regex_trie.py` is not part of this model. `trie.match` is the parameter `Trie`, a function from a window to its ordered labels. `Analysis.CleavageEnrichmentAnalysis.Calculate` takes the trie built from the inserted patterns as the parameter `trieOf`.
- `processing.calculate_count_sum` is not part of this model. It is the parameter `CountSum`.
- The pandas `median`/`mean`/`sum` of `protein_plot_data` is the parameter `Aggregate`. It gives the per-sequence aggregated intensity.
- Enrichment.PlotFrames: the merge and `groupby` of `plot_data` are not modelled. The groups arrive as a parameter, already split and in group order.
- Enrichment.PlotFrames: the `colored_metadata` groups frame and its warning are not modelled, and neither is `color_groups` in `Enrichment.HeatmapDataOf`.
- Logging calls, the `print` in `create_regexs` and the plotting figures (`create_heatmap_figure`, `create_bar_figure` and their scale options) are left out, because they produce no value the core uses. A figure is represented by the request data it is built from.
- Kmer.GetCleavageSites: the `counts` tally is modelled only for the IndexError it can raise. Its values are never read.
- `motifs.py` imports `site_columns`, `base_enzyme_codes` and `base_enzyme_codes_without_P` from `constants.py`, which defines none of them. Constants.SiteColumns uses the `site_columns` list of `kmer.py`. Motifs takes `base_enzyme_codes_without_P` as the parameter `withoutP`, the `base_enzyme_codes` of `get_filtered_enzyme_df` as `baseCodes`, and the base patterns as the map `base`.
- Motifs.RegexFor: the test `code in base_enzyme_codes` is read as `code in base`, a key of the base-pattern map. A listed code with no `base_enzymes` entry, which raises KeyError in Python, is not modelled; Motifs.PssmToRegex reads the test the same way.
- Importing.GroupSpans: `groupby("Sequence")` visits the sequences in sorted order; the model lists them in first-seen order. The per-position sums that Importing.CoverageOf builds are the same in either order, because the additions commute, but that is not proved.
- Motifs.CreateRegexs: the `useMerops` argument is accepted and never read, as `create_regexs` does.
- Analysis.CleavageEnrichmentAnalysis.SetFasta: an exception inside a setter is returned as `err`. The fields assigned before it keep their new values, and the peptide table keeps its old value.
- `str.contains` is read as a literal, case-insensitive substring test, not as a regular expression.
- Common.ContainsIgnoreCase: case is ignored for ASCII letters only. pandas' `case=False` also folds the case of other letters.
- Helper.Capitalize: only ASCII letters change case. Python's `str.capitalize` also maps other letters (`ſ` to `S`, `ı` to `I`), and expands `ß` to `Ss`, which changes the length.
- Helper.Convert3To1: it capitalizes with Helper.Capitalize, so a code with a non-ASCII letter that Python capitalizes into a table key (`ſer` gives `S` in Python) gives `X` in the model.
- The `is not` tests of `heatmap_data` are modelled as inequality of the string values.
- Enrichment.RowLabelled: `.loc` with a duplicated label returns several rows in pandas. The model takes the first, and Enrichment.SplitReferenceAligned assumes distinct labels.
- Matching.RelativeMotif: numbers are Dafny reals, not floating point. A cell can exceed 1, because C-term residues are credited to the N-term enzyme while the total goes to the C-term enzyme.
- Kmer.AnnotatedRow: positions left over from the last located peptide are modelled for unmatched rows, and an unmatched first row is the UnboundLocalError `Err`.
- Importing.Trunc: NaN and infinite intensities are not reals. A NaN aggregate is `None` and adds nothing.
- The Django views and URLs, the React frontend and `heatmap.py`/`barplot.py` are outside this model.

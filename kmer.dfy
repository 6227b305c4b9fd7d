/** The k-mer index over a protein database, the residue background counted
    while building it, and the location of each peptide in its protein
    together with the sequence windows around its two cleavage sites. */
module Kmer {
  import opened Common

  datatype Protein = Protein(id: string, sequence: string)

  /** A k-mer occurrence: the protein id and the 0-based offset. */
  datatype Hit = Hit(id: string, offset: nat)

  /** k-mer -> its occurrences, in insertion order. */
  type KmerIndex = map<string, seq<Hit>>

  // ----- build_kmer_index_and_background: specification -----

  /** The number of start offsets the k-mer loop visits: `len(sequence) - k + 1`, or none. */
  function KmerCount(s: string, k: nat): (r: nat)
    requires k >= 1
    ensures r <= |s|
  {
    if |s| >= k then |s| - k + 1 else 0
  }

  /** The pair the loop appends for start offset `i`. */
  function KmerAt(p: Protein, k: nat, i: nat): (string, Hit)
    requires i + k <= |p.sequence|
  {
    (p.sequence[i..i + k], Hit(p.id, i))
  }

  /** The pairs for the first `upto` start offsets, in loop order. */
  function KmersUpTo(p: Protein, k: nat, upto: nat): (r: seq<(string, Hit)>)
    requires k >= 1 && upto <= KmerCount(p.sequence, k)
    ensures |r| == upto
  {
    if upto == 0 then [] else KmersUpTo(p, k, upto - 1) + [KmerAt(p, k, upto - 1)]
  }

  /** The (k-mer, occurrence) pairs one protein adds. */
  function ProteinKmers(p: Protein, k: nat): seq<(string, Hit)>
    requires k >= 1
  {
    KmersUpTo(p, k, KmerCount(p.sequence, k))
  }

  /** Every pair the build loop appends, protein after protein. */
  function KmerLog(ps: seq<Protein>, k: nat): seq<(string, Hit)>
    requires k >= 1
  {
    if ps == [] then [] else KmerLog(ps[..|ps| - 1], k) + ProteinKmers(ps[|ps| - 1], k)
  }

  /** `kmer_index[kmer].append(hit)` on a defaultdict(list). */
  function Push(index: KmerIndex, e: (string, Hit)): KmerIndex {
    index[e.0 := (if e.0 in index then index[e.0] else []) + [e.1]]
  }

  /** The index that appending every pair of `log` in order produces. */
  function Group(log: seq<(string, Hit)>): KmerIndex {
    if log == [] then map[] else Push(Group(log[..|log| - 1]), log[|log| - 1])
  }

  /** The occurrences recorded under `m` in `log`, in order. */
  function HitsFor(log: seq<(string, Hit)>, m: string): seq<Hit> {
    if log == [] then []
    else HitsFor(log[..|log| - 1], m) + (if log[|log| - 1].0 == m then [log[|log| - 1].1] else [])
  }

  /** `protein_sequences[protein.id] = sequence`, protein after protein. */
  function SequencesOf(ps: seq<Protein>): map<string, string> {
    if ps == [] then map[] else SequencesOf(ps[..|ps| - 1])[ps[|ps| - 1].id := ps[|ps| - 1].sequence]
  }

  /** The residues one protein adds to the background, in counting order:
      `sequence[i]` for each k-mer start, then every residue of `sequence[-k:]`. */
  function CountedResidues(s: string, k: nat): string
    requires k >= 1
  {
    s[..KmerCount(s, k)] + PySlice(s, -(k as int), |s|)
  }

  function BackgroundOf(ps: seq<Protein>, k: nat): multiset<char>
    requires k >= 1
  {
    if ps == [] then multiset{}
    else BackgroundOf(ps[..|ps| - 1], k) + multiset(CountedResidues(ps[|ps| - 1].sequence, k))
  }

  // ----- build_kmer_index_and_background: the loop -----

  /** `build_kmer_index_and_background`: one pass over the proteins fills the
      index, the id -> sequence map and the background counts. */
  method BuildKmerIndexAndBackground(fasta: seq<Protein>, k: nat)
      returns (index: KmerIndex, sequences: map<string, string>, background: multiset<char>)
    requires k >= 1
    ensures index == Group(KmerLog(fasta, k))
    ensures sequences == SequencesOf(fasta)
    ensures background == BackgroundOf(fasta, k)
  {
    index, sequences, background := map[], map[], multiset{};
    for p := 0 to |fasta|
      invariant index == Group(KmerLog(fasta[..p], k))
      invariant sequences == SequencesOf(fasta[..p])
      invariant background == BackgroundOf(fasta[..p], k)
    {
      DatabaseSnoc(fasta, p, k);
      sequences := sequences[fasta[p].id := fasta[p].sequence];
      GroupAppend(KmerLog(fasta[..p], k), ProteinKmers(fasta[p], k));
      var s := fasta[p].sequence;
      index, background := IndexKmers(index, background, fasta[p], k);
      var tail := PySlice(s, -(k as int), |s|);
      background := CountEach(background, tail);
      assert s[..KmerCount(s, k)] + tail == CountedResidues(s, k);
    }
    assert fasta[..|fasta|] == fasta;
  }

  /** The k-mer loop of one protein: index every k-mer start and count the
      residue found there. */
  method IndexKmers(index: KmerIndex, background: multiset<char>, protein: Protein, k: nat)
      returns (index': KmerIndex, background': multiset<char>)
    requires k >= 1
    ensures index' == PushAll(index, ProteinKmers(protein, k))
    ensures background' == background + multiset(protein.sequence[..KmerCount(protein.sequence, k)])
  {
    var s := protein.sequence;
    index', background' := index, background;
    var i := 0;
    while i < |s| - k + 1
      invariant 0 <= i <= KmerCount(s, k)
      invariant index' == PushAll(index, KmersUpTo(protein, k, i))
      invariant background' == background + multiset(s[..i])
    {
      var kmer := s[i..i + k];
      var hit := Hit(protein.id, i);
      KmersSnoc(index, protein, k, i);
      index' := AppendHit(index', kmer, hit);
      PrefixSnocMultiset(s, i);
      background' := background' + multiset{s[i]};
      i := i + 1;
    }
    assert i == KmerCount(s, k);
  }

  /** `for j in residues: background[j] += 1`. */
  method CountEach(counts: multiset<char>, residues: string) returns (counts': multiset<char>)
    ensures counts' == counts + multiset(residues)
  {
    counts' := counts;
    for t := 0 to |residues|
      invariant counts' == counts + multiset(residues[..t])
    {
      assert residues[..t + 1] == residues[..t] + [residues[t]];
      counts' := counts' + multiset{residues[t]};
    }
    assert residues[..|residues|] == residues;
  }

  lemma KmersSnoc(index: KmerIndex, protein: Protein, k: nat, i: nat)
    requires k >= 1 && i < KmerCount(protein.sequence, k)
    ensures PushAll(index, KmersUpTo(protein, k, i + 1))
              == Push(PushAll(index, KmersUpTo(protein, k, i)), (protein.sequence[i..i + k], Hit(protein.id, i)))
  {
    var xs := KmersUpTo(protein, k, i + 1);
    assert xs[..i] == KmersUpTo(protein, k, i);
    assert xs[i] == KmerAt(protein, k, i);
  }

  /** Appending the pairs of `xs` one by one to an existing index. */
  function PushAll(index: KmerIndex, xs: seq<(string, Hit)>): KmerIndex {
    if xs == [] then index else Push(PushAll(index, xs[..|xs| - 1]), xs[|xs| - 1])
  }

  lemma {:induction false} GroupAppend(log: seq<(string, Hit)>, xs: seq<(string, Hit)>)
    ensures Group(log + xs) == PushAll(Group(log), xs)
    decreases |xs|
  {
    if xs == [] {
      assert log + xs == log;
    } else {
      var init := xs[..|xs| - 1];
      assert (log + xs)[..|log + xs| - 1] == log + init;
      assert (log + xs)[|log + xs| - 1] == xs[|xs| - 1];
      GroupAppend(log, init);
    }
  }

  /** `kmer_index[kmer].append(hit)` on a defaultdict(list). */
  method AppendHit(index: KmerIndex, kmer: string, hit: Hit) returns (updated: KmerIndex)
    ensures updated == Push(index, (kmer, hit))
  {
    var hits := if kmer in index then index[kmer] else [];
    updated := index[kmer := hits + [hit]];
  }

  /** What one more protein adds to the three specifications. */
  lemma DatabaseSnoc(fasta: seq<Protein>, p: nat, k: nat)
    requires k >= 1 && p < |fasta|
    ensures KmerLog(fasta[..p + 1], k) == KmerLog(fasta[..p], k) + ProteinKmers(fasta[p], k)
    ensures SequencesOf(fasta[..p + 1]) == SequencesOf(fasta[..p])[fasta[p].id := fasta[p].sequence]
    ensures BackgroundOf(fasta[..p + 1], k)
              == BackgroundOf(fasta[..p], k) + multiset(CountedResidues(fasta[p].sequence, k))
  {
    assert fasta[..p + 1][..p] == fasta[..p];
  }

  // ----- properties of the index -----

  /** The index holds exactly the keys that occur in the log, and under each
      key the occurrences in log order. */
  lemma {:induction false} GroupHolds(log: seq<(string, Hit)>, m: string)
    ensures m in Group(log) <==> HitsFor(log, m) != []
    ensures m in Group(log) ==> Group(log)[m] == HitsFor(log, m)
  {
    if log != [] {
      GroupHolds(log[..|log| - 1], m);
    }
  }

  /** The number of occurrences stored over all keys. */
  ghost function TotalHits(index: KmerIndex): nat
    decreases |index|
  {
    if index == map[] then 0
    else
      var m :| m in index;
      |index[m]| + TotalHits(index - {m})
  }

  lemma {:induction false} TotalHitsRemove(index: KmerIndex, m: string)
    requires m in index
    ensures TotalHits(index) == |index[m]| + TotalHits(index - {m})
    decreases |index|
  {
    var c :| c in index && TotalHits(index) == |index[c]| + TotalHits(index - {c});
    if c != m {
      var rest := index - {c};
      assert |rest| < |index| by { assert rest.Keys < index.Keys; assert c !in rest.Keys; }
      TotalHitsRemove(rest, m);
      var rest2 := index - {m};
      assert |rest2| < |index| by { assert rest2.Keys < index.Keys; assert m !in rest2.Keys; }
      TotalHitsRemove(rest2, c);
      assert rest - {m} == rest2 - {c};
    }
  }

  lemma TotalHitsPush(index: KmerIndex, e: (string, Hit))
    ensures TotalHits(Push(index, e)) == TotalHits(index) + 1
  {
    var pushed := Push(index, e);
    TotalHitsRemove(pushed, e.0);
    if e.0 in index {
      TotalHitsRemove(index, e.0);
      assert pushed - {e.0} == index - {e.0};
    } else {
      assert pushed - {e.0} == index;
    }
  }

  lemma GroupSnoc(log: seq<(string, Hit)>, e: (string, Hit))
    ensures Group(log + [e]) == Push(Group(log), e)
  {
    assert (log + [e])[..|log|] == log;
  }

  /** Building from a log stores each of its pairs once. */
  lemma {:induction false} TotalHitsGroup(log: seq<(string, Hit)>)
    ensures TotalHits(Group(log)) == |log|
  {
    if log != [] {
      TotalHitsGroup(log[..|log| - 1]);
      TotalHitsPush(Group(log[..|log| - 1]), log[|log| - 1]);
    }
  }

  /** A protein of length n adds n - k + 1 entries when n >= k, and none when
      it is shorter than k. */
  lemma ProteinAddsEntries(ps: seq<Protein>, p: Protein, k: nat)
    requires k >= 1
    ensures var n := |p.sequence|;
            TotalHits(Group(KmerLog(ps + [p], k)))
              == TotalHits(Group(KmerLog(ps, k))) + (if n >= k then n - k + 1 else 0)
  {
    assert (ps + [p])[..|ps|] == ps;
    TotalHitsGroup(KmerLog(ps + [p], k));
    TotalHitsGroup(KmerLog(ps, k));
  }

  lemma {:induction false} HitsForAppend(a: seq<(string, Hit)>, b: seq<(string, Hit)>, m: string)
    ensures HitsFor(a + b, m) == HitsFor(a, m) + HitsFor(b, m)
    decreases |b|
  {
    if b != [] {
      assert (a + b)[..|a + b| - 1] == a + b[..|b| - 1];
      assert (a + b)[|a + b| - 1] == b[|b| - 1];
      var e := b[|b| - 1];
      var part := if e.0 == m then [e.1] else [];
      assert HitsFor(a + b, m) == HitsFor(a + b[..|b| - 1], m) + part;
      assert HitsFor(b, m) == HitsFor(b[..|b| - 1], m) + part;
      HitsForAppend(a, b[..|b| - 1], m);
    } else {
      assert a + b == a;
    }
  }

  /** One more start offset appends its occurrence when its k-mer is `m`. */
  lemma HitsForStep(p: Protein, k: nat, m: string, upto: nat)
    requires k >= 1 && 0 < upto <= KmerCount(p.sequence, k)
    ensures HitsFor(KmersUpTo(p, k, upto), m)
              == HitsFor(KmersUpTo(p, k, upto - 1), m)
                 + (if IsOccurrence(p, k, m, Hit(p.id, upto - 1)) then [Hit(p.id, upto - 1)] else [])
  {
    var log := KmersUpTo(p, k, upto);
    assert log[..upto - 1] == KmersUpTo(p, k, upto - 1);
    assert log[upto - 1] == KmerAt(p, k, upto - 1);
  }

  /** One more start offset appends at most its own hit. */
  lemma HitsForGrows(p: Protein, k: nat, m: string, upto: nat)
    requires k >= 1 && 0 < upto <= KmerCount(p.sequence, k)
    ensures var before := HitsFor(KmersUpTo(p, k, upto - 1), m);
            || HitsFor(KmersUpTo(p, k, upto), m) == before
            || HitsFor(KmersUpTo(p, k, upto), m) == before + [Hit(p.id, upto - 1)]
  {
    HitsForStep(p, k, m, upto);
  }

  /** `h` names protein `p` at an offset whose k-mer is `m`. */
  predicate IsOccurrence(p: Protein, k: nat, m: string, h: Hit) {
    h.id == p.id && h.offset + k <= |p.sequence| && p.sequence[h.offset..h.offset + k] == m
  }

  /** The entries a protein adds under a key `m` carry its id and lie at
      offsets whose k-mer is `m`. */
  lemma {:induction false} ProteinHitValid(p: Protein, k: nat, m: string, upto: nat, j: nat)
    requires k >= 1 && upto <= KmerCount(p.sequence, k)
    requires j < |HitsFor(KmersUpTo(p, k, upto), m)|
    ensures IsOccurrence(p, k, m, HitsFor(KmersUpTo(p, k, upto), m)[j])
    ensures HitsFor(KmersUpTo(p, k, upto), m)[j].offset < upto
  {
    assert upto > 0;
    HitsForStep(p, k, m, upto);
    var before := HitsFor(KmersUpTo(p, k, upto - 1), m);
    if j < |before| {
      ProteinHitValid(p, k, m, upto - 1, j);
    }
  }

  predicate IncreasingOffsets(hs: seq<Hit>) {
    forall a, b :: 0 <= a < b < |hs| ==> hs[a].offset < hs[b].offset
  }

  predicate OffsetsBelow(hs: seq<Hit>, n: nat) {
    forall a :: 0 <= a < |hs| ==> hs[a].offset < n
  }

  /** Appending a hit past every offset keeps the offsets increasing. */
  lemma AppendKeepsIncreasing(hs: seq<Hit>, h: Hit)
    requires IncreasingOffsets(hs) && OffsetsBelow(hs, h.offset)
    ensures IncreasingOffsets(hs + [h]) && OffsetsBelow(hs + [h], h.offset + 1)
  {
    var r := hs + [h];
    forall a, b | 0 <= a < b < |r| ensures r[a].offset < r[b].offset {
      assert r[a] == hs[a];
    }
  }

  /** ... in increasing offset order, all before `upto` ... */
  lemma {:induction false} ProteinHitsOrdered(p: Protein, k: nat, m: string, upto: nat)
    requires k >= 1 && upto <= KmerCount(p.sequence, k)
    ensures IncreasingOffsets(HitsFor(KmersUpTo(p, k, upto), m))
    ensures OffsetsBelow(HitsFor(KmersUpTo(p, k, upto), m), upto)
  {
    if upto > 0 {
      ProteinHitsOrdered(p, k, m, upto - 1);
      HitsForGrows(p, k, m, upto);
      var before := HitsFor(KmersUpTo(p, k, upto - 1), m);
      if HitsFor(KmersUpTo(p, k, upto), m) != before {
        AppendKeepsIncreasing(before, Hit(p.id, upto - 1));
      }
    }
  }

  /** ... and include every offset whose k-mer is `m`. */
  lemma {:induction false} ProteinHitsComplete(p: Protein, k: nat, m: string, upto: nat, i: nat)
    requires k >= 1 && upto <= KmerCount(p.sequence, k)
    requires i < upto && IsOccurrence(p, k, m, Hit(p.id, i))
    ensures Hit(p.id, i) in HitsFor(KmersUpTo(p, k, upto), m)
  {
    assert upto > 0;
    HitsForStep(p, k, m, upto);
    if i < upto - 1 {
      ProteinHitsComplete(p, k, m, upto - 1, i);
    }
  }

  /** Every occurrence in the built log names a protein of the database
      whose sequence has that k-mer at that offset. */
  lemma {:induction false} HitOrigin(ps: seq<Protein>, k: nat, m: string, h: Hit)
    requires k >= 1
    requires h in HitsFor(KmerLog(ps, k), m)
    ensures exists j :: 0 <= j < |ps| && IsOccurrence(ps[j], k, m, h)
  {
    assert ps != [];
    var init := ps[..|ps| - 1];
    var p := ps[|ps| - 1];
    assert KmerLog(ps, k) == KmerLog(init, k) + ProteinKmers(p, k);
    HitsForAppend(KmerLog(init, k), ProteinKmers(p, k), m);
    if h in HitsFor(KmerLog(init, k), m) {
      HitOrigin(init, k, m, h);
      var j :| 0 <= j < |init| && IsOccurrence(init[j], k, m, h);
      assert ps[j] == init[j];
    } else {
      var h' := HitsFor(ProteinKmers(p, k), m);
      assert HitsFor(KmerLog(ps, k), m) == HitsFor(KmerLog(init, k), m) + h';
      assert h in h';
      var j :| 0 <= j < |h'| && h'[j] == h;
      ProteinHitValid(p, k, m, KmerCount(p.sequence, k), j);
      assert ps[|ps| - 1] == p;
    }
  }

  /** The sequence map holds every id, with the sequence of the last protein
      carrying it: a later duplicate overwrites an earlier one. */
  lemma {:induction false} SequencesOfLast(ps: seq<Protein>, j: nat)
    requires j < |ps|
    requires forall j' :: j < j' < |ps| ==> ps[j'].id != ps[j].id
    ensures ps[j].id in SequencesOf(ps) && SequencesOf(ps)[ps[j].id] == ps[j].sequence
  {
    if j < |ps| - 1 {
      SequencesOfLast(ps[..|ps| - 1], j);
    }
  }

  predicate UniqueIds(ps: seq<Protein>) {
    forall a, b :: 0 <= a < b < |ps| ==> ps[a].id != ps[b].id
  }

  /** With unique protein ids, every entry stored under a key `m` points at
      an occurrence of `m`: `protein_sequences[id][i:i+k] == m`. */
  lemma IndexEntriesValid(ps: seq<Protein>, k: nat, m: string, h: Hit)
    requires k >= 1 && UniqueIds(ps)
    requires m in Group(KmerLog(ps, k)) && h in Group(KmerLog(ps, k))[m]
    ensures h.id in SequencesOf(ps)
    ensures h.offset + k <= |SequencesOf(ps)[h.id]|
    ensures SequencesOf(ps)[h.id][h.offset..h.offset + k] == m
  {
    GroupHolds(KmerLog(ps, k), m);
    HitOrigin(ps, k, m, h);
    var j :| 0 <= j < |ps| && IsOccurrence(ps[j], k, m, h);
    SequencesOfLast(ps, j);
  }

  // ----- properties of the background -----

  /** A protein of length n >= k contributes n + 1 residues: the one at
      offset n - k is counted by the k-mer loop and again by the tail pass.
      A shorter protein contributes each residue once. */
  lemma CountedResiduesQuirk(s: string, k: nat)
    requires k >= 1
    ensures |s| >= k ==> |CountedResidues(s, k)| == |s| + 1
                          && multiset(CountedResidues(s, k)) == multiset(s) + multiset{s[|s| - k]}
    ensures |s| < k ==> |CountedResidues(s, k)| == |s| && multiset(CountedResidues(s, k)) == multiset(s)
  {
    if |s| >= k {
      CountedResiduesLong(s, k);
    } else {
      assert PySlice(s, -(k as int), |s|) == s;
    }
  }

  lemma CountedResiduesLong(s: string, k: nat)
    requires 1 <= k <= |s|
    ensures CountedResidues(s, k) == s[..|s| - k + 1] + s[|s| - k..]
    ensures multiset(CountedResidues(s, k)) == multiset(s) + multiset{s[|s| - k]}
  {
    var n := |s|;
    var head, tail := s[..n - k + 1], s[n - k..];
    assert PySlice(s, -(k as int), n) == tail;
    PrefixSnocMultiset(s, n - k);
    assert s == s[..n - k] + tail;
  }

  /** Adding a protein to the database adds its residues to the background,
      plus the doubly counted one. */
  lemma BackgroundGrowth(ps: seq<Protein>, p: Protein, k: nat)
    requires k >= 1
    ensures var n := |p.sequence|;
            && |BackgroundOf(ps + [p], k)| == |BackgroundOf(ps, k)| + (if n >= k then n + 1 else n)
            && BackgroundOf(ps + [p], k) == BackgroundOf(ps, k) + multiset(p.sequence)
                 + (if n >= k then multiset{p.sequence[n - k]} else multiset{})
  {
    assert (ps + [p])[..|ps|] == ps;
    var counted := multiset(CountedResidues(p.sequence, k));
    assert BackgroundOf(ps + [p], k) == BackgroundOf(ps, k) + counted;
    CountedResiduesQuirk(p.sequence, k);
  }

  // ----- get_cleavage_sites -----

  /** Every occurrence in the index names a protein of the sequence map
      (otherwise `protein_sequences[id]` raises KeyError). */
  predicate Consistent(index: KmerIndex, sequences: map<string, string>) {
    forall m :: m in index ==> forall j :: 0 <= j < |index[m]| ==> index[m][j].id in sequences
  }

  lemma BuiltIndexConsistent(ps: seq<Protein>, k: nat)
    requires k >= 1
    ensures Consistent(Group(KmerLog(ps, k)), SequencesOf(ps))
  {
    var index: KmerIndex := Group(KmerLog(ps, k));
    forall m: string, j: int | m in index && 0 <= j < |index[m]| ensures index[m][j].id in SequencesOf(ps) {
      var h: Hit := index[m][j];
      GroupHolds(KmerLog(ps, k), m);
      HitOrigin(ps, k, m, h);
      var i :| 0 <= i < |ps| && IsOccurrence(ps[i], k, m, h);
      IdsInSequences(ps, i);
    }
  }

  lemma {:induction false} IdsInSequences(ps: seq<Protein>, i: nat)
    requires i < |ps|
    ensures ps[i].id in SequencesOf(ps)
  {
    if i < |ps| - 1 {
      IdsInSequences(ps[..|ps| - 1], i);
    }
  }

  /** `kmer_index[sequence[:k]]`: an unseen prefix has no candidates. */
  function Candidates(index: KmerIndex, peptide: string, k: nat): seq<Hit> {
    var prefix := PySlice(peptide, 0, k);
    if prefix in index then index[prefix] else []
  }

  /** `sequence == protein_sequences[id][i:i+len(sequence)]`. */
  predicate Verified(sequences: map<string, string>, h: Hit, peptide: string)
    requires h.id in sequences
  {
    PySlice(sequences[h.id], h.offset, h.offset + |peptide|) == peptide
  }

  /** The position of the first candidate whose slice equals the whole peptide. */
  function FirstVerified(cands: seq<Hit>, sequences: map<string, string>, peptide: string): (r: Option<nat>)
    requires forall j :: 0 <= j < |cands| ==> cands[j].id in sequences
    ensures r.Some? ==> r.value < |cands| && Verified(sequences, cands[r.value], peptide)
    ensures r.Some? ==> forall j :: 0 <= j < r.value ==> !Verified(sequences, cands[j], peptide)
    ensures r.None? ==> forall j :: 0 <= j < |cands| ==> !Verified(sequences, cands[j], peptide)
  {
    var checks := seq(|cands|, j requires 0 <= j < |cands| => Verified(sequences, cands[j], peptide));
    var r := FirstTrueFrom(checks, 0);
    assert forall j :: 0 <= j < |cands| ==> (checks[j] <==> Verified(sequences, cands[j], peptide));
    r
  }

  /** The first position at `i` or later that holds `true`. */
  function FirstTrueFrom(flags: seq<bool>, i: nat): (r: Option<nat>)
    requires i <= |flags|
    ensures r.Some? ==> i <= r.value < |flags| && flags[r.value]
    ensures r.Some? ==> forall j :: i <= j < r.value ==> !flags[j]
    ensures r.None? ==> forall j :: i <= j < |flags| ==> !flags[j]
    decreases |flags| - i
  {
    if i == |flags| then None
    else if flags[i] then Some(i)
    else FirstTrueFrom(flags, i + 1)
  }

  lemma FirstVerifiedAt(cands: seq<Hit>, sequences: map<string, string>, peptide: string, c: nat)
    requires forall j :: 0 <= j < |cands| ==> cands[j].id in sequences
    requires c < |cands| && Verified(sequences, cands[c], peptide)
    requires forall j :: 0 <= j < c ==> !Verified(sequences, cands[j], peptide)
    ensures FirstVerified(cands, sequences, peptide) == Some(c)
  {
  }

  /** Where the peptide lies: the first verified candidate, or none. */
  function Locate(index: KmerIndex, sequences: map<string, string>, peptide: string, k: nat): (r: Option<Hit>)
    requires Consistent(index, sequences)
    ensures r.Some? ==> r.value.id in sequences && Verified(sequences, r.value, peptide)
  {
    var cands := Candidates(index, peptide, k);
    match FirstVerified(cands, sequences, peptide)
    case None => None
    case Some(j) => Some(cands[j])
  }

  /** A located peptide really occurs at its offset. */
  lemma LocatedOccurs(index: KmerIndex, sequences: map<string, string>, peptide: string, k: nat)
    requires Consistent(index, sequences) && peptide != ""
    requires Locate(index, sequences, peptide, k).Some?
    ensures var h := Locate(index, sequences, peptide, k).value;
            h.offset + |peptide| <= |sequences[h.id]|
            && sequences[h.id][h.offset..h.offset + |peptide|] == peptide
  {
  }

  /** `"XX" * sites`. */
  function Wildcards(sites: nat): (r: string)
    ensures |r| == 2 * sites && forall i :: 0 <= i < |r| ==> r[i] == 'X'
  {
    Repeat('X', 2 * sites)
  }

  /** The N-term window: needs `start > sites - 1`. */
  function NTermWindow(protein: string, start: int, sites: nat): string {
    if start > sites - 1 then PySlice(protein, start - sites, start + sites) else Wildcards(sites)
  }

  /** The C-term window: needs `end < len(protein) - sites` (strict). */
  function CTermWindow(protein: string, end: int, sites: nat): string {
    if end < |protein| - sites then PySlice(protein, end - sites, end + sites) else Wildcards(sites)
  }

  /** The columns `get_cleavage_sites` adds to a row. */
  datatype Annotation = Annotation(
    nTermWindow: string, cTermWindow: string, proteinId: Option<string>,
    nTermPosition: int, cTermPosition: int)

  /** A row of the peptide table. `intensity` None stands for NaN. */
  datatype PeptideRow = PeptideRow(sequence: string, intensity: Option<real>, annotation: Option<Annotation>)

  /** `start_position`/`end_position` after a row: the located span, or the
      values left over from the last located row. */
  function Positions(hit: Option<Hit>, peptide: string, prev: Option<(int, int)>): Option<(int, int)> {
    match hit
    case Some(h) => Some((h.offset, h.offset + |peptide|))
    case None => prev
  }

  /** The positions the loop variables hold after `rows`. */
  function LastLocated(rows: seq<PeptideRow>, index: KmerIndex, sequences: map<string, string>, k: nat): Option<(int, int)>
    requires Consistent(index, sequences)
  {
    if rows == [] then None
    else
      var pep := rows[|rows| - 1].sequence;
      Positions(Locate(index, sequences, pep, k), pep, LastLocated(rows[..|rows| - 1], index, sequences, k))
  }

  /** The per-site tally reads `site_columns[j]` (8 entries) and both windows
      at every `j < 2*sites`. */
  predicate TallyFails(nWindow: string, cWindow: string, sites: nat) {
    sites > 4 || |nWindow| < 2 * sites || |cWindow| < 2 * sites
  }

  /** One loop iteration, given where the peptide was found (`hit`): the
      windows, id and positions of the row, or the exception it raises.
      Without any located row so far the positions are unbound
      (UnboundLocalError); the tally raises IndexError. */
  function AnnotateOne(peptide: string, hit: Option<Hit>, prev: Option<(int, int)>,
                       sequences: map<string, string>, sites: nat): Result<Annotation>
    requires hit.Some? ==> hit.value.id in sequences
  {
    var positions := Positions(hit, peptide, prev);
    if positions.None? then Err("UnboundLocalError")
    else
      var start := positions.value.0;
      var end := positions.value.1;
      var truthy := hit.Some? && hit.value.id != "";
      var nWindow := if truthy then NTermWindow(sequences[hit.value.id], start, sites) else Wildcards(sites);
      var cWindow := if truthy then CTermWindow(sequences[hit.value.id], end, sites) else Wildcards(sites);
      if TallyFails(nWindow, cWindow, sites) then Err("IndexError")
      else Ok(Annotation(nWindow, cWindow, if hit.Some? then Some(hit.value.id) else None, start, end))
  }

  function Annotated(row: PeptideRow, a: Annotation): PeptideRow {
    row.(annotation := Some(a))
  }

  /** The table `get_cleavage_sites` returns, or the exception it raises. */
  function AnnotateRows(rows: seq<PeptideRow>, index: KmerIndex, sequences: map<string, string>,
                        k: nat, sites: nat): Result<seq<PeptideRow>>
    requires Consistent(index, sequences)
  {
    if rows == [] then Ok([])
    else
      var init := rows[..|rows| - 1];
      match AnnotateRows(init, index, sequences, k, sites)
      case Err(e) => Err(e)
      case Ok(done) =>
        var row := rows[|rows| - 1];
        var hit := Locate(index, sequences, row.sequence, k);
        match AnnotateOne(row.sequence, hit, LastLocated(init, index, sequences, k), sequences, sites)
        case Err(e) => Err(e)
        case Ok(a) => Ok(done + [Annotated(row, a)])
  }

  /** `get_cleavage_sites` (kmer.py): locate every peptide through its first
      k characters and cut its two windows. */
  method GetCleavageSites(rows: seq<PeptideRow>, index: KmerIndex, sequences: map<string, string>,
                          k: nat, sites: nat) returns (r: Result<seq<PeptideRow>>)
    requires Consistent(index, sequences)
    ensures r == AnnotateRows(rows, index, sequences, k, sites)
  {
    var out: seq<PeptideRow> := [];
    var positions: Option<(int, int)> := None;
    assert rows[..0] == [];
    for j := 0 to |rows|
      invariant AnnotateRows(rows[..j], index, sequences, k, sites) == Ok(out)
      invariant positions == LastLocated(rows[..j], index, sequences, k)
    {
      var peptide := rows[j].sequence;
      var matched := LocatePeptide(index, sequences, peptide, k);
      var annotation := AnnotatePeptide(peptide, matched, positions, sequences, sites);
      AnnotateRowsSnoc(rows, j, index, sequences, k, sites, matched, positions, out, annotation);
      LastLocatedSnoc(rows, j, index, sequences, k);
      positions := Positions(matched, peptide, positions);
      if annotation.Err? {
        ErrorStops(rows, j + 1, index, sequences, k, sites);
        return Err(annotation.msg);
      }
      out := out + [Annotated(rows[j], annotation.value)];
    }
    assert rows[..|rows|] == rows;
    r := Ok(out);
  }

  /** The loop body for one located (or unmatched) peptide; `prev` holds the
      positions left from earlier rows. */
  method AnnotatePeptide(peptide: string, matched: Option<Hit>, prev: Option<(int, int)>,
                         sequences: map<string, string>, sites: nat)
      returns (annotation: Result<Annotation>)
    requires matched.Some? ==> matched.value.id in sequences
    ensures annotation == AnnotateOne(peptide, matched, prev, sequences, sites)
  {
    var positions := prev;
    if matched.Some? {
      positions := Some((matched.value.offset, matched.value.offset + |peptide|));
    }
    if positions.None? {
      return Err("UnboundLocalError");
    }
    var start, end := positions.value.0, positions.value.1;
    var nWindow, cWindow := Wildcards(sites), Wildcards(sites);
    if matched.Some? && matched.value.id != "" {
      var protein := sequences[matched.value.id];
      nWindow := NTermWindow(protein, start, sites);
      cWindow := CTermWindow(protein, end, sites);
    }
    if sites > 4 || |nWindow| < 2 * sites || |cWindow| < 2 * sites {
      return Err("IndexError");
    }
    var id := if matched.Some? then Some(matched.value.id) else None;
    annotation := Ok(Annotation(nWindow, cWindow, id, start, end));
  }

  /** The candidate loop: the first occurrence of the peptide's prefix at
      which the whole peptide matches, found by a search that stops there. */
  method LocatePeptide(index: KmerIndex, sequences: map<string, string>, peptide: string, k: nat)
      returns (matched: Option<Hit>)
    requires Consistent(index, sequences)
    ensures matched == Locate(index, sequences, peptide, k)
  {
    var cands := Candidates(index, peptide, k);
    matched := None;
    var c := 0;
    while c < |cands|
      invariant 0 <= c <= |cands|
      invariant forall i :: 0 <= i < c ==> !Verified(sequences, cands[i], peptide)
    {
      if Verified(sequences, cands[c], peptide) {
        FirstVerifiedAt(cands, sequences, peptide, c);
        matched := Some(cands[c]);
        break;
      }
      c := c + 1;
    }
  }

  /** One more row: the recursion of `LastLocated` at `rows[..j + 1]`. */
  lemma LastLocatedSnoc(rows: seq<PeptideRow>, j: nat, index: KmerIndex, sequences: map<string, string>, k: nat)
    requires Consistent(index, sequences) && j < |rows|
    ensures LastLocated(rows[..j + 1], index, sequences, k)
              == Positions(Locate(index, sequences, rows[j].sequence, k), rows[j].sequence,
                           LastLocated(rows[..j], index, sequences, k))
  {
    var r := rows[..j + 1];
    assert r[..|r| - 1] == rows[..j];
    assert r[|r| - 1] == rows[j];
  }

  /** One more row: the recursion of `AnnotateRows` at `rows[..j + 1]`. */
  lemma AnnotateRowsSnoc(rows: seq<PeptideRow>, j: nat, index: KmerIndex, sequences: map<string, string>,
                         k: nat, sites: nat, hit: Option<Hit>, prev: Option<(int, int)>, done: seq<PeptideRow>,
                         a: Result<Annotation>)
    requires Consistent(index, sequences) && j < |rows|
    requires hit == Locate(index, sequences, rows[j].sequence, k)
    requires prev == LastLocated(rows[..j], index, sequences, k)
    requires AnnotateRows(rows[..j], index, sequences, k, sites) == Ok(done)
    requires a == AnnotateOne(rows[j].sequence, hit, prev, sequences, sites)
    ensures a.Err? ==> AnnotateRows(rows[..j + 1], index, sequences, k, sites) == Err(a.msg)
    ensures a.Ok? ==> AnnotateRows(rows[..j + 1], index, sequences, k, sites) == Ok(done + [Annotated(rows[j], a.value)])
  {
    var r := rows[..j + 1];
    assert r[..|r| - 1] == rows[..j];
    assert r[|r| - 1] == rows[j];
    if a.Err? {
      assert AnnotateRows(r, index, sequences, k, sites) == Err(a.msg);
    } else {
      assert AnnotateRows(r, index, sequences, k, sites) == Ok(done + [Annotated(rows[j], a.value)]);
    }
  }

  /** An exception raised at some row ends the whole call with it. */
  lemma {:induction false} ErrorStops(rows: seq<PeptideRow>, j: nat, index: KmerIndex,
                                      sequences: map<string, string>, k: nat, sites: nat)
    requires Consistent(index, sequences)
    requires j <= |rows| && AnnotateRows(rows[..j], index, sequences, k, sites).Err?
    ensures AnnotateRows(rows, index, sequences, k, sites) == AnnotateRows(rows[..j], index, sequences, k, sites)
  {
    if j < |rows| {
      var init := rows[..|rows| - 1];
      assert init[..j] == rows[..j];
      ErrorStops(init, j, index, sequences, k, sites);
    } else {
      assert rows[..j] == rows;
    }
  }

  // ----- properties of get_cleavage_sites -----

  /** `protein_id` of a row: the id of the located protein, or NaN. */
  function LocatedId(hit: Option<Hit>): Option<string> {
    match hit
    case Some(h) => Some(h.id)
    case None => None
  }

  /** On success the table keeps its rows, in order ... */
  lemma {:induction false} AnnotatedRowsLength(rows: seq<PeptideRow>, index: KmerIndex,
                                               sequences: map<string, string>, k: nat, sites: nat)
    requires Consistent(index, sequences)
    requires AnnotateRows(rows, index, sequences, k, sites).Ok?
    ensures |AnnotateRows(rows, index, sequences, k, sites).value| == |rows|
  {
    if rows != [] {
      AnnotatedRowsLength(rows[..|rows| - 1], index, sequences, k, sites);
    }
  }

  /** `row` is `source` with its sequence and intensity, the protein id of
      `hit`, the positions `located` and two windows of 2*sites residues
      (all X when the peptide was not found). */
  predicate AnnotatedAs(row: PeptideRow, source: PeptideRow, hit: Option<Hit>, located: Option<(int, int)>, sites: nat) {
    && row.sequence == source.sequence
    && row.intensity == source.intensity
    && row.annotation.Some?
    && row.annotation.value.proteinId == LocatedId(hit)
    && Some((row.annotation.value.nTermPosition, row.annotation.value.cTermPosition)) == located
    && |row.annotation.value.nTermWindow| == 2 * sites
    && |row.annotation.value.cTermWindow| == 2 * sites
    && (hit.None? ==> row.annotation.value.nTermWindow == Wildcards(sites)
                      && row.annotation.value.cTermWindow == Wildcards(sites))
  }

  /** ... and gives each one its protein id, the positions of the last
      located peptide, and two windows of 2*sites residues (all X for an
      unmatched peptide). */
  lemma AnnotatedRow(rows: seq<PeptideRow>, j: nat, index: KmerIndex,
                     sequences: map<string, string>, k: nat, sites: nat)
    requires Consistent(index, sequences)
    requires AnnotateRows(rows, index, sequences, k, sites).Ok? && j < |rows|
    ensures |AnnotateRows(rows, index, sequences, k, sites).value| == |rows|
    ensures AnnotatedAs(AnnotateRows(rows, index, sequences, k, sites).value[j], rows[j],
                        Locate(index, sequences, rows[j].sequence, k),
                        LastLocated(rows[..j + 1], index, sequences, k), sites)
  {
    AnnotatedRowsLength(rows, index, sequences, k, sites);
    var pre := rows[..j + 1];
    AnnotateRowsPrefix(rows, j + 1, index, sequences, k, sites);
    AnnotatedLastRow(pre, index, sequences, k, sites);
    assert pre[j] == rows[j];
  }

  /** A successful table's first `n` rows are the table of the first `n` rows. */
  lemma {:induction false} AnnotateRowsPrefix(rows: seq<PeptideRow>, n: nat, index: KmerIndex,
                                              sequences: map<string, string>, k: nat, sites: nat)
    requires Consistent(index, sequences)
    requires AnnotateRows(rows, index, sequences, k, sites).Ok? && n <= |rows|
    ensures AnnotateRows(rows[..n], index, sequences, k, sites).Ok?
    ensures |AnnotateRows(rows, index, sequences, k, sites).value| == |rows|
    ensures AnnotateRows(rows[..n], index, sequences, k, sites).value
              == AnnotateRows(rows, index, sequences, k, sites).value[..n]
  {
    AnnotatedRowsLength(rows, index, sequences, k, sites);
    if n < |rows| {
      var init := rows[..|rows| - 1];
      AnnotateRowsLast(rows, index, sequences, k, sites);
      AnnotatedRowsLength(init, index, sequences, k, sites);
      AnnotateRowsPrefix(init, n, index, sequences, k, sites);
      assert init[..n] == rows[..n];
      var done := AnnotateRows(init, index, sequences, k, sites).value;
      var out := AnnotateRows(rows, index, sequences, k, sites).value;
      assert out[..n] == done[..n];
    } else {
      assert rows[..n] == rows;
    }
  }

  /** The last row of a successful table. */
  lemma AnnotatedLastRow(rows: seq<PeptideRow>, index: KmerIndex, sequences: map<string, string>, k: nat, sites: nat)
    requires Consistent(index, sequences)
    requires AnnotateRows(rows, index, sequences, k, sites).Ok? && rows != []
    ensures |AnnotateRows(rows, index, sequences, k, sites).value| == |rows|
    ensures AnnotatedAs(AnnotateRows(rows, index, sequences, k, sites).value[|rows| - 1], rows[|rows| - 1],
                        Locate(index, sequences, rows[|rows| - 1].sequence, k),
                        LastLocated(rows, index, sequences, k), sites)
  {
    var j := |rows| - 1;
    AnnotatedRowsLength(rows, index, sequences, k, sites);
    var init := rows[..j];
    var last := rows[j];
    var hit := Locate(index, sequences, last.sequence, k);
    var prev := LastLocated(init, index, sequences, k);
    AnnotateRowsLast(rows, index, sequences, k, sites);
    AnnotatedRowsLength(init, index, sequences, k, sites);
    var out := AnnotateRows(rows, index, sequences, k, sites).value;
    var a := AnnotateOne(last.sequence, hit, prev, sequences, sites);
    AnnotateOneOk(last.sequence, hit, prev, sequences, sites);
    assert out[j] == Annotated(last, a.value);
    LastLocatedSnoc(rows, j, index, sequences, k);
    assert rows[..j + 1] == rows;
  }

  /** A successful table is the table of all but the last row, followed by
      the last row's annotation. */
  lemma AnnotateRowsLast(rows: seq<PeptideRow>, index: KmerIndex, sequences: map<string, string>,
                         k: nat, sites: nat)
    requires Consistent(index, sequences)
    requires rows != [] && AnnotateRows(rows, index, sequences, k, sites).Ok?
    ensures var init := rows[..|rows| - 1];
            var last := rows[|rows| - 1];
            var a := AnnotateOne(last.sequence, Locate(index, sequences, last.sequence, k),
                                 LastLocated(init, index, sequences, k), sequences, sites);
            && AnnotateRows(init, index, sequences, k, sites).Ok?
            && a.Ok?
            && AnnotateRows(rows, index, sequences, k, sites).value
                 == AnnotateRows(init, index, sequences, k, sites).value + [Annotated(last, a.value)]
  {
  }

  lemma AnnotateRowsStepErr(rows: seq<PeptideRow>, index: KmerIndex, sequences: map<string, string>,
                            k: nat, sites: nat)
    requires Consistent(index, sequences) && rows != []
    ensures var init := rows[..|rows| - 1];
            var last := rows[|rows| - 1];
            AnnotateRows(rows, index, sequences, k, sites).Err? <==>
              AnnotateRows(init, index, sequences, k, sites).Err?
              || AnnotateOne(last.sequence, Locate(index, sequences, last.sequence, k),
                             LastLocated(init, index, sequences, k), sequences, sites).Err?
  {
  }

  /** A successful iteration records the located id, the current positions
      and two windows of 2*sites residues, all X when nothing was located. */
  lemma AnnotateOneOk(peptide: string, hit: Option<Hit>, prev: Option<(int, int)>,
                      sequences: map<string, string>, sites: nat)
    requires hit.Some? ==> hit.value.id in sequences
    requires AnnotateOne(peptide, hit, prev, sequences, sites).Ok?
    ensures var a := AnnotateOne(peptide, hit, prev, sequences, sites).value;
            && a.proteinId == LocatedId(hit)
            && Some((a.nTermPosition, a.cTermPosition)) == Positions(hit, peptide, prev)
            && |a.nTermWindow| == 2 * sites && |a.cTermWindow| == 2 * sites
            && (hit.None? ==> a.nTermWindow == Wildcards(sites) && a.cTermWindow == Wildcards(sites))
  {
  }

  /** The located row's tally overruns a window cut from its protein. */
  predicate HitFails(peptide: string, hit: Option<Hit>, sequences: map<string, string>, sites: nat)
    requires hit.Some? ==> hit.value.id in sequences
  {
    && hit.Some? && hit.value.id != ""
    && var protein := sequences[hit.value.id];
       TallyFails(NTermWindow(protein, hit.value.offset, sites),
                  CTermWindow(protein, hit.value.offset + |peptide|, sites), sites)
  }

  predicate RowFails(peptide: string, index: KmerIndex, sequences: map<string, string>, k: nat, sites: nat)
    requires Consistent(index, sequences)
  {
    HitFails(peptide, Locate(index, sequences, peptide, k), sequences, sites)
  }

  lemma AnnotateOneErr(peptide: string, hit: Option<Hit>, prev: Option<(int, int)>,
                       sequences: map<string, string>, sites: nat)
    requires hit.Some? ==> hit.value.id in sequences
    ensures AnnotateOne(peptide, hit, prev, sequences, sites).Err? <==>
              (hit.None? && prev.None?) || sites > 4 || HitFails(peptide, hit, sequences, sites)
  {
  }

  lemma {:induction false} LastLocatedSome(rows: seq<PeptideRow>, index: KmerIndex,
                                           sequences: map<string, string>, k: nat)
    requires Consistent(index, sequences)
    requires rows != [] && Locate(index, sequences, rows[0].sequence, k).Some?
    ensures LastLocated(rows, index, sequences, k).Some?
  {
    if |rows| > 1 {
      var init := rows[..|rows| - 1];
      assert init[0] == rows[0];
      LastLocatedSome(init, index, sequences, k);
    }
  }

  /** The rows whose tally overruns one of their windows. */
  function FailingRow(index: KmerIndex, sequences: map<string, string>, k: nat, sites: nat): PeptideRow -> bool {
    (row: PeptideRow) => Consistent(index, sequences) && RowFails(row.sequence, index, sequences, k, sites)
  }

  /** `get_cleavage_sites` raises exactly when the first peptide is not
      found (UnboundLocalError), when `sites` exceeds the four positions on
      each side, or when a located peptide's window is cut short by the end
      of its protein (IndexError). */
  lemma {:induction false} AnnotateRowsFails(rows: seq<PeptideRow>, index: KmerIndex,
                                             sequences: map<string, string>, k: nat, sites: nat)
    requires Consistent(index, sequences)
    ensures AnnotateRows(rows, index, sequences, k, sites).Err? <==>
              rows != [] && (Locate(index, sequences, rows[0].sequence, k).None? || sites > 4
                             || AnyOf(FailingRow(index, sequences, k, sites), rows))
  {
    if rows != [] {
      var init := rows[..|rows| - 1];
      var last := rows[|rows| - 1];
      var hit := Locate(index, sequences, last.sequence, k);
      var prev := LastLocated(init, index, sequences, k);
      AnnotateRowsFails(init, index, sequences, k, sites);
      AnnotateOneErr(last.sequence, hit, prev, sequences, sites);
      AnnotateRowsStepErr(rows, index, sequences, k, sites);
      assert AnyOf(FailingRow(index, sequences, k, sites), rows) <==>
               AnyOf(FailingRow(index, sequences, k, sites), init) || HitFails(last.sequence, hit, sequences, sites);
      if init == [] {
        assert rows[0] == last;
      } else {
        assert init[0] == rows[0];
        if AnnotateRows(init, index, sequences, k, sites).Ok? {
          LastLocatedSome(init, index, sequences, k);
        }
      }
    }
  }

  /** A peptide at [start, end) with at least `sites` residues gets windows
      of exactly 2*sites residues centred on its two ends, or all X where
      the window would cross the protein's ends. */
  lemma CentredWindows(protein: string, start: int, end: int, sites: nat)
    requires 0 <= start && start + sites <= end <= |protein|
    ensures start >= sites ==> NTermWindow(protein, start, sites) == protein[start - sites..start + sites]
    ensures start < sites ==> NTermWindow(protein, start, sites) == Wildcards(sites)
    ensures end + sites < |protein| ==> CTermWindow(protein, end, sites) == protein[end - sites..end + sites]
    ensures end + sites >= |protein| ==> CTermWindow(protein, end, sites) == Wildcards(sites)
    ensures |NTermWindow(protein, start, sites)| == 2 * sites && |CTermWindow(protein, end, sites)| == 2 * sites
  {
  }

  /** With `sites <= 4` and peptides of at least `max(1, sites)` residues,
      the only exception left is an unmatched first peptide. */
  lemma NoIndexError(rows: seq<PeptideRow>, index: KmerIndex, sequences: map<string, string>, k: nat, sites: nat)
    requires Consistent(index, sequences) && sites <= 4
    requires forall j :: 0 <= j < |rows| ==> |rows[j].sequence| >= 1 && |rows[j].sequence| >= sites
    ensures AnnotateRows(rows, index, sequences, k, sites).Err? <==>
              rows != [] && Locate(index, sequences, rows[0].sequence, k).None?
  {
    AnnotateRowsFails(rows, index, sequences, k, sites);
    AnyOfExists(FailingRow(index, sequences, k, sites), rows);
    forall j | 0 <= j < |rows| ensures !FailingRow(index, sequences, k, sites)(rows[j]) {
      RowDoesNotFail(index, sequences, k, sites, rows[j]);
    }
  }

  /** A peptide at least `sites` long never makes the tally raise. */
  lemma RowDoesNotFail(index: KmerIndex, sequences: map<string, string>, k: nat, sites: nat, row: PeptideRow)
    requires Consistent(index, sequences) && sites <= 4
    requires |row.sequence| >= 1 && |row.sequence| >= sites
    ensures !FailingRow(index, sequences, k, sites)(row)
  {
    var peptide := row.sequence;
    var hit := Locate(index, sequences, peptide, k);
    if hit.Some? {
      LocatedOccurs(index, sequences, peptide, k);
      var protein := sequences[hit.value.id];
      CentredWindows(protein, hit.value.offset, hit.value.offset + |peptide|, sites);
    }
  }
}

/** The fixed data of the cleavage calculation: the amino-acid alphabet, the
    eight window positions and the standard enzymes with their cleavage
    patterns. A pattern has one list of options per window position; an
    option is a one-letter residue, `"X"` (any residue) or `"!P"` (anything
    but the residue P). */
module Constants {
  import opened Common

  type Pattern = seq<seq<string>>

  /** A row of the enzyme table: its MEROPS-style code, name and species
      (None for a missing value) and the count cells, keyed by column name
      (`"Site_P1_K"`, ...; None for NaN). */
  datatype EnzymeRow = EnzymeRow(
    code: string, enzymeName: Option<string>, species: Option<string>,
    cells: map<string, Option<real>>)

  /** The twenty amino acids in the order the `AminoAcid` literal type lists
      them; `alphabet` is the same letters joined into one string. */
  function Alphabet(): (r: string)
    ensures |r| == 20
    ensures forall i, j :: 0 <= i < j < |r| ==> r[i] != r[j]
    ensures forall i :: 0 <= i < |r| ==> 'A' <= r[i] <= 'Z' && r[i] !in "BJOUXZ"
  {
    "ARNDCEQGHILKMFPSTWYV"
  }

  predicate IsAminoAcid(c: char) {
    c in Alphabet()
  }

  /** Column names of the eight window positions, P4 .. P1 then P1' .. P4'. */
  function SiteColumns(): (r: seq<string>)
    ensures |r| == 8
    ensures forall i, j :: 0 <= i < j < |r| ==> r[i] != r[j]
    ensures r[4] == "Site_P1prime"
  {
    ["Site_P4", "Site_P3", "Site_P2", "Site_P1",
     "Site_P1prime", "Site_P2prime", "Site_P3prime", "Site_P4prime"]
  }

  const Any: seq<string> := ["X"]
  const NotProline: seq<string> := ["!P"]

  /** A pattern that allows anything except `p1` at P1 (index 3) and `p1prime`
      at P1' (index 4). */
  function CentredPattern(p1: seq<string>, p1prime: seq<string>): (r: Pattern)
    ensures |r| == 8
    ensures r[3] == p1 && r[4] == p1prime
    ensures forall i :: 0 <= i < 8 && i != 3 && i != 4 ==> r[i] == Any
  {
    [Any, Any, Any, p1, p1prime, Any, Any, Any]
  }

  /** The standard enzymes that are switched on, in dictionary order. */
  function BaseEnzymes(): (r: seq<(string, Pattern)>)
    ensures |r| == 2
    ensures r[0].0 == "leukocyte elastase" && r[1].0 == "Trypsin"
    ensures r[0].1 == CentredPattern(["A", "L", "I", "V"], NotProline)
    ensures r[1].1 == CentredPattern(["K", "R"], NotProline)
    ensures forall i :: 0 <= i < |r| ==> |r[i].1| == 8
  {
    [("leukocyte elastase", CentredPattern(["A", "L", "I", "V"], NotProline)),
     ("Trypsin", CentredPattern(["K", "R"], NotProline))]
  }
}

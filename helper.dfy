/** Pattern helpers: three-letter to one-letter amino-acid codes, and the
    expansion of a cleavage pattern into every concrete string it allows. */
module Helper {
  import opened Common
  import opened Constants

  /** The `three_to_one` dictionary, as its (code, letter) entries in order. */
  function ThreeToOne(): (r: seq<(string, char)>)
    ensures |r| == 20
    ensures forall i :: 0 <= i < |r| ==> r[i].1 == Alphabet()[i]
  {
    [("Ala", 'A'), ("Arg", 'R'), ("Asn", 'N'), ("Asp", 'D'), ("Cys", 'C'),
     ("Glu", 'E'), ("Gln", 'Q'), ("Gly", 'G'), ("His", 'H'), ("Ile", 'I'),
     ("Leu", 'L'), ("Lys", 'K'), ("Met", 'M'), ("Phe", 'F'), ("Pro", 'P'),
     ("Ser", 'S'), ("Thr", 'T'), ("Trp", 'W'), ("Tyr", 'Y'), ("Val", 'V')]
  }

  /** `dict.get(key)`: the letter of the entry whose code is `key`, if any. */
  function Lookup(table: seq<(string, char)>, key: string): (r: Option<char>)
    ensures r.None? <==> forall i :: 0 <= i < |table| ==> table[i].0 != key
    ensures r.Some? ==> exists i :: 0 <= i < |table| && table[i] == (key, r.value)
  {
    if table == [] then None
    else if table[0].0 == key then Some(table[0].1)
    else
      var r := Lookup(table[1..], key);
      assert r.Some? ==> exists i :: 0 <= i < |table| && table[i] == (key, r.value) by {
        if r.Some? {
          var i :| 0 <= i < |table[1..]| && table[1..][i] == (key, r.value);
          assert table[i + 1] == (key, r.value);
        }
      }
      r
  }

  /** Python's `str.capitalize()` on ASCII text: first letter upper case, the rest lower case. */
  function Capitalize(s: string): (r: string)
    ensures |r| == |s|
  {
    if s == [] then [] else [UpperChar(s[0])] + Lower(s[1..])
  }

  /** `convert_3to1`: `None` and unknown codes give 'X'; the lookup ignores case. */
  function Convert3To1(aa3: Option<string>): (r: char)
    ensures aa3.None? ==> r == 'X'
    ensures r == 'X' || IsAminoAcid(r)
    ensures aa3.Some? ==> (r != 'X' <==> exists i :: 0 <= i < 20 && ThreeToOne()[i].0 == Capitalize(aa3.value))
  {
    match aa3
    case None => 'X'
    case Some(s) =>
      match Lookup(ThreeToOne(), Capitalize(s))
      case Some(c) =>
        assert c in Alphabet();
        assert c != 'X';
        c
      case None => 'X'
  }

  /** The twenty codes are distinct, so the letters, which are the alphabet
      in order, correspond to them one-to-one. */
  lemma ThreeToOneIsOneToOne()
    ensures forall i, j :: 0 <= i < j < 20 ==> ThreeToOne()[i].0 != ThreeToOne()[j].0
    ensures forall i, j :: 0 <= i < j < 20 ==> ThreeToOne()[i].1 != ThreeToOne()[j].1
  {
    var t := ThreeToOne();
    forall i, j | 0 <= i < j < 20 ensures t[i].0 != t[j].0 {
      assert t[i].0[0] != t[j].0[0] || t[i].0[1] != t[j].0[1] || t[i].0[2] != t[j].0[2];
    }
  }

  lemma UpperIgnoresCase(c: char, d: char)
    requires LowerChar(c) == LowerChar(d)
    ensures UpperChar(c) == UpperChar(d)
  {
  }

  /** Two spellings that differ only in letter case capitalize alike. */
  lemma {:induction false} CapitalizeIgnoresCase(s: string, t: string)
    requires Lower(s) == Lower(t)
    ensures Capitalize(s) == Capitalize(t)
  {
    if s != [] {
      assert LowerChar(s[0]) == Lower(s)[0] == Lower(t)[0] == LowerChar(t[0]);
      UpperIgnoresCase(s[0], t[0]);
      assert Lower(s[1..]) == Lower(s)[1..] == Lower(t)[1..] == Lower(t[1..]);
    }
  }

  predicate IsCapitalized(code: string) {
    |code| == 3 && 'A' <= code[0] <= 'Z' && 'a' <= code[1] <= 'z' && 'a' <= code[2] <= 'z'
  }

  /** A code written with an upper-case first letter and lower-case rest is its own capitalization. */
  lemma CapitalizedCode(code: string)
    requires IsCapitalized(code)
    ensures Capitalize(code) == code
  {
    assert Lower(code[1..]) == code[1..];
  }

  lemma ThreeToOneCapitalized()
    ensures forall i :: 0 <= i < 20 ==> IsCapitalized(ThreeToOne()[i].0)
  {
  }

  /** With distinct codes, looking up an entry's code finds that entry's letter. */
  lemma {:induction false} LookupEntry(table: seq<(string, char)>, i: nat)
    requires i < |table|
    requires forall a, b :: 0 <= a < b < |table| ==> table[a].0 != table[b].0
    ensures Lookup(table, table[i].0) == Some(table[i].1)
  {
    if i > 0 {
      LookupEntry(table[1..], i - 1);
    }
  }

  /** Every case variant of a table code converts to that code's letter
      ("LYS", "lys" and "Lys" all give 'K'). */
  lemma CaseVariantsConvert(i: nat, s: string)
    requires i < 20
    requires Lower(s) == Lower(ThreeToOne()[i].0)
    ensures Convert3To1(Some(s)) == ThreeToOne()[i].1
  {
    var t := ThreeToOne();
    var key := t[i].0;
    CapitalizeIgnoresCase(s, key);
    ThreeToOneCapitalized();
    CapitalizedCode(key);
    ThreeToOneIsOneToOne();
    LookupEntry(t, i);
  }

  // ----- generate_pattern_strings -----

  /** An entry of a pattern: a bare string (one option) or a list of options. */
  datatype PatternItem = Text(s: string) | Choices(options: seq<string>)

  /** The option list of each position; a bare string becomes a one-element list. */
  function Expand(pattern: seq<PatternItem>): (r: seq<seq<string>>)
    ensures |r| == |pattern|
    ensures forall i :: 0 <= i < |pattern| && pattern[i].Text? ==> r[i] == [pattern[i].s]
    ensures forall i :: 0 <= i < |pattern| && pattern[i].Choices? ==> r[i] == pattern[i].options
  {
    seq(|pattern|, i requires 0 <= i < |pattern| =>
      match pattern[i] case Text(s) => [s] case Choices(o) => o)
  }

  /** The number of combinations: the product of the option-list lengths. */
  function Size(opts: seq<seq<string>>): nat {
    if opts == [] then 1 else |opts[0]| * Size(opts[1..])
  }

  /** Each option of `xs` in turn, followed by each tail in turn. */
  function Prefixed(xs: seq<string>, tails: seq<seq<string>>): (r: seq<seq<string>>)
    ensures |r| == |xs| * |tails|
    ensures forall k :: 0 <= k < |r| ==> |r[k]| >= 1 && r[k][0] in xs && r[k][1..] in tails
  {
    if xs == [] then []
    else
      var block := seq(|tails|, j requires 0 <= j < |tails| => [xs[0]] + tails[j]);
      var rest := Prefixed(xs[1..], tails);
      assert |xs| * |tails| == |tails| + (|xs| - 1) * |tails|;
      assert forall j :: 0 <= j < |block| ==> block[j][1..] == tails[j];
      block + rest
  }

  /** `itertools.product(*opts)`: every way of choosing one option per
      position, the last position varying fastest. */
  function Combos(opts: seq<seq<string>>): (r: seq<seq<string>>)
    ensures |r| == Size(opts)
    ensures forall k :: 0 <= k < |r| ==> |r[k]| == |opts| && forall i :: 0 <= i < |opts| ==> r[k][i] in opts[i]
  {
    if opts == [] then [[]]
    else
      var tails := Combos(opts[1..]);
      var r := Prefixed(opts[0], tails);
      assert forall k :: 0 <= k < |r| ==> |r[k]| == |opts| && forall i :: 0 <= i < |opts| ==> r[k][i] in opts[i] by {
        forall k | 0 <= k < |r| ensures |r[k]| == |opts| && forall i :: 0 <= i < |opts| ==> r[k][i] in opts[i] {
          var c := r[k];
          var j :| 0 <= j < |tails| && tails[j] == c[1..];
          forall i | 1 <= i < |opts| ensures c[i] in opts[i] {
            assert c[i] == tails[j][i - 1];
          }
        }
      }
      r
  }

  /** The concatenation of the chosen options (`''.join(combo)`). */
  function Join(parts: seq<string>): string {
    if parts == [] then "" else parts[0] + Join(parts[1..])
  }

  /** `generate_pattern_strings`. */
  function GeneratePatternStrings(pattern: seq<PatternItem>): (r: seq<string>)
    ensures |r| == Size(Expand(pattern))
    ensures pattern == [] ==> r == [""]
  {
    var cs := Combos(Expand(pattern));
    seq(|cs|, i requires 0 <= i < |cs| => Join(cs[i]))
  }

  /** A choice of one option index per position. */
  predicate ValidChoice(opts: seq<seq<string>>, d: seq<nat>) {
    |d| == |opts| && forall i :: 0 <= i < |d| ==> d[i] < |opts[i]|
  }

  function Pick(opts: seq<seq<string>>, d: seq<nat>): (r: seq<string>)
    requires ValidChoice(opts, d)
    ensures |r| == |opts|
  {
    seq(|opts|, i requires 0 <= i < |opts| => opts[i][d[i]])
  }

  /** The position of a choice in product order: the choice read as a
      mixed-radix number whose last digit is the least significant. */
  function Rank(opts: seq<seq<string>>, d: seq<nat>): nat
    requires ValidChoice(opts, d)
  {
    if opts == [] then 0 else d[0] * Size(opts[1..]) + Rank(opts[1..], d[1..])
  }

  lemma {:induction false} MixedRadixBound(a: nat, b: nat, n: nat, m: nat)
    requires a < n && b < m
    ensures a * m + b < n * m
    decreases n
  {
    if a + 1 < n {
      MixedRadixBound(a, b, n - 1, m);
      assert n * m == (n - 1) * m + m;
    } else {
      assert n * m == a * m + m;
    }
  }

  lemma {:induction false} PrefixedAt(xs: seq<string>, tails: seq<seq<string>>, a: nat, b: nat)
    requires a < |xs| && b < |tails|
    ensures a * |tails| + b < |Prefixed(xs, tails)|
    ensures Prefixed(xs, tails)[a * |tails| + b] == [xs[a]] + tails[b]
  {
    if a > 0 {
      PrefixedAt(xs[1..], tails, a - 1, b);
      assert a * |tails| + b == |tails| + ((a - 1) * |tails| + b);
    }
  }

  /** Every choice appears in the product, at its rank. Together with
      `|Combos(opts)| == Size(opts)` and `RankInjective` this makes the
      product the choices in `itertools.product` order, each at its own
      position. */
  lemma {:induction false} CombosAt(opts: seq<seq<string>>, d: seq<nat>)
    requires ValidChoice(opts, d)
    ensures Rank(opts, d) < Size(opts)
    ensures Combos(opts)[Rank(opts, d)] == Pick(opts, d)
  {
    if opts != [] {
      var rest, drest := opts[1..], d[1..];
      var tails := Combos(rest);
      var m := Size(rest);
      var r := Rank(rest, drest);
      assert |tails| == m;
      assert ValidChoice(rest, drest);
      CombosAt(rest, drest);
      assert Combos(opts) == Prefixed(opts[0], tails);
      PrefixedAt(opts[0], tails, d[0], r);
      MixedRadixBound(d[0], r, |opts[0]|, m);
      assert Size(opts) == |opts[0]| * m;
      assert Pick(opts, d) == [opts[0][d[0]]] + Pick(rest, drest);
    }
  }

  /** Distinct choices have distinct ranks, so with `CombosAt` each choice
      sits at a position of its own in the product. */
  lemma {:induction false} RankInjective(opts: seq<seq<string>>, d: seq<nat>, e: seq<nat>)
    requires ValidChoice(opts, d) && ValidChoice(opts, e) && d != e
    ensures Rank(opts, d) != Rank(opts, e)
  {
    var rest := opts[1..];
    var m := Size(rest);
    assert ValidChoice(rest, d[1..]) && ValidChoice(rest, e[1..]);
    CombosAt(rest, d[1..]);
    CombosAt(rest, e[1..]);
    if d[0] == e[0] {
      assert d == [d[0]] + d[1..] && e == [e[0]] + e[1..];
      RankInjective(rest, d[1..], e[1..]);
    } else if d[0] < e[0] {
      DigitOrdersRank(d[0], e[0], Rank(rest, d[1..]), Rank(rest, e[1..]), m);
    } else {
      DigitOrdersRank(e[0], d[0], Rank(rest, e[1..]), Rank(rest, d[1..]), m);
    }
  }

  /** A smaller leading digit gives a smaller mixed-radix number. */
  lemma DigitOrdersRank(a: nat, b: nat, x: nat, y: nat, m: nat)
    requires a < b && x < m
    ensures a * m + x < b * m + y
  {
    MixedRadixBound(a, x, a + 1, m);
    assert (a + 1) * m <= b * m by {
      MulMonotone(a + 1, b, m);
    }
  }

  lemma {:induction false} MulMonotone(a: nat, b: nat, m: nat)
    requires a <= b
    ensures a * m <= b * m
    decreases b - a
  {
    if a < b {
      MulMonotone(a, b - 1, m);
      assert b * m == (b - 1) * m + m;
    }
  }

  /** The pattern string at a choice's rank joins the chosen options. */
  lemma PatternStringAt(pattern: seq<PatternItem>, d: seq<nat>)
    requires ValidChoice(Expand(pattern), d)
    ensures Rank(Expand(pattern), d) < |GeneratePatternStrings(pattern)|
    ensures GeneratePatternStrings(pattern)[Rank(Expand(pattern), d)] == Join(Pick(Expand(pattern), d))
  {
    CombosAt(Expand(pattern), d);
  }
}

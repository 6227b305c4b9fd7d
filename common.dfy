/** Shared vocabulary: optional values, error results, and the few list and
    string operations that Python and pandas provide as built-ins
    (filtering, `unique`, slicing, case-insensitive `contains`, `head`). */
module Common {

  datatype Option<+T> = None | Some(value: T)

  /** A computation that either returns a value or raises; `msg` names the exception. */
  datatype Result<+T> = Ok(value: T) | Err(msg: string)

  /** The values of the present entries, in order (`Series.dropna()`). */
  function Somes<T(!new)>(s: seq<Option<T>>): (r: seq<T>)
    ensures |r| <= |s|
    ensures forall x :: x in r <==> Some(x) in s
  {
    if s == [] then []
    else (match s[0] case Some(v) => [v] case None => []) + Somes(s[1..])
  }

  /** `r` is obtained from `s` by deleting elements, keeping the order. */
  predicate IsSubseq<T(==)>(r: seq<T>, s: seq<T>)
    decreases |s|
  {
    if r == [] then true
    else if s == [] then false
    else if r[0] == s[0] then IsSubseq(r[1..], s[1..])
    else IsSubseq(r, s[1..])
  }

  /** The elements of `s` satisfying `p`, in order (a boolean mask). */
  function Filter<T(!new)>(p: T -> bool, s: seq<T>): (r: seq<T>)
    ensures |r| <= |s|
    ensures forall x :: x in r <==> x in s && p(x)
    ensures forall x :: p(x) ==> multiset(r)[x] == multiset(s)[x]
    ensures IsSubseq(r, s)
  {
    if s == [] then []
    else
      var rest := Filter(p, s[1..]);
      assert s == [s[0]] + s[1..];
      if p(s[0]) then
        assert ([s[0]] + rest)[1..] == rest;
        [s[0]] + rest
      else
        SubseqOfTail(rest, s);
        rest
  }

  lemma {:induction false} FilterAppend<T(!new)>(p: T -> bool, a: seq<T>, b: seq<T>)
    ensures Filter(p, a + b) == Filter(p, a) + Filter(p, b)
  {
    if a == [] {
      assert a + b == b;
    } else {
      var ab := a + b;
      assert ab[0] == a[0] && ab[1..] == a[1..] + b;
      FilterAppend(p, a[1..], b);
    }
  }

  lemma FilterCons<T(!new)>(p: T -> bool, x: T, s: seq<T>)
    ensures Filter(p, [x] + s) == (if p(x) then [x] else []) + Filter(p, s)
  {
    assert ([x] + s)[1..] == s;
  }

  /** Nothing passes a filter that no element satisfies. */
  lemma {:induction false} FilterNone<T(!new)>(p: T -> bool, s: seq<T>)
    requires forall i :: 0 <= i < |s| ==> !p(s[i])
    ensures Filter(p, s) == []
  {
    if s != [] {
      FilterNone(p, s[1..]);
    }
  }

  /** A filter every element passes changes nothing. */
  lemma {:induction false} FilterAll<T(!new)>(p: T -> bool, s: seq<T>)
    requires forall i :: 0 <= i < |s| ==> p(s[i])
    ensures Filter(p, s) == s
  {
    if s != [] {
      FilterAll(p, s[1..]);
      FilterCons(p, s[0], s[1..]);
      assert s == [s[0]] + s[1..];
    }
  }

  /** Filtering keeps a list free of duplicates. */
  lemma {:induction false} FilterKeepsDistinct<T(!new)>(p: T -> bool, s: seq<T>)
    requires NoDuplicates(s)
    ensures NoDuplicates(Filter(p, s))
  {
    if s != [] {
      var rest := s[1..];
      assert NoDuplicates(rest) by {
        forall i, j | 0 <= i < j < |rest| ensures rest[i] != rest[j] {
          assert rest[i] == s[i + 1] && rest[j] == s[j + 1];
        }
      }
      FilterKeepsDistinct(p, rest);
      FilterCons(p, s[0], rest);
      assert s == [s[0]] + rest;
      assert s[0] !in rest by {
        forall j | 0 <= j < |rest| ensures rest[j] != s[0] {
          assert rest[j] == s[j + 1];
        }
      }
    }
  }

  /** `r` lists elements of `s` in the order of their first occurrence there. */
  predicate InAppearanceOrder<T(==)>(r: seq<T>, s: seq<T>) {
    (forall x :: x in r ==> x in s) &&
    forall i, j :: 0 <= i < j < |r| ==> FirstIndex(s, r[i]) < FirstIndex(s, r[j])
  }

  /** Filtering keeps a list in order of first occurrence. */
  lemma {:induction false} FilterKeepsAppearanceOrder<T(!new)>(p: T -> bool, r: seq<T>, s: seq<T>)
    requires InAppearanceOrder(r, s)
    ensures InAppearanceOrder(Filter(p, r), s)
  {
    if r != [] {
      var rest := r[1..];
      AppearanceOrderTail(r, s);
      FilterKeepsAppearanceOrder(p, rest, s);
      FilterCons(p, r[0], rest);
      assert r == [r[0]] + rest;
      if p(r[0]) {
        AppearanceOrderCons(r[0], Filter(p, rest), s);
      }
    }
  }

  lemma AppearanceOrderTail<T>(r: seq<T>, s: seq<T>)
    requires r != [] && InAppearanceOrder(r, s)
    ensures InAppearanceOrder(r[1..], s)
    ensures forall y :: y in r[1..] ==> FirstIndex(s, r[0]) < FirstIndex(s, y)
  {
    var rest := r[1..];
    forall i, j | 0 <= i < j < |rest| ensures FirstIndex(s, rest[i]) < FirstIndex(s, rest[j]) {
      assert rest[i] == r[i + 1] && rest[j] == r[j + 1];
    }
    forall y | y in rest ensures FirstIndex(s, r[0]) < FirstIndex(s, y) {
      var k :| 0 <= k < |rest| && rest[k] == y;
      assert rest[k] == r[k + 1];
    }
  }

  lemma AppearanceOrderCons<T>(x: T, r: seq<T>, s: seq<T>)
    requires x in s && InAppearanceOrder(r, s)
    requires forall y :: y in r ==> FirstIndex(s, x) < FirstIndex(s, y)
    ensures InAppearanceOrder([x] + r, s)
  {
    var out := [x] + r;
    forall i, j | 0 <= i < j < |out| ensures FirstIndex(s, out[i]) < FirstIndex(s, out[j]) {
      assert out[j] == r[j - 1];
      if i > 0 {
        assert out[i] == r[i - 1];
      }
    }
  }

  lemma PrefixKeepsAppearanceOrder<T>(q: seq<T>, r: seq<T>, s: seq<T>)
    requires IsPrefix(q, r) && InAppearanceOrder(r, s)
    ensures InAppearanceOrder(q, s)
  {
    forall i, j | 0 <= i < j < |q| ensures FirstIndex(s, q[i]) < FirstIndex(s, q[j]) {
      assert q[i] == r[i] && q[j] == r[j];
    }
  }

  /** Filtering with two predicates that agree on every element gives the same list. */
  lemma {:induction false} FilterCongruent<T(!new)>(p: T -> bool, q: T -> bool, s: seq<T>)
    requires forall x :: p(x) == q(x)
    ensures Filter(p, s) == Filter(q, s)
  {
    if s != [] {
      FilterCongruent(p, q, s[1..]);
    }
  }

  lemma {:induction false} SubseqRefl<T>(s: seq<T>)
    ensures IsSubseq(s, s)
  {
    if s != [] {
      SubseqRefl(s[1..]);
    }
  }

  lemma {:induction false} SubseqOfTail<T>(r: seq<T>, s: seq<T>)
    requires s != [] && IsSubseq(r, s[1..])
    ensures IsSubseq(r, s)
    decreases |s|, 0
  {
    if r != [] && r[0] == s[0] {
      // Matching the head of s consumes r[0]; the rest of r still fits in s[1..].
      SubseqDropHead(r, s[1..]);
    }
  }

  lemma {:induction false} SubseqDropHead<T>(r: seq<T>, s: seq<T>)
    requires r != [] && IsSubseq(r, s)
    ensures IsSubseq(r[1..], s)
    decreases |s|, 1
  {
    if s != [] {
      if r[0] == s[0] {
        SubseqOfTail(r[1..], s);
      } else {
        SubseqDropHead(r, s[1..]);
        SubseqOfTail(r[1..], s);
      }
    }
  }

  lemma {:induction false} SubseqTrans<T>(a: seq<T>, b: seq<T>, c: seq<T>)
    requires IsSubseq(a, b) && IsSubseq(b, c)
    ensures IsSubseq(a, c)
    decreases |c|
  {
    if a != [] {
      if b[0] == c[0] {
        if a[0] == b[0] {
          SubseqTrans(a[1..], b[1..], c[1..]);
        } else {
          SubseqTrans(a, b[1..], c[1..]);
        }
      } else {
        SubseqTrans(a, b, c[1..]);
        SubseqOfTail(a, c);
      }
    }
  }

  /** Some element satisfies `p` (pandas `mask.any()`), checked from the back. */
  predicate AnyOf<T>(p: T -> bool, s: seq<T>) {
    s != [] && (AnyOf(p, s[..|s| - 1]) || p(s[|s| - 1]))
  }

  lemma {:induction false} AnyOfExists<T>(p: T -> bool, s: seq<T>)
    ensures AnyOf(p, s) <==> exists j :: 0 <= j < |s| && p(s[j])
  {
    if s != [] {
      var init := s[..|s| - 1];
      AnyOfExists(p, init);
      if exists j :: 0 <= j < |s| && p(s[j]) {
        var j :| 0 <= j < |s| && p(s[j]);
        if j < |init| {
          assert init[j] == s[j];
        }
      }
      if exists j :: 0 <= j < |init| && p(init[j]) {
        var j :| 0 <= j < |init| && p(init[j]);
        assert s[j] == init[j];
      }
    }
  }

  predicate NoDuplicates<T(==)>(s: seq<T>) {
    forall i, j :: 0 <= i < j < |s| ==> s[i] != s[j]
  }

  /** Position of the first occurrence of `x` in `s`. */
  function FirstIndex<T(==)>(s: seq<T>, x: T): (i: nat)
    requires x in s
    ensures i < |s| && s[i] == x
    ensures forall j :: 0 <= j < i ==> s[j] != x
  {
    if s[0] == x then 0 else 1 + FirstIndex(s[1..], x)
  }

  /** pandas `unique()` / `drop_duplicates(keep="first")`: each distinct
      value once, in order of first appearance. */
  function Unique<T(==,!new)>(s: seq<T>): (r: seq<T>)
    ensures NoDuplicates(r)
    ensures forall x :: x in r <==> x in s
    ensures IsSubseq(r, s)
    ensures forall i, j :: 0 <= i < j < |r| ==> FirstIndex(s, r[i]) < FirstIndex(s, r[j])
    decreases |s|
  {
    if s == [] then []
    else
      var init := s[..|s| - 1];
      var last := s[|s| - 1];
      var u := Unique(init);
      assert s == init + [last];
      UniqueStep(init, last, u);
      if last in u then u else u + [last]
  }

  lemma UniqueStep<T(!new)>(init: seq<T>, last: T, u: seq<T>)
    requires NoDuplicates(u)
    requires forall x :: x in u <==> x in init
    requires IsSubseq(u, init)
    requires forall i, j :: 0 <= i < j < |u| ==> FirstIndex(init, u[i]) < FirstIndex(init, u[j])
    ensures var s := init + [last];
            var r := if last in u then u else u + [last];
            && NoDuplicates(r)
            && (forall x :: x in r <==> x in s)
            && IsSubseq(r, s)
            && (forall i, j :: 0 <= i < j < |r| ==> FirstIndex(s, r[i]) < FirstIndex(s, r[j]))
  {
    var s := init + [last];
    forall x | x in init ensures FirstIndex(s, x) == FirstIndex(init, x) {
      FirstIndexAppend(init, last, x);
    }
    SubseqAppend(u, init, last);
    if last !in u {
      SubseqExtend(u, init, last);
      var r := u + [last];
      forall i, j | 0 <= i < j < |r| ensures FirstIndex(s, r[i]) < FirstIndex(s, r[j]) {
        if j == |u| {
          assert r[i] == u[i] && u[i] in init;
          assert FirstIndex(s, r[i]) < |init|;
          assert last !in init;
          assert FirstIndex(s, last) == |init|;
        } else {
          assert r[i] == u[i] && r[j] == u[j];
        }
      }
    }
  }

  lemma {:induction false} FirstIndexAppend<T>(s: seq<T>, y: T, x: T)
    requires x in s
    ensures FirstIndex(s + [y], x) == FirstIndex(s, x)
  {
    if s[0] != x {
      assert (s + [y])[1..] == s[1..] + [y];
      FirstIndexAppend(s[1..], y, x);
    }
  }

  lemma {:induction false} SubseqAppend<T>(r: seq<T>, s: seq<T>, y: T)
    requires IsSubseq(r, s)
    ensures IsSubseq(r, s + [y])
    decreases |s|
  {
    if r != [] && s != [] {
      assert (s + [y])[1..] == s[1..] + [y];
      if r[0] == s[0] {
        SubseqAppend(r[1..], s[1..], y);
      } else {
        SubseqAppend(r, s[1..], y);
      }
    }
  }

  lemma {:induction false} SubseqExtend<T>(r: seq<T>, s: seq<T>, y: T)
    requires IsSubseq(r, s)
    ensures IsSubseq(r + [y], s + [y])
    decreases |s|
  {
    if r == [] {
      assert r + [y] == [y];
      SubseqSingleton(s, y);
    } else {
      assert s != [];
      assert (s + [y])[1..] == s[1..] + [y];
      assert (r + [y])[0] == r[0];
      if r[0] == s[0] {
        assert (r + [y])[1..] == r[1..] + [y];
        SubseqExtend(r[1..], s[1..], y);
      } else {
        SubseqExtend(r, s[1..], y);
      }
    }
  }

  lemma {:induction false} SubseqSingleton<T>(s: seq<T>, y: T)
    ensures IsSubseq([y], s + [y])
    decreases |s|
  {
    if s != [] {
      assert (s + [y])[1..] == s[1..] + [y];
      if s[0] != y {
        SubseqSingleton(s[1..], y);
      } else {
        assert [y][1..] == [];
      }
    }
  }

  /** In a list without duplicates, the number of elements satisfying `p`
      is the number of distinct values satisfying it. */
  lemma DistinctFilterSize<T(!new)>(p: T -> bool, s: seq<T>)
    requires NoDuplicates(s)
    ensures |Filter(p, s)| == |set x | x in s && p(x)|
  {
    DistinctFilterCard(p, s, set x | x in s && p(x));
  }

  /** The same count, stated for any set holding exactly the elements of `s` that satisfy `p`. */
  lemma {:induction false} DistinctFilterCard<T(!new)>(p: T -> bool, s: seq<T>, elems: set<T>)
    requires NoDuplicates(s)
    requires forall x :: x in elems <==> x in s && p(x)
    ensures |Filter(p, s)| == |elems|
  {
    if s != [] {
      DistinctTail(s);
      var others := elems - {s[0]};
      OthersInTail(p, s, elems);
      DistinctFilterCard(p, s[1..], others);
      FilterHeadCount(p, s);
      RemoveOneCount(elems, s[0]);
    } else {
      assert elems == {};
    }
  }

  lemma FilterHeadCount<T(!new)>(p: T -> bool, s: seq<T>)
    requires s != []
    ensures |Filter(p, s)| == (if p(s[0]) then 1 else 0) + |Filter(p, s[1..])|
  {
    assert s == [s[0]] + s[1..];
    FilterCons(p, s[0], s[1..]);
  }

  lemma RemoveOneCount<T>(elems: set<T>, x: T)
    ensures |elems| == |elems - {x}| + (if x in elems then 1 else 0)
  {
    if x in elems {
      assert elems == (elems - {x}) + {x};
    } else {
      assert elems - {x} == elems;
    }
  }

  lemma OthersInTail<T(!new)>(p: T -> bool, s: seq<T>, elems: set<T>)
    requires s != [] && s[0] !in s[1..]
    requires forall x :: x in elems <==> x in s && p(x)
    ensures forall x :: x in elems - {s[0]} <==> x in s[1..] && p(x)
  {
    assert s == [s[0]] + s[1..];
  }

  /** A list of `n` copies of `x` (Python's `[x] * n`, `"XX" * n`). */
  function Repeat<T>(x: T, n: nat): (r: seq<T>)
    ensures |r| == n
    ensures forall i :: 0 <= i < n ==> r[i] == x
  {
    seq(n, _ => x)
  }

  /** Python's slice `s[a:b]`: negative bounds count from the end,
      out-of-range bounds are clamped, an empty range gives []. */
  function PySlice<T>(s: seq<T>, a: int, b: int): (r: seq<T>)
    ensures 0 <= a <= b <= |s| ==> r == s[a..b]
    ensures |r| <= |s|
  {
    var lo := ClampIndex(a, |s|);
    var hi := ClampIndex(b, |s|);
    if lo < hi then s[lo..hi] else []
  }

  function ClampIndex(i: int, n: nat): (r: nat)
    ensures r <= n
    ensures 0 <= i <= n ==> r == i
  {
    if i < 0 then (if n + i < 0 then 0 else n + i)
    else if i > n then n
    else i
  }

  /** pandas `head(n)`: the first `n` rows; a negative `n` drops the last `-n`. */
  function Head<T>(s: seq<T>, n: int): (r: seq<T>)
    ensures n >= 0 ==> |r| == (if n < |s| then n else |s|)
    ensures n < 0 ==> |r| == (if |s| + n < 0 then 0 else |s| + n)
    ensures IsPrefix(r, s)
  {
    var m := if n >= 0 then (if n < |s| then n else |s|)
             else (if |s| + n < 0 then 0 else |s| + n);
    s[..m]
  }

  predicate IsPrefix<T(==)>(r: seq<T>, s: seq<T>) {
    |r| <= |s| && s[..|r|] == r
  }

  lemma DistinctTail<T>(s: seq<T>)
    requires s != [] && NoDuplicates(s)
    ensures NoDuplicates(s[1..]) && s[0] !in s[1..]
  {
    var rest := s[1..];
    forall i, j | 0 <= i < j < |rest| ensures rest[i] != rest[j] {
      assert rest[i] == s[i + 1] && rest[j] == s[j + 1];
    }
    forall k | 0 <= k < |rest| ensures rest[k] != s[0] {
      assert rest[k] == s[k + 1];
    }
  }

  /** The elements of a prefix one longer. */
  lemma PrefixSnocMultiset<T>(s: seq<T>, i: nat)
    requires i < |s|
    ensures multiset(s[..i + 1]) == multiset(s[..i]) + multiset{s[i]}
  {
    assert s[..i + 1] == s[..i] + [s[i]];
  }

  lemma PrefixKeepsDistinct<T>(r: seq<T>, s: seq<T>)
    requires IsPrefix(r, s) && NoDuplicates(s)
    ensures NoDuplicates(r)
  {
    forall i, j | 0 <= i < j < |r| ensures r[i] != r[j] {
      assert r[i] == s[i] && r[j] == s[j];
    }
  }

  /** A sequence without repeats holds each element at most once. */
  lemma {:induction false} DistinctCountsOne<T>(s: seq<T>, x: T)
    requires NoDuplicates(s)
    ensures multiset(s)[x] <= 1
  {
    if s != [] {
      DistinctTail(s);
      DistinctCountsOne(s[1..], x);
      assert s == [s[0]] + s[1..];
    }
  }

  /** An element at two positions is counted at least twice. */
  lemma RepeatCountsTwo<T>(s: seq<T>, i: nat, j: nat)
    requires i < j < |s| && s[i] == s[j]
    ensures multiset(s)[s[i]] >= 2
  {
    assert s == s[..i] + [s[i]] + s[i + 1..j] + [s[j]] + s[j + 1..];
  }

  /** A permutation of a sequence without repeats has none either. */
  lemma PermutationKeepsDistinct<T>(r: seq<T>, s: seq<T>)
    requires multiset(r) == multiset(s) && NoDuplicates(s)
    ensures NoDuplicates(r)
  {
    forall i, j | 0 <= i < j < |r| ensures r[i] != r[j] {
      if r[i] == r[j] {
        RepeatCountsTwo(r, i, j);
        DistinctCountsOne(s, r[i]);
      }
    }
  }

  function LowerChar(c: char): char {
    if 'A' <= c <= 'Z' then (c as int + 32) as char else c
  }

  function UpperChar(c: char): char {
    if 'a' <= c <= 'z' then (c as int - 32) as char else c
  }

  /** ASCII lower-casing (`str.lower()` on ASCII text). */
  function Lower(s: string): (r: string)
    ensures |r| == |s|
    ensures forall i :: 0 <= i < |s| ==> r[i] == LowerChar(s[i])
  {
    seq(|s|, i requires 0 <= i < |s| => LowerChar(s[i]))
  }

  /** `needle` occurs in `hay` ignoring ASCII case. */
  predicate ContainsIgnoreCase(hay: string, needle: string) {
    exists i | 0 <= i <= |hay| - |needle| :: OccursAt(hay, needle, i)
  }

  predicate OccursAt(hay: string, needle: string, i: int)
    requires 0 <= i <= |hay| - |needle|
  {
    Lower(hay[i..i + |needle|]) == Lower(needle)
  }

  /** Apply `one` to every element in order, stopping at the first error. */
  function MapAll<S, T>(xs: seq<S>, one: S -> Result<T>): Result<seq<T>> {
    if xs == [] then Ok([])
    else
      match MapAll(xs[..|xs| - 1], one)
        case Err(e) => Err(e)
        case Ok(done) =>
          match one(xs[|xs| - 1])
            case Err(e) => Err(e)
            case Ok(d) => Ok(done + [d])
  }

  /** The results line up with the inputs; an error is some input's error. */
  lemma {:induction false} MapAllAligned<S, T>(xs: seq<S>, one: S -> Result<T>)
    ensures var r := MapAll(xs, one);
            r.Ok? ==> |r.value| == |xs| && forall i :: 0 <= i < |xs| ==> one(xs[i]) == Ok(r.value[i])
    ensures var r := MapAll(xs, one);
            r.Err? ==> exists i :: 0 <= i < |xs| && one(xs[i]) == Err(r.msg)
  {
    if xs != [] {
      var init := xs[..|xs| - 1];
      MapAllAligned(init, one);
      assert forall i :: 0 <= i < |init| ==> init[i] == xs[i];
    }
  }

  /** Once an error is reached, later elements change nothing. */
  /** One more element: its result is appended, or its error ends the map. */
  lemma MapAllSnoc<S, T>(xs: seq<S>, k: nat, one: S -> Result<T>, done: seq<T>)
    requires k < |xs| && MapAll(xs[..k], one) == Ok(done)
    ensures one(xs[k]).Ok? ==> MapAll(xs[..k + 1], one) == Ok(done + [one(xs[k]).value])
    ensures one(xs[k]).Err? ==> MapAll(xs[..k + 1], one) == Err(one(xs[k]).msg)
  {
    assert xs[..k + 1][..k] == xs[..k];
  }

  lemma {:induction false} MapAllErrPersists<S, T>(xs: seq<S>, k: nat, one: S -> Result<T>)
    requires k <= |xs| && MapAll(xs[..k], one).Err?
    ensures MapAll(xs, one) == MapAll(xs[..k], one)
    decreases |xs|
  {
    if k < |xs| {
      var init := xs[..|xs| - 1];
      assert init[..k] == xs[..k];
      MapAllErrPersists(init, k, one);
    } else {
      assert xs[..k] == xs;
    }
  }
}

/** `data.py`: the protein search of the upload backend. The same query
    appears as `getProteins` in `importing.py` and `cleavage_enrichment.py`. */
module Data {
  import opened Common

  /** `str.contains(filter, case=False)`, with the filter read literally. */
  function Mentions(filter: string): string -> bool {
    (id: string) => ContainsIgnoreCase(id, filter)
  }

  /** `getProteins`: the distinct non-null protein ids in order of first
      appearance that contain `filter` ignoring case, at most `count` of
      them (`head`). */
  function GetProteins(ids: seq<Option<string>>, filter: string, count: int): (r: seq<string>)
    ensures count >= 0 ==> |r| <= count
    ensures NoDuplicates(r)
    ensures forall x :: x in r ==> Some(x) in ids && ContainsIgnoreCase(x, filter)
  {
    var found := Filter(Mentions(filter), Unique(Somes(ids)));
    FilterKeepsDistinct(Mentions(filter), Unique(Somes(ids)));
    var head := Head(found, count);
    PrefixKeepsDistinct(head, found);
    assert forall x :: x in head ==> x in found by {
      forall x | x in head ensures x in found {
        var k :| 0 <= k < |head| && head[k] == x;
        assert found[..|head|][k] == x;
      }
    }
    head
  }

  /** Results come in the order the ids first appear in the table. */
  lemma GetProteinsOrder(ids: seq<Option<string>>, filter: string, count: int)
    ensures InAppearanceOrder(GetProteins(ids, filter, count), Somes(ids))
  {
    var present := Somes(ids);
    var found := Filter(Mentions(filter), Unique(present));
    FilterKeepsAppearanceOrder(Mentions(filter), Unique(present), present);
    PrefixKeepsAppearanceOrder(Head(found, count), found, present);
  }

  /** Only the `count` limit leaves a matching id out. */
  lemma GetProteinsComplete(ids: seq<Option<string>>, filter: string, count: int, x: string)
    requires count >= 0 && Some(x) in ids && ContainsIgnoreCase(x, filter)
    ensures x !in GetProteins(ids, filter, count) ==> |GetProteins(ids, filter, count)| == count
  {
    var found := Filter(Mentions(filter), Unique(Somes(ids)));
    assert x in found;
  }

  /** An empty filter returns the first `count` distinct ids. */
  lemma EmptyFilterKeepsAll(ids: seq<Option<string>>, count: int)
    ensures GetProteins(ids, "", count) == Head(Unique(Somes(ids)), count)
  {
    var u := Unique(Somes(ids));
    forall i | 0 <= i < |u| ensures Mentions("")(u[i]) {
      assert OccursAt(u[i], "", 0);
    }
    FilterAll(Mentions(""), u);
  }
}

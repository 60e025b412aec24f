/** Small concrete runs of the reconciliation, worked out by the verifier. */
module Scenarios {

  import opened Text
  import opened Photos
  import opened Reports
  import opened Reconciliation

  /** Both sides empty: no duplicates and nothing missing. */
  lemma EmptyRun()
    ensures Duplicates(Source, []) + Duplicates(Destination, []) == []
    ensures MissingFrom(Index([]), Index([])) == []
  {
  }

  /** A single photo gets a slot of its own and causes no duplicate. */
  lemma IndexOfOne(location: LocationType, p: Photo)
    requires HasRelativePath(p)
    ensures Index([p]) == LocationIndex(map[UniqueId(p) := p], [UniqueId(p)])
    ensures Duplicates(location, [p]) == []
  {
    assert [p][..0] == [];
  }

  /** Two copies of one file on the source side: one slot, one duplicate pair, the newer copy first. */
  lemma DuplicateOnSource(first: Photo, second: Photo)
    requires HasRelativePath(first) && HasRelativePath(second)
    requires UniqueId(first) == UniqueId(second)
    ensures |Index([first, second]).entries| == 1
    ensures Index([first, second]).entries[UniqueId(first)] == second
    ensures Duplicates(Source, [first, second]) == [Duplicate(Source, second, first)]
  {
    IndexOfOne(Source, first);
    assert [first, second][..1] == [first];
  }

  /** The same file under different roots and in different letter case has one identity. */
  lemma CaseVariantsCollide()
    ensures UniqueId(Photo(Dir("Old"), "Old/c.jpg", 50)) == UniqueId(Photo(Dir("Backup"), "Backup/C.JPG", 50))
  {
    var first := Photo(Dir("Old"), "Old/c.jpg", 50);
    var second := Photo(Dir("Backup"), "Backup/C.JPG", 50);
    assert RelativePath(first) == "/c.jpg";
    assert RelativePath(second) == "/C.JPG";
    assert Lower("/C.JPG") == "/c.jpg";
    LowerFixes("/c.jpg");
    CaseInsensitiveId(first, second);
  }

  /** Two photos of different identities each keep their own slot, in input order. */
  lemma IndexOfTwo(location: LocationType, a: Photo, b: Photo)
    requires HasRelativePath(a) && HasRelativePath(b)
    requires UniqueId(a) != UniqueId(b)
    ensures Index([a, b]).order == [UniqueId(a), UniqueId(b)]
    ensures Index([a, b]).entries[UniqueId(b)] == b
    ensures Duplicates(location, [a, b]) == []
  {
    IndexOfOne(location, a);
    assert [a, b][..1] == [a];
  }

  /**
   * Source [a, b], destination [a'] where a' matches a and b matches neither:
   * no duplicates, and only b is reported missing.
   */
  lemma OneFileMissing(a: Photo, b: Photo, a': Photo)
    requires HasRelativePath(a) && HasRelativePath(b) && HasRelativePath(a')
    requires UniqueId(a) == UniqueId(a') && UniqueId(a) != UniqueId(b)
    ensures Duplicates(Source, [a, b]) == []
    ensures MissingFrom(Index([a, b]), Index([a'])) == [b]
  {
    var ka, kb := UniqueId(a), UniqueId(b);
    IndexOfTwo(Source, a, b);
    IndexOfOne(Destination, a');
    assert Index([a']).entries.Keys == {ka};
    var keys := Except(Index([a, b]).order, Index([a']).entries.Keys);
    assert keys == [kb] by {
      assert [ka, kb][1..] == [kb] && [kb][1..] == [];
      assert Except([kb], {ka}) == [kb];
    }
    var m := MissingFrom(Index([a, b]), Index([a']));
    assert |m| == 1 && m[0] == b;
  }
}

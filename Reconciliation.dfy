/**
 * The reconciliation engine: building a per-location index keyed by photo
 * identity (reporting every collision as a duplicate), and the one-way
 * comparison that reports the source photos whose identity the destination
 * lacks.
 */
module Reconciliation {

  import opened Photos
  import opened Reports
  import opened FileFilters

  predicate AllHaveRelativePaths(ps: seq<Photo>) {
    forall i :: 0 <= i < |ps| ==> HasRelativePath(ps[i])
  }

  predicate Distinct<T(==)>(s: seq<T>) {
    forall i, j :: 0 <= i < j < |s| ==> s[i] != s[j]
  }

  /** The identities that occur in ps. */
  function Ids(ps: seq<Photo>): set<string>
    requires AllHaveRelativePaths(ps)
  {
    set i | 0 <= i < |ps| :: UniqueId(ps[i])
  }

  /**
   * A location index: the photo kept for each identity, and the identities in
   * the order they were first inserted (the dictionary's enumeration order).
   */
  datatype LocationIndex = LocationIndex(entries: map<string, Photo>, order: seq<string>)

  /** The order lists each key of the index exactly once. */
  ghost predicate WellFormed(idx: LocationIndex) {
    && (forall k :: k in idx.entries <==> k in idx.order)
    && Distinct(idx.order)
  }

  /** Every photo of the index is filed under its own identity. */
  ghost predicate FiledById(idx: LocationIndex) {
    forall k :: k in idx.entries ==> HasRelativePath(idx.entries[k]) && UniqueId(idx.entries[k]) == k
  }

  /** Files p under its identity, replacing whatever was there; a new identity goes to the end of the order. */
  function Insert(idx: LocationIndex, p: Photo): LocationIndex
    requires HasRelativePath(p)
  {
    var k := UniqueId(p);
    LocationIndex(idx.entries[k := p], if k in idx.entries then idx.order else idx.order + [k])
  }

  /** The index made by inserting the photos of ps one after another into an empty one. */
  function Index(ps: seq<Photo>): (idx: LocationIndex)
    requires AllHaveRelativePaths(ps)
    ensures WellFormed(idx)
    decreases |ps|
  {
    if ps == [] then LocationIndex(map[], [])
    else Insert(Index(ps[..|ps| - 1]), ps[|ps| - 1])
  }

  /**
   * The duplicate pairs reported while indexing ps: one for each photo whose
   * identity is already present, pairing it with the photo it displaces.
   */
  function Duplicates(location: LocationType, ps: seq<Photo>): seq<Duplicate>
    requires AllHaveRelativePaths(ps)
    decreases |ps|
  {
    if ps == [] then []
    else
      var prev := Index(ps[..|ps| - 1]).entries;
      var p := ps[|ps| - 1];
      var k := UniqueId(p);
      Duplicates(location, ps[..|ps| - 1]) + (if k in prev then [Duplicate(location, p, prev[k])] else [])
  }

  lemma {:induction false} IndexFiledById(ps: seq<Photo>)
    requires AllHaveRelativePaths(ps)
    ensures FiledById(Index(ps))
    decreases |ps|
  {
    if ps != [] {
      IndexFiledById(ps[..|ps| - 1]);
    }
  }

  /** Indexing nothing gives an empty index and no duplicates. */
  lemma EmptyInput(location: LocationType)
    ensures Index([]) == LocationIndex(map[], [])
    ensures Duplicates(location, []) == []
  {
  }

  /** The index holds exactly the identities that occur in the input. */
  lemma {:induction false} IndexKeys(ps: seq<Photo>)
    requires AllHaveRelativePaths(ps)
    ensures Index(ps).entries.Keys == Ids(ps)
    decreases |ps|
  {
    if ps != [] {
      var prefix := ps[..|ps| - 1];
      IndexKeys(prefix);
      assert Ids(ps) == Ids(prefix) + {UniqueId(ps[|ps| - 1])} by {
        forall k | k in Ids(ps) ensures k in Ids(prefix) + {UniqueId(ps[|ps| - 1])} {
          var i :| 0 <= i < |ps| && UniqueId(ps[i]) == k;
          if i < |ps| - 1 {
            assert prefix[i] == ps[i];
          }
        }
        forall k | k in Ids(prefix) ensures k in Ids(ps) {
          var i :| 0 <= i < |prefix| && UniqueId(prefix[i]) == k;
          assert ps[i] == prefix[i];
        }
      }
    }
  }

  /** The last photo of an identity wins its slot. */
  lemma {:induction false} IndexKeepsLast(ps: seq<Photo>, i: nat)
    requires AllHaveRelativePaths(ps)
    requires i < |ps|
    requires forall j :: i < j < |ps| ==> UniqueId(ps[j]) != UniqueId(ps[i])
    ensures UniqueId(ps[i]) in Index(ps).entries
    ensures Index(ps).entries[UniqueId(ps[i])] == ps[i]
    decreases |ps|
  {
    if i < |ps| - 1 {
      var prefix := ps[..|ps| - 1];
      assert prefix[i] == ps[i];
      assert forall j :: i < j < |prefix| ==> prefix[j] == ps[j];
      IndexKeepsLast(prefix, i);
    }
  }

  /** Every photo the index keeps is one of the input photos. */
  lemma {:induction false} IndexValuesFromInput(ps: seq<Photo>, k: string)
    requires AllHaveRelativePaths(ps)
    requires k in Index(ps).entries
    ensures exists j :: 0 <= j < |ps| && Index(ps).entries[k] == ps[j]
    decreases |ps|
  {
    var prefix := ps[..|ps| - 1];
    if UniqueId(ps[|ps| - 1]) != k {
      IndexValuesFromInput(prefix, k);
      var j :| 0 <= j < |prefix| && Index(prefix).entries[k] == prefix[j];
      assert ps[j] == prefix[j];
    }
  }

  /** No photo of ps strictly between positions j and i has identity k. */
  ghost predicate NoIdBetween(ps: seq<Photo>, j: int, i: int, k: string)
    requires AllHaveRelativePaths(ps)
  {
    forall l :: j < l < i && 0 <= l < |ps| ==> UniqueId(ps[l]) != k
  }

  lemma NoIdBetweenPrefix(ps: seq<Photo>, j: int, i: int, k: string)
    requires AllHaveRelativePaths(ps) && ps != [] && i <= |ps| - 1
    requires NoIdBetween(ps[..|ps| - 1], j, i, k)
    ensures NoIdBetween(ps, j, i, k)
  {
    assert forall l :: 0 <= l < |ps| - 1 ==> ps[l] == ps[..|ps| - 1][l];
  }

  /** Appending a photo of another identity keeps a stretch free of identity k. */
  lemma NoIdBetweenExtend(ps: seq<Photo>, j: int, k: string)
    requires AllHaveRelativePaths(ps) && ps != [] && UniqueId(ps[|ps| - 1]) != k
    requires NoIdBetween(ps[..|ps| - 1], j, |ps| - 1, k)
    ensures NoIdBetween(ps, j, |ps|, k)
  {
    NoIdBetweenPrefix(ps, j, |ps| - 1, k);
  }

  /** A latest photo of identity k stays latest when a photo of another identity is appended. */
  lemma LatestCarriesOver(ps: seq<Photo>, k: string, j: nat)
    requires AllHaveRelativePaths(ps) && ps != [] && UniqueId(ps[|ps| - 1]) != k
    requires k in Index(ps[..|ps| - 1]).entries
    requires j < |ps| - 1 && Index(ps[..|ps| - 1]).entries[k] == ps[..|ps| - 1][j]
    requires NoIdBetween(ps[..|ps| - 1], j, |ps| - 1, k)
    ensures k in Index(ps).entries && Index(ps).entries[k] == ps[j] && NoIdBetween(ps, j, |ps|, k)
  {
    var prefix := ps[..|ps| - 1];
    assert prefix[j] == ps[j];
    assert Index(ps).entries[k] == Index(prefix).entries[k];
    NoIdBetweenExtend(ps, j, k);
  }

  /**
   * The photo the index keeps under k is the latest input photo with identity
   * k: no later input photo has that identity.
   */
  lemma {:induction false} IndexHoldsLatest(ps: seq<Photo>, k: string)
    requires AllHaveRelativePaths(ps)
    requires k in Index(ps).entries
    ensures exists j :: 0 <= j < |ps| && Index(ps).entries[k] == ps[j] && UniqueId(ps[j]) == k
                        && NoIdBetween(ps, j, |ps|, k)
    decreases |ps|
  {
    var prefix := ps[..|ps| - 1];
    if UniqueId(ps[|ps| - 1]) != k {
      IndexHoldsLatest(prefix, k);
      var j :| 0 <= j < |prefix| && Index(prefix).entries[k] == prefix[j] && UniqueId(prefix[j]) == k
               && NoIdBetween(prefix, j, |prefix|, k);
      LatestCarriesOver(ps, k, j);
    } else {
      assert NoIdBetween(ps, |ps| - 1, |ps|, k);
    }
  }

  /** Every photo either opens a new slot or is reported as a duplicate. */
  lemma {:induction false} IndexPlusDuplicates(location: LocationType, ps: seq<Photo>)
    requires AllHaveRelativePaths(ps)
    ensures |Index(ps).entries| + |Duplicates(location, ps)| == |ps|
    decreases |ps|
  {
    if ps != [] {
      IndexPlusDuplicates(location, ps[..|ps| - 1]);
    }
  }

  /** Exactly |input| - |distinct identities| duplicate pairs are reported. */
  lemma DuplicateCount(location: LocationType, ps: seq<Photo>)
    requires AllHaveRelativePaths(ps)
    ensures |Duplicates(location, ps)| == |ps| - |Ids(ps)|
  {
    IndexPlusDuplicates(location, ps);
    IndexKeys(ps);
  }

  /**
   * The positions, in increasing order, of the photos of ps whose identity
   * already occurs earlier in ps.
   */
  function RepeatPositions(ps: seq<Photo>): (r: seq<nat>)
    requires AllHaveRelativePaths(ps)
    ensures forall n :: 0 <= n < |r| ==> r[n] < |ps|
    decreases |ps|
  {
    if ps == [] then []
    else
      var prefix := ps[..|ps| - 1];
      RepeatPositions(prefix) + (if UniqueId(ps[|ps| - 1]) in Ids(prefix) then [|ps| - 1] else [])
  }

  /** Some photo before position i has the identity of the photo at i. */
  ghost predicate SeenBefore(ps: seq<Photo>, i: int)
    requires AllHaveRelativePaths(ps)
    requires 0 <= i < |ps|
  {
    exists j :: 0 <= j < i && UniqueId(ps[j]) == UniqueId(ps[i])
  }

  lemma SeenBeforePrefix(ps: seq<Photo>, i: int)
    requires AllHaveRelativePaths(ps) && 0 <= i < |ps| - 1
    ensures SeenBefore(ps[..|ps| - 1], i) <==> SeenBefore(ps, i)
  {
    assert forall j :: 0 <= j <= i ==> ps[..|ps| - 1][j] == ps[j];
  }

  lemma SeenBeforeLast(ps: seq<Photo>)
    requires AllHaveRelativePaths(ps) && ps != []
    ensures SeenBefore(ps, |ps| - 1) <==> UniqueId(ps[|ps| - 1]) in Ids(ps[..|ps| - 1])
  {
    var prefix := ps[..|ps| - 1];
    if SeenBefore(ps, |ps| - 1) {
      var j :| 0 <= j < |ps| - 1 && UniqueId(ps[j]) == UniqueId(ps[|ps| - 1]);
      assert prefix[j] == ps[j];
    }
    if UniqueId(ps[|ps| - 1]) in Ids(prefix) {
      var j :| 0 <= j < |prefix| && UniqueId(prefix[j]) == UniqueId(ps[|ps| - 1]);
      assert prefix[j] == ps[j];
    }
  }

  /**
   * RepeatPositions lists, in increasing order, exactly the positions whose
   * photo has an identity that occurs earlier in ps.
   */
  lemma {:induction false} RepeatPositionsSpec(ps: seq<Photo>)
    requires AllHaveRelativePaths(ps)
    ensures forall n :: 0 <= n < |RepeatPositions(ps)| ==> SeenBefore(ps, RepeatPositions(ps)[n])
    ensures forall m, n :: 0 <= m < n < |RepeatPositions(ps)| ==> RepeatPositions(ps)[m] < RepeatPositions(ps)[n]
    ensures forall i :: 0 <= i < |ps| && SeenBefore(ps, i) ==> i in RepeatPositions(ps)
    decreases |ps|
  {
    if ps != [] {
      var prefix := ps[..|ps| - 1];
      var rp := RepeatPositions(prefix);
      var tail := if UniqueId(ps[|ps| - 1]) in Ids(prefix) then [|ps| - 1] else [];
      assert RepeatPositions(ps) == rp + tail;
      RepeatPositionsSpec(prefix);
      SeenBeforeLast(ps);
      forall n | 0 <= n < |rp| ensures SeenBefore(ps, rp[n]) {
        assert rp[n] < |prefix| && SeenBefore(prefix, rp[n]);
        SeenBeforePrefix(ps, rp[n]);
      }
      forall i | 0 <= i < |ps| && SeenBefore(ps, i) ensures i in rp + tail {
        if i < |prefix| {
          SeenBeforePrefix(ps, i);
        }
      }
    }
  }

  /**
   * The pairs come in call order: the n-th pair's first photo is the photo at
   * the n-th repeat position.
   */
  lemma {:induction false} DuplicateOrder(location: LocationType, ps: seq<Photo>)
    requires AllHaveRelativePaths(ps)
    ensures |Duplicates(location, ps)| == |RepeatPositions(ps)|
    ensures forall n :: 0 <= n < |Duplicates(location, ps)| ==>
              Duplicates(location, ps)[n].photo1 == ps[RepeatPositions(ps)[n]]
    decreases |ps|
  {
    if ps != [] {
      var prefix := ps[..|ps| - 1];
      var last := ps[|ps| - 1];
      DuplicateOrder(location, prefix);
      IndexKeys(prefix);
      var d, r := Duplicates(location, prefix), RepeatPositions(prefix);
      assert forall n :: 0 <= n < |r| ==> d[n].photo1 == ps[r[n]] by {
        assert forall n :: 0 <= n < |r| ==> prefix[r[n]] == ps[r[n]];
      }
      if UniqueId(last) in Ids(prefix) {
        var pair := Duplicate(location, last, Index(prefix).entries[UniqueId(last)]);
        assert Duplicates(location, ps) == d + [pair];
        assert RepeatPositions(ps) == r + [|ps| - 1];
      } else {
        assert Duplicates(location, ps) == d;
        assert RepeatPositions(ps) == r;
      }
    }
  }

  /**
   * d pairs, for location, a later photo of ps first with the photo it
   * displaces second: the latest earlier photo of the same identity.
   */
  ghost predicate IsDuplicateIn(d: Duplicate, location: LocationType, ps: seq<Photo>)
    requires AllHaveRelativePaths(ps)
  {
    && d.location == location
    && exists i, j :: 0 <= j < i < |ps| && d.photo1 == ps[i] && d.photo2 == ps[j]
                                       && UniqueId(ps[i]) == UniqueId(ps[j])
                                       && NoIdBetween(ps, j, i, UniqueId(ps[i]))
  }

  lemma DuplicateInPrefix(d: Duplicate, location: LocationType, ps: seq<Photo>)
    requires AllHaveRelativePaths(ps) && ps != []
    requires IsDuplicateIn(d, location, ps[..|ps| - 1])
    ensures IsDuplicateIn(d, location, ps)
  {
    var prefix := ps[..|ps| - 1];
    var i, j :| 0 <= j < i < |prefix| && d.photo1 == prefix[i] && d.photo2 == prefix[j]
                                       && UniqueId(prefix[i]) == UniqueId(prefix[j])
                                       && NoIdBetween(prefix, j, i, UniqueId(prefix[i]));
    assert ps[i] == prefix[i] && ps[j] == prefix[j];
    NoIdBetweenPrefix(ps, j, i, UniqueId(ps[i]));
  }

  lemma DuplicateOfLast(location: LocationType, ps: seq<Photo>)
    requires AllHaveRelativePaths(ps) && ps != []
    requires UniqueId(ps[|ps| - 1]) in Index(ps[..|ps| - 1]).entries
    ensures IsDuplicateIn(Duplicate(location, ps[|ps| - 1], Index(ps[..|ps| - 1]).entries[UniqueId(ps[|ps| - 1])]),
                          location, ps)
  {
    var prefix := ps[..|ps| - 1];
    var k := UniqueId(ps[|ps| - 1]);
    IndexHoldsLatest(prefix, k);
    var j :| 0 <= j < |prefix| && Index(prefix).entries[k] == prefix[j] && UniqueId(prefix[j]) == k
             && NoIdBetween(prefix, j, |prefix|, k);
    assert ps[j] == prefix[j];
    NoIdBetweenPrefix(ps, j, |prefix|, k);
  }

  /**
   * Each reported pair carries the location, a later photo first and the photo
   * it displaces second: the latest earlier photo of the same identity.
   */
  lemma {:induction false} DuplicateShape(location: LocationType, ps: seq<Photo>, n: nat)
    requires AllHaveRelativePaths(ps)
    requires n < |Duplicates(location, ps)|
    ensures IsDuplicateIn(Duplicates(location, ps)[n], location, ps)
    decreases |ps|
  {
    var prefix := ps[..|ps| - 1];
    if n < |Duplicates(location, prefix)| {
      assert Duplicates(location, ps)[n] == Duplicates(location, prefix)[n];
      DuplicateShape(location, prefix, n);
      DuplicateInPrefix(Duplicates(location, ps)[n], location, ps);
    } else {
      DuplicateOfLast(location, ps);
    }
  }

  /**
   * Set difference as LINQ's Except computes it: the elements of first, in
   * order and each once, that are not in seen; seen grows by each element yielded.
   */
  function Except(first: seq<string>, seen: set<string>): (r: seq<string>)
    ensures forall k :: k in r <==> k in first && k !in seen
    ensures Distinct(r)
    decreases |first|
  {
    if first == [] then []
    else if first[0] in seen then Except(first[1..], seen)
    else [first[0]] + Except(first[1..], seen + {first[0]})
  }

  /** The elements of ks that are not in s, in the order of ks. */
  function KeepAbsent(ks: seq<string>, s: set<string>): seq<string> {
    if ks == [] then [] else (if ks[0] in s then [] else [ks[0]]) + KeepAbsent(ks[1..], s)
  }

  lemma {:induction false} KeepAbsentIgnoresOthers(ks: seq<string>, s: set<string>, x: string)
    requires x !in ks
    ensures KeepAbsent(ks, s + {x}) == KeepAbsent(ks, s)
    decreases |ks|
  {
    if ks != [] {
      KeepAbsentIgnoresOthers(ks[1..], s, x);
    }
  }

  /** On a list without repetitions, Except is a plain order-preserving filter. */
  lemma {:induction false} ExceptOfDistinct(ks: seq<string>, s: set<string>)
    requires Distinct(ks)
    ensures Except(ks, s) == KeepAbsent(ks, s)
    decreases |ks|
  {
    if ks != [] {
      assert Distinct(ks[1..]) && ks[0] !in ks[1..];
      ExceptOfDistinct(ks[1..], s);
      ExceptOfDistinct(ks[1..], s + {ks[0]});
      KeepAbsentIgnoresOthers(ks[1..], s, ks[0]);
    }
  }

  /**
   * The photos reported missing: for each identity of the old index absent from
   * the new one, in the old index's order, the photo the old index keeps.
   */
  function MissingFrom(oldIndex: LocationIndex, newIndex: LocationIndex): seq<Photo>
    requires WellFormed(oldIndex)
  {
    var keys := Except(oldIndex.order, newIndex.entries.Keys);
    seq(|keys|, i requires 0 <= i < |keys| => oldIndex.entries[keys[i]])
  }

  /**
   * The missing photos come in the order of the old index's keys: they are the
   * photos filed under the old keys that the new index lacks, kept in order.
   */
  lemma MissingInKeyOrder(source: seq<Photo>, destination: seq<Photo>)
    requires AllHaveRelativePaths(source) && AllHaveRelativePaths(destination)
    ensures var ks := KeepAbsent(Index(source).order, Index(destination).entries.Keys);
            var m := MissingFrom(Index(source), Index(destination));
            && |m| == |ks|
            && forall i :: 0 <= i < |m| ==> ks[i] in Index(source).entries && m[i] == Index(source).entries[ks[i]]
  {
    ExceptOfDistinct(Index(source).order, Index(destination).entries.Keys);
  }

  lemma {:induction false} DistinctCard<T>(s: seq<T>)
    requires Distinct(s)
    ensures |set x | x in s| == |s|
    decreases |s|
  {
    if s != [] {
      var t := s[1..];
      assert Distinct(t);
      DistinctCard(t);
      assert (set x | x in s) == (set x | x in t) + {s[0]};
    }
  }

  /** The i-th missing photo is the one the old index files under the i-th key Except yields. */
  lemma MissingAt(oldIndex: LocationIndex, newIndex: LocationIndex, i: nat)
    requires WellFormed(oldIndex)
    requires i < |MissingFrom(oldIndex, newIndex)|
    ensures var keys := Except(oldIndex.order, newIndex.entries.Keys);
            && i < |keys|
            && keys[i] in oldIndex.entries && keys[i] !in newIndex.entries
            && MissingFrom(oldIndex, newIndex)[i] == oldIndex.entries[keys[i]]
  {
  }

  /**
   * Every missing photo is the photo the source kept for an identity that the
   * destination lacks.
   */
  lemma MissingSound(source: seq<Photo>, destination: seq<Photo>, i: nat)
    requires AllHaveRelativePaths(source) && AllHaveRelativePaths(destination)
    requires i < |MissingFrom(Index(source), Index(destination))|
    ensures var p := MissingFrom(Index(source), Index(destination))[i];
            && HasRelativePath(p)
            && UniqueId(p) in Ids(source) && UniqueId(p) !in Ids(destination)
            && UniqueId(p) in Index(source).entries && p == Index(source).entries[UniqueId(p)]
  {
    IndexKeys(source);
    IndexKeys(destination);
    IndexFiledById(source);
    MissingAt(Index(source), Index(destination), i);
  }

  /** Every identity of the source that the destination lacks is reported. */
  lemma MissingComplete(source: seq<Photo>, destination: seq<Photo>, k: string)
    requires AllHaveRelativePaths(source) && AllHaveRelativePaths(destination)
    requires k in Ids(source) && k !in Ids(destination)
    ensures k in Index(source).entries
    ensures exists i :: 0 <= i < |MissingFrom(Index(source), Index(destination))|
                          && MissingFrom(Index(source), Index(destination))[i] == Index(source).entries[k]
  {
    IndexKeys(source);
    IndexKeys(destination);
    var keys := Except(Index(source).order, Index(destination).entries.Keys);
    var i :| 0 <= i < |keys| && keys[i] == k;
    assert MissingFrom(Index(source), Index(destination))[i] == Index(source).entries[k];
  }

  /**
   * No photo is reported twice, and there are as many missing photos as
   * identities of the source that the destination lacks.
   */
  lemma MissingOnceEach(source: seq<Photo>, destination: seq<Photo>)
    requires AllHaveRelativePaths(source) && AllHaveRelativePaths(destination)
    ensures var m := MissingFrom(Index(source), Index(destination));
            && (forall i, j :: 0 <= i < j < |m| ==> m[i] != m[j])
            && |m| == |Ids(source) - Ids(destination)|
  {
    IndexKeys(source);
    IndexKeys(destination);
    var oldIndex, newIndex := Index(source), Index(destination);
    var keys := Except(oldIndex.order, newIndex.entries.Keys);
    var m := MissingFrom(oldIndex, newIndex);
    IndexFiledById(source);
    forall i, j | 0 <= i < j < |m| ensures m[i] != m[j] {
      MissingAt(oldIndex, newIndex, i);
      MissingAt(oldIndex, newIndex, j);
    }
    assert (set x | x in keys) == Ids(source) - Ids(destination);
    DistinctCard(keys);
  }

  lemma SliceStep<T>(s: seq<T>, i: nat)
    requires i < |s|
    ensures s[..i + 1] == s[..i] + [s[i]]
  {
  }

  class Reconciler {
    var report: ReportBuilder?
    var fileFilters: seq<FileExtensionFilter>

    /** A reconciler with no filters and no report yet. */
    constructor ()
      ensures report == null
      ensures fileFilters == []
    {
      report := null;
      fileFilters := [];
    }

    /** Appends filter after the filters already present. */
    method AddFilter(filter: FileExtensionFilter)
      modifies this
      ensures fileFilters == old(fileFilters) + [filter]
      ensures report == old(report)
    {
      fileFilters := fileFilters + [filter];
    }

    /**
     * Indexes photos by identity, the last photo seen for an identity keeping
     * the slot, and reports each displaced photo as a duplicate of the newer one.
     */
    method FilesToDictionary(location: LocationType, photos: seq<Photo>) returns (d: LocationIndex)
      requires report != null
      requires AllHaveRelativePaths(photos)
      modifies report.report
      ensures d == Index(photos)
      ensures report.report.duplicates == old(report.report.duplicates) + Duplicates(location, photos)
      ensures report.report.missing == old(report.report.missing)
    {
      d := LocationIndex(map[], []);
      for i := 0 to |photos|
        invariant d == Index(photos[..i])
        invariant report.report.duplicates == old(report.report.duplicates) + Duplicates(location, photos[..i])
        invariant report.report.missing == old(report.report.missing)
      {
        var p := photos[i];
        var id := UniqueId(p);
        assert photos[..i + 1][..i] == photos[..i] && photos[..i + 1][i] == p;
        if id in d.entries {
          report.AddDuplicateFile(location, p, d.entries[id]);
        } else {
          d := d.(order := d.order + [id]);
        }
        d := d.(entries := d.entries[id := p]);
      }
      assert photos[..|photos|] == photos;
    }

    /**
     * Starts a fresh report, indexes both sides, and reports as missing from the
     * destination every source photo whose identity the destination lacks.
     */
    method Execute(source: seq<Photo>, destination: seq<Photo>) returns (r: ReportBuilder)
      requires AllHaveRelativePaths(source) && AllHaveRelativePaths(destination)
      modifies this
      ensures fresh(r) && fresh(r.report)
      ensures report == r && fileFilters == old(fileFilters)
      ensures r.report.Valid()
      ensures r.report.duplicates == Duplicates(Source, source) + Duplicates(Destination, destination)
      ensures r.report.missing[Source] == MissingFrom(Index(source), Index(destination))
      ensures r.report.missing[Destination] == []
    {
      report := new ReportBuilder();
      ghost var sourceDuplicates := Duplicates(Source, source);
      ghost var destinationDuplicates := Duplicates(Destination, destination);
      var oldList := FilesToDictionary(Source, source);
      assert report.report.duplicates == [] + sourceDuplicates;
      assert [] + sourceDuplicates == sourceDuplicates;
      var newList := FilesToDictionary(Destination, destination);
      assert report.report.duplicates == sourceDuplicates + destinationDuplicates;
      var missingInNew := Except(oldList.order, newList.entries.Keys);
      ghost var missing := MissingFrom(oldList, newList);
      assert |missing| == |missingInNew|;
      r := report;
      for i := 0 to |missingInNew|
        invariant report == r && fileFilters == old(fileFilters)
        invariant |missing| == |missingInNew|
        invariant r.report.Valid()
        invariant r.report.duplicates == sourceDuplicates + destinationDuplicates
        invariant r.report.missing[Source] == missing[..i]
        invariant r.report.missing[Destination] == []
      {
        var file := oldList.entries[missingInNew[i]];
        MissingAt(oldList, newList, i);
        r.AddMissingFile(Source, file);
        assert missing[i] == file;
        SliceStep(missing, i);
      }
      assert missing[..|missing|] == missing;
    }
  }
}

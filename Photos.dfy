/**
 * A photo observed under a root directory, and the identity the reconciler
 * compares photos by: the path below the root together with the byte size,
 * lower-cased.
 */
module Photos {

  import opened Wrappers
  import opened Text

  /** The range of an unsigned 64-bit size. */
  type uint64 = x: int | 0 <= x < 0x1_0000_0000_0000_0000

  /** A root directory a photo was enumerated under. */
  datatype Dir = Dir(fullPath: string)

  datatype Photo = Photo(directory: Dir, fullPath: string, size: uint64)

  /**
   * The relative path is a substring taken by length alone: it exists when the
   * root's path is no longer than the photo's path (otherwise Substring throws).
   */
  predicate HasRelativePath(p: Photo) {
    |p.directory.fullPath| <= |p.fullPath|
  }

  /** The photo's path with as many leading characters dropped as the root's path has. */
  function RelativePath(p: Photo): (r: string)
    requires HasRelativePath(p)
    ensures |r| == |p.fullPath| - |p.directory.fullPath|
    ensures p.fullPath[..|p.directory.fullPath|] + r == p.fullPath
    ensures p.directory.fullPath <= p.fullPath ==> p.directory.fullPath + r == p.fullPath
  {
    p.fullPath[|p.directory.fullPath|..]
  }

  /** The identity of a photo: "relativePath,size" lower-cased. */
  function UniqueId(p: Photo): string
    requires HasRelativePath(p)
  {
    Lower(RelativePath(p) + [','] + Decimal(p.size))
  }

  /**
   * Lower-casing touches only the path part of an identity: the separator and
   * the digits of the size come through as they are.
   */
  lemma UniqueIdParts(p: Photo)
    requires HasRelativePath(p)
    ensures UniqueId(p) == Lower(RelativePath(p)) + [','] + Decimal(p.size)
  {
    LowerConcat(RelativePath(p) + [','], Decimal(p.size));
    LowerConcat(RelativePath(p), [',']);
    LowerFixes(Decimal(p.size));
  }

  /** The size an identity records: the decimal number after its last comma, if there is one. */
  function IdSize(id: string): Option<nat> {
    var t := AfterLastComma(id);
    if t != [] && AllDigits(t) then Some(ParseDecimal(t)) else None
  }

  /** The size can always be read back from a photo's identity. */
  lemma IdSizeOfUniqueId(p: Photo)
    requires HasRelativePath(p)
    ensures IdSize(UniqueId(p)) == Some(p.size)
  {
    UniqueIdParts(p);
    AfterLastCommaOf(Lower(RelativePath(p)), Decimal(p.size));
    ParseDecimalOfDecimal(p.size);
  }

  /**
   * Two photos share an identity exactly when their relative paths are equal up
   * to letter case and their sizes are equal.
   */
  lemma UniqueIdIff(p: Photo, q: Photo)
    requires HasRelativePath(p) && HasRelativePath(q)
    ensures UniqueId(p) == UniqueId(q) <==>
              Lower(RelativePath(p)) == Lower(RelativePath(q)) && p.size == q.size
  {
    if UniqueId(p) == UniqueId(q) {
      SameIdSameParts(p, q);
    }
  }

  /** A shared identity fixes the size and the lower-cased relative path. */
  lemma SameIdSameParts(p: Photo, q: Photo)
    requires HasRelativePath(p) && HasRelativePath(q)
    requires UniqueId(p) == UniqueId(q)
    ensures p.size == q.size
    ensures Lower(RelativePath(p)) == Lower(RelativePath(q))
  {
    assert p.size == q.size by {
      IdSizeOfUniqueId(p);
      IdSizeOfUniqueId(q);
    }
    var d := [','] + Decimal(p.size);
    var a, b := Lower(RelativePath(p)), Lower(RelativePath(q));
    UniqueIdParts(p);
    UniqueIdParts(q);
    assert UniqueId(p) == a + d && UniqueId(q) == b + d;
    CancelSuffix(a, b, d);
  }

  lemma CancelSuffix(a: string, b: string, d: string)
    requires a + d == b + d
    ensures a == b
  {
    assert a == (a + d)[..|a|];
    assert b == (b + d)[..|b|];
  }

  /** Paths that differ only in letter case, with equal sizes, give one identity. */
  lemma CaseInsensitiveId(p: Photo, q: Photo)
    requires HasRelativePath(p) && HasRelativePath(q)
    requires Lower(RelativePath(p)) == Lower(RelativePath(q)) && p.size == q.size
    ensures UniqueId(p) == UniqueId(q)
  {
    UniqueIdParts(p);
    UniqueIdParts(q);
  }

  /** Photos of different sizes never share an identity, whatever their paths. */
  lemma SizeSeparatesIds(p: Photo, q: Photo)
    requires HasRelativePath(p) && HasRelativePath(q)
    requires p.size != q.size
    ensures UniqueId(p) != UniqueId(q)
  {
    IdSizeOfUniqueId(p);
    IdSizeOfUniqueId(q);
  }
}

/**
 * The file-extension filter: a path is admitted unless its extension is one
 * of a fixed set of excluded extensions, compared exactly (case-sensitively).
 */
module FileFilters {

  /** The characters that end a path segment on Windows: the directory and alternative directory separators. */
  predicate IsSeparator(c: char) { c == '\\' || c == '/' }

  /**
   * e is an extension of path: a suffix of path of at least two characters that
   * starts with '.' and holds no other '.' and no separator.
   */
  ghost predicate IsExtensionOf(e: string, path: string) {
    && 2 <= |e| <= |path|
    && path[|path| - |e|..] == e
    && e[0] == '.'
    && forall j :: 1 <= j < |e| ==> e[j] != '.' && !IsSeparator(e[j])
  }

  /**
   * Scanning path[..n] backwards, the position of the first '.' met before a
   * separator or the start of the path; -1 if there is none.
   */
  function LastDot(path: string, n: nat): (r: int)
    requires n <= |path|
    ensures -1 <= r < n
    ensures r >= 0 ==> path[r] == '.' && forall j :: r < j < n ==> path[j] != '.' && !IsSeparator(path[j])
    ensures r < 0 ==> forall j :: 0 <= j < n && path[j] == '.' ==>
                        exists k :: j < k < n && IsSeparator(path[k])
  {
    if n == 0 then -1
    else if path[n - 1] == '.' then n - 1
    else if IsSeparator(path[n - 1]) then -1
    else LastDot(path, n - 1)
  }

  /**
   * The extension of a path as Path.GetExtension computes it: from the last '.'
   * of the final segment to the end, or "" when that segment has no '.' or the
   * '.' is the path's last character.
   */
  function Extension(path: string): (ext: string)
    ensures ext != "" ==> IsExtensionOf(ext, path)
    ensures ext == "" ==> forall e :: !IsExtensionOf(e, path)
  {
    var i := LastDot(path, |path|);
    if 0 <= i < |path| - 1 then path[i..] else ""
  }

  /** A filter excluding a fixed set of extensions; nothing changes it after it is built. */
  datatype FileExtensionFilter = FileExtensionFilter(excluded: set<string>)
  {
    predicate Include(path: string) {
      Extension(path) !in excluded
    }
  }

  /** The filter built from a list of extensions to exclude; repeated entries collapse. */
  function NewFileExtensionFilter(exclude: seq<string>): (f: FileExtensionFilter)
    ensures forall e :: e in f.excluded <==> e in exclude
  {
    FileExtensionFilter(set e | e in exclude)
  }

  /** A path is admitted exactly when its extension is not among those listed. */
  lemma IncludeIff(exclude: seq<string>, path: string)
    ensures NewFileExtensionFilter(exclude).Include(path) <==>
              forall i :: 0 <= i < |exclude| ==> exclude[i] != Extension(path)
  {
  }

  /** A filter built with no extensions admits every path. */
  lemma EmptyFilterAdmitsAll(path: string)
    ensures NewFileExtensionFilter([]).Include(path)
  {
  }

  /** Lists with the same entries, in whatever order and multiplicity, build the same filter. */
  lemma SameEntriesSameFilter(xs: seq<string>, ys: seq<string>)
    requires forall e :: e in xs <==> e in ys
    ensures NewFileExtensionFilter(xs) == NewFileExtensionFilter(ys)
  {
  }

  /** Excluding more extensions admits fewer paths. */
  lemma IncludeAntitone(a: set<string>, b: set<string>, path: string)
    requires a <= b
    ensures FileExtensionFilter(b).Include(path) ==> FileExtensionFilter(a).Include(path)
  {
  }

  /** Comparison is ordinal: excluding ".JPG" does not exclude a ".jpg" file. */
  lemma ExclusionIsCaseSensitive()
    ensures NewFileExtensionFilter([".JPG"]).Include("IMG_1.jpg")
    ensures !NewFileExtensionFilter([".jpg"]).Include("IMG_1.jpg")
  {
    var path := "IMG_1.jpg";
    assert LastDot(path, 6) == 5;
    assert LastDot(path, 9) == 5;
    assert Extension(path) == ".jpg";
  }
}

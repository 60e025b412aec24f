/**
 * The report a reconciliation run fills in: a list of duplicate pairs and,
 * for every location, a list of photos missing on the other side. Every list
 * only ever grows at its end.
 */
module Reports {

  import opened Photos

  /** The two sides of a reconciliation. */
  datatype LocationType = Source | Destination

  /** Every location, in declaration order (what the enumeration of the enum yields). */
  const ALL_LOCATIONS: seq<LocationType> := [Source, Destination]

  lemma AllLocationsListed(l: LocationType)
    ensures l in ALL_LOCATIONS
  {
  }

  /** Two photos of one location that share an identity: the newer one first, the displaced one second. */
  datatype Duplicate = Duplicate(location: LocationType, photo1: Photo, photo2: Photo)

  class Report {
    var duplicates: seq<Duplicate>
    var missing: map<LocationType, seq<Photo>>

    /** Every location has its (possibly empty) missing list. */
    predicate Valid()
      reads this
    {
      forall l: LocationType :: l in missing
    }

    /** An empty report, with one empty missing list created per location. */
    constructor ()
      ensures Valid()
      ensures duplicates == []
      ensures forall l: LocationType :: missing[l] == []
    {
      duplicates := [];
      var m: map<LocationType, seq<Photo>> := map[];
      for i := 0 to |ALL_LOCATIONS|
        invariant forall l :: l in m <==> l in ALL_LOCATIONS[..i]
        invariant forall l :: l in m ==> m[l] == []
      {
        m := m[ALL_LOCATIONS[i] := []];
      }
      forall l: LocationType
        ensures l in m
      {
        AllLocationsListed(l);
        assert ALL_LOCATIONS[..|ALL_LOCATIONS|] == ALL_LOCATIONS;
      }
      missing := m;
    }
  }

  class ReportBuilder {
    const report: Report

    constructor ()
      ensures fresh(report)
      ensures report.Valid()
      ensures report.duplicates == []
      ensures forall l: LocationType :: report.missing[l] == []
    {
      report := new Report();
    }

    /** Appends one duplicate pair, exactly as given; the missing lists are untouched. */
    method AddDuplicateFile(location: LocationType, photo: Photo, other: Photo)
      modifies report
      ensures report.duplicates == old(report.duplicates) + [Duplicate(location, photo, other)]
      ensures report.missing == old(report.missing)
    {
      report.duplicates := report.duplicates + [Duplicate(location, photo, other)];
    }

    /**
     * Appends photo to the missing list of location; the other lists and the
     * duplicates are untouched. The list always exists, as Valid() guarantees.
     */
    method AddMissingFile(location: LocationType, photo: Photo)
      requires report.Valid()
      modifies report
      ensures report.Valid()
      ensures report.missing == old(report.missing)[location := old(report.missing[location]) + [photo]]
      ensures report.duplicates == old(report.duplicates)
    {
      report.missing := report.missing[location := report.missing[location] + [photo]];
    }
  }
}

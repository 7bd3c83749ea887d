/**
 The round catalog of the game: the constant table `flagsData` of flag records.
 Each record names a country, an opaque reference to its flag image, and the
 four country names offered as answers for that flag.
 */
module FlagsData {

  /** One flag record. `flag` is an image reference and is treated as an opaque string. */
  datatype FlagRecord = FlagRecord(id: string, country: string, flag: string, options: seq<string>)

  /** Number of answer options shown for every flag. */
  const OptionsPerFlag := 4

  const Catalog: seq<FlagRecord> := [
    FlagRecord("usa", "United States", "flags/usa.png",
      ["United States", "United Kingdom", "Australia", "New Zealand"]),
    FlagRecord("france", "France", "flags/france.png",
      ["France", "Netherlands", "Russia", "Czech Republic"]),
    FlagRecord("japan", "Japan", "flags/japan.png",
      ["Japan", "South Korea", "China", "Bangladesh"]),
    FlagRecord("brazil", "Brazil", "flags/brazil.png",
      ["Brazil", "Argentina", "Colombia", "Peru"]),
    FlagRecord("canada", "Canada", "flags/canada.png",
      ["Canada", "United States", "Denmark", "Switzerland"]),
    FlagRecord("germany", "Germany", "flags/germany.png",
      ["Germany", "Belgium", "Romania", "Chad"]),
    FlagRecord("uk", "United Kingdom", "flags/uk.png",
      ["United Kingdom", "United States", "Australia", "New Zealand"]),
    FlagRecord("australia", "Australia", "flags/australia.png",
      ["Australia", "New Zealand", "United Kingdom", "Fiji"]),
    FlagRecord("south-korea", "South Korea", "flags/south-korea.png",
      ["South Korea", "North Korea", "Japan", "China"]),
    FlagRecord("mexico", "Mexico", "flags/mexico.png",
      ["Mexico", "Italy", "Ireland", "Hungary"])
  ]

  /** No two options of a record are the same country name. */
  predicate DistinctOptions(options: seq<string>) {
    forall j, k :: 0 <= j < k < |options| ==> options[j] != options[k]
  }

  /** A record is playable: four distinct options, one of which is its own country. */
  predicate WellFormed(r: FlagRecord) {
    |r.options| == OptionsPerFlag && r.country in r.options && DistinctOptions(r.options)
  }

  /** Every record of the catalog is playable, the catalog is not empty and record ids are unique. */
  lemma CatalogWellFormed()
    ensures |Catalog| == 10
    ensures forall i :: 0 <= i < |Catalog| ==> WellFormed(Catalog[i])
    ensures forall i, j :: 0 <= i < j < |Catalog| ==> Catalog[i].id != Catalog[j].id
  {
  }

  /** In a playable record the country occurs exactly once among the options. */
  lemma {:induction false} CountryOccursOnce(r: FlagRecord)
    requires WellFormed(r)
    ensures multiset(r.options)[r.country] == 1
  {
    var k :| 0 <= k < |r.options| && r.options[k] == r.country;
    OccursOnceAt(r.options, k);
  }

  lemma {:induction false} OccursOnceAt(xs: seq<string>, k: nat)
    requires DistinctOptions(xs) && k < |xs|
    ensures multiset(xs)[xs[k]] == 1
  {
    if k == 0 {
      assert xs == [xs[0]] + xs[1..];
      assert xs[0] !in xs[1..];
    } else {
      assert xs == [xs[0]] + xs[1..];
      assert xs[1..][k - 1] == xs[k];
      OccursOnceAt(xs[1..], k - 1);
    }
  }
}

/**
 * Column-header normalisation of `validate_and_process_data`: every header is
 * lower-cased, its spaces, hyphens and slashes become underscores, and three
 * legacy names are renamed to the names the schema uses.
 */
module Headers {
  import opened Text

  /** The characters the three `replace` calls turn into `_`. */
  predicate IsSeparator(c: char) {
    c == ' ' || c == '-' || c == '/'
  }

  /** A header with no upper-case ASCII letter, space, hyphen or slash. */
  predicate IsNormalSpelling(h: string) {
    forall i :: 0 <= i < |h| ==> !IsAsciiUpper(h[i]) && !IsSeparator(h[i])
  }

  /** The chain `lower().replace(" ", "_").replace("-", "_").replace("/", "_")`. */
  function NormalizeSpelling(h: string): (r: string)
    ensures |r| == |h|
    ensures IsNormalSpelling(r)
    ensures forall i :: 0 <= i < |h| && !IsAsciiUpper(h[i]) && !IsSeparator(h[i]) ==> r[i] == h[i]
  {
    Replace(Replace(Replace(Lower(h), ' ', '_'), '-', '_'), '/', '_')
  }

  /** What the chain does to one character, in a single step. */
  function SpellChar(c: char): char {
    if IsSeparator(c) then '_' else LowerChar(c)
  }

  /**
   * The chain of four string operations acts character by character, as
   * `SpellChar`; in particular it keeps the header's length.
   */
  lemma NormalizeSpellingPointwise(h: string)
    ensures |NormalizeSpelling(h)| == |h|
    ensures forall i :: 0 <= i < |h| ==> NormalizeSpelling(h)[i] == SpellChar(h[i])
  {
  }

  /** A header already in normal spelling goes through the chain unchanged. */
  lemma NormalizeSpellingFixesNormal(h: string)
    requires IsNormalSpelling(h)
    ensures NormalizeSpelling(h) == h
  {
    NormalizeSpellingPointwise(h);
  }

  /** The `rename` table. */
  const Renames: map<string, string> :=
    map["latitude" := "lat", "longitude" := "long_", "incidence_rate" := "incident_rate"]

  /** `rename(columns=Renames)` on one header: a header not in the table is kept. */
  function Rename(h: string): (r: string)
    ensures h != "latitude" && h != "longitude" && h != "incidence_rate" ==> r == h
    ensures h == "latitude" ==> r == "lat"
    ensures h == "longitude" ==> r == "long_"
    ensures h == "incidence_rate" ==> r == "incident_rate"
    ensures r !in Renames || r == h
  {
    if h in Renames then Renames[h] else h
  }

  /**
   * Only `latitude`, `longitude` and `incidence_rate` are changed, and they
   * become `lat`, `long_` and `incident_rate`.
   */
  lemma RenameOnlyThree(h: string)
    ensures Rename(h) != h <==> h == "latitude" || h == "longitude" || h == "incidence_rate"
    ensures h == "latitude" ==> Rename(h) == "lat"
    ensures h == "longitude" ==> Rename(h) == "long_"
    ensures h == "incidence_rate" ==> Rename(h) == "incident_rate"
  {
    assert "lat" != "latitude";
    assert "long_" != "longitude";
    assert "incident_rate" != "incidence_rate";
  }

  /** Renaming a second time changes nothing: no new name is itself a key of the table. */
  lemma RenameIdempotent(h: string)
    ensures Rename(Rename(h)) == Rename(h)
  {
    RenameOnlyThree(h);
    RenameOnlyThree(Rename(h));
    assert "lat" !in Renames && "long_" !in Renames && "incident_rate" !in Renames;
  }

  /** The names the table produces are in normal spelling. */
  lemma RenamePreservesNormal(h: string)
    requires IsNormalSpelling(h)
    ensures IsNormalSpelling(Rename(h))
  {
    RenameOnlyThree(h);
  }

  /** The whole normalisation of one header: spelling first, then the rename table. */
  function NormalizeHeader(h: string): (r: string)
    ensures IsNormalSpelling(r)
  {
    RenamePreservesNormal(NormalizeSpelling(h));
    Rename(NormalizeSpelling(h))
  }

  /** Normalising an already normalised header changes nothing. */
  lemma NormalizeHeaderIdempotent(h: string)
    ensures NormalizeHeader(NormalizeHeader(h)) == NormalizeHeader(h)
  {
    var n := NormalizeHeader(h);
    NormalizeSpellingFixesNormal(n);
    RenameIdempotent(NormalizeSpelling(h));
  }

  /**
   * Normalisation of the header row: same number of headers, in the same
   * order, each one normalised on its own.
   */
  function NormalizeHeaders(hs: seq<string>): (r: seq<string>)
    ensures |r| == |hs|
    ensures forall i :: 0 <= i < |r| ==> IsNormalSpelling(r[i])
    ensures forall i :: 0 <= i < |r| ==> r[i] == NormalizeHeader(hs[i])
  {
    seq(|hs|, i requires 0 <= i < |hs| => NormalizeHeader(hs[i]))
  }

  /** Normalising the header row twice is the same as once. */
  lemma NormalizeHeadersIdempotent(hs: seq<string>)
    ensures NormalizeHeaders(NormalizeHeaders(hs)) == NormalizeHeaders(hs)
  {
    forall i | 0 <= i < |hs| {
      NormalizeHeaderIdempotent(hs[i]);
    }
  }

  /** A header whose characters each spell as the matching character of `n` normalises to `n`. */
  lemma SpellsAs(h: string, n: string)
    requires |h| == |n|
    requires forall i :: 0 <= i < |h| ==> SpellChar(h[i]) == n[i]
    ensures NormalizeSpelling(h) == n
  {
    NormalizeSpellingPointwise(h);
  }

  // Headers the CSSE files carry, and what they become.

  lemma ExampleCountryRegion()
    ensures NormalizeHeader("Country/Region") == "country_region"
  {
    SpellsAs("Country/Region", "country_region");
  }

  lemma ExampleLastUpdate()
    ensures NormalizeHeader("Last Update") == "last_update"
  {
    SpellsAs("Last Update", "last_update");
  }

  lemma ExampleLatitude()
    ensures NormalizeHeader("Latitude") == "lat"
  {
    SpellsAs("Latitude", "latitude");
  }

  lemma ExampleLongitude()
    ensures NormalizeHeader("Long_") == "long_"
  {
    SpellsAs("Long_", "long_");
  }

  lemma ExampleIncidenceRate()
    ensures NormalizeHeader("Incidence_Rate") == "incident_rate"
  {
    SpellsAs("Incidence_Rate", "incidence_rate");
  }
}

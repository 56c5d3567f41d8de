/**
 * The two steps in front of the per-file processing: picking the CSV download
 * URLs out of the repository directory listing (`github_api_list`), and fanning
 * them out as dynamic outputs keyed by position (`emit_urls`).
 */
module Listing {
  import opened Wrappers
  import opened Text
  import opened Sequences

  /**
   * One entry of the directory listing. `downloadUrl` is `None` where the
   * listing gives `null` (directories have no download URL).
   */
  datatype FileEntry = FileEntry(name: string, downloadUrl: Option<string>)

  /** One dynamic output: the value handed downstream and its mapping key. */
  datatype DynamicOutput<T> = DynamicOutput(value: T, mappingKey: string)

  const CsvSuffix: string := ".csv"

  predicate IsCsv(e: FileEntry) {
    EndsWith(e.name, CsvSuffix)
  }

  /** The suffix test is exact: a dated report is kept, other files and an upper-case `.CSV` are not. */
  lemma CsvSuffixExamples()
    ensures IsCsv(FileEntry("01-22-2020.csv", None))
    ensures !IsCsv(FileEntry("README.md", None))
    ensures !IsCsv(FileEntry("01-22-2020.CSV", None))
  {
    var report := "01-22-2020.csv";
    assert report[10] == '.' && report[11] == 'c' && report[12] == 's' && report[13] == 'v';
    assert "README.md"[8] == 'd';
    assert "01-22-2020.CSV"[11] == 'C';
  }

  /** The list comprehension of `github_api_list`: the download URLs of the `.csv` entries. */
  function CsvUrls(listing: seq<FileEntry>): (urls: seq<Option<string>>)
    ensures |urls| <= |listing|
    ensures forall i :: 0 <= i < |listing| && IsCsv(listing[i]) ==> listing[i].downloadUrl in urls
  {
    if |listing| == 0 then []
    else
      var front := listing[..|listing| - 1];
      var last := listing[|listing| - 1];
      assert listing == front + [last];
      CsvUrls(front) + (if IsCsv(last) then [last.downloadUrl] else [])
  }

  /** A listing of only `.csv` entries loses nothing; a listing without one yields nothing. */
  lemma {:induction false} CsvUrlsAllOrNone(listing: seq<FileEntry>)
    ensures (forall i :: 0 <= i < |listing| ==> IsCsv(listing[i])) ==> |CsvUrls(listing)| == |listing|
    ensures (forall i :: 0 <= i < |listing| ==> !IsCsv(listing[i])) ==> CsvUrls(listing) == []
  {
    if |listing| > 0 {
      var front := listing[..|listing| - 1];
      CsvUrlsAllOrNone(front);
      assert forall i :: 0 <= i < |front| ==> front[i] == listing[i];
    }
  }

  /**
   * `urls` lists, in listing order, the download URL of exactly those entries
   * whose positions are `positions`, and those positions are exactly the
   * entries whose name ends in `.csv`.
   */
  ghost predicate SelectsCsvEntries(listing: seq<FileEntry>, urls: seq<Option<string>>, positions: seq<nat>) {
    && |positions| == |urls|
    && StrictlyIncreasing(positions)
    && (forall k :: 0 <= k < |positions| ==> positions[k] < |listing| && urls[k] == listing[positions[k]].downloadUrl)
    && (forall i :: 0 <= i < |listing| ==> (IsCsv(listing[i]) <==> i in positions))
  }

  /** The positions of the `.csv` entries, in increasing order: the witness for `CsvUrlsSpec`. */
  ghost function CsvPositions(listing: seq<FileEntry>): seq<nat> {
    if |listing| == 0 then []
    else
      CsvPositions(listing[..|listing| - 1])
      + (if IsCsv(listing[|listing| - 1]) then [|listing| - 1] else [])
  }

  lemma {:induction false} CsvPositionsSelect(listing: seq<FileEntry>)
    ensures SelectsCsvEntries(listing, CsvUrls(listing), CsvPositions(listing))
    ensures forall k :: 0 <= k < |CsvPositions(listing)| ==> CsvPositions(listing)[k] < |listing|
  {
    if |listing| > 0 {
      var n := |listing| - 1;
      var front := listing[..n];
      var last := listing[n];
      CsvPositionsSelect(front);
      var urls, positions := CsvUrls(front), CsvPositions(front);
      var tailUrls := if IsCsv(last) then [last.downloadUrl] else [];
      var tailPositions := if IsCsv(last) then [n] else [];
      assert CsvUrls(listing) == urls + tailUrls;
      assert CsvPositions(listing) == positions + tailPositions;
      assert forall i :: 0 <= i < n ==> front[i] == listing[i];
      SelectsExtend(listing, urls, positions, tailUrls, tailPositions);
    }
  }

  /** The inductive step of `CsvPositionsSelect`: the last entry is selected iff it is a `.csv` entry. */
  lemma SelectsExtend(
    listing: seq<FileEntry>, urls: seq<Option<string>>, positions: seq<nat>,
    tailUrls: seq<Option<string>>, tailPositions: seq<nat>
  )
    requires |listing| > 0
    requires SelectsCsvEntries(listing[..|listing| - 1], urls, positions)
    requires forall i :: 0 <= i < |listing| - 1 ==> listing[..|listing| - 1][i] == listing[i]
    requires IsCsv(listing[|listing| - 1]) ==>
      tailUrls == [listing[|listing| - 1].downloadUrl] && tailPositions == [|listing| - 1]
    requires !IsCsv(listing[|listing| - 1]) ==> tailUrls == [] && tailPositions == []
    ensures SelectsCsvEntries(listing, urls + tailUrls, positions + tailPositions)
    ensures forall k :: 0 <= k < |positions + tailPositions| ==> (positions + tailPositions)[k] < |listing|
  {
  }

  /**
   * The filter keeps the download URL of every `.csv` entry and of nothing
   * else, in listing order.
   */
  lemma CsvUrlsSpec(listing: seq<FileEntry>)
    ensures exists positions :: SelectsCsvEntries(listing, CsvUrls(listing), positions)
  {
    CsvPositionsSelect(listing);
  }

  /** An entry whose name does not end in `.csv` contributes nothing, whatever its URL. */
  lemma {:induction false} CsvUrlsIgnoresOthers(listing: seq<FileEntry>, e: FileEntry)
    requires !IsCsv(e)
    ensures CsvUrls(listing + [e]) == CsvUrls(listing)
    ensures CsvUrls([e] + listing) == CsvUrls(listing)
  {
    assert (listing + [e])[..|listing|] == listing;
    CsvUrlsPrepend(listing, e);
  }

  /** Filtering a listing with one more entry in front puts that entry's URL (if any) first. */
  lemma {:induction false} CsvUrlsPrepend(listing: seq<FileEntry>, e: FileEntry)
    ensures CsvUrls([e] + listing) == (if IsCsv(e) then [e.downloadUrl] else []) + CsvUrls(listing)
    decreases |listing|
  {
    if |listing| > 0 {
      var n := |listing| - 1;
      var front, last := listing[..n], listing[n];
      assert listing == front + [last];
      assert [e] + listing == ([e] + front) + [last];
      CsvUrlsPrepend(front, e);
      CsvUrlsAppend(front, last);
      CsvUrlsAppend([e] + front, last);
    } else {
      CsvUrlsAppend([], e);
      assert [e] + listing == [] + [e];
    }
  }

  /** Filtering a listing with one more entry at the end puts that entry's URL (if any) last. */
  lemma CsvUrlsAppend(listing: seq<FileEntry>, e: FileEntry)
    ensures CsvUrls(listing + [e]) == CsvUrls(listing) + (if IsCsv(e) then [e.downloadUrl] else [])
  {
    assert (listing + [e])[..|listing|] == listing;
  }

  /**
   * `emit_urls`: one output per URL, in order, the `i`-th keyed by `str(i)`.
   * Keys are decimal strings that read back as their position, so no two
   * outputs share a key.
   */
  method EmitUrls<T>(fileUrls: seq<T>) returns (outputs: seq<DynamicOutput<T>>)
    ensures |outputs| == |fileUrls|
    ensures forall i :: 0 <= i < |outputs| ==> outputs[i].value == fileUrls[i]
    ensures forall i :: 0 <= i < |outputs| ==>
      IsCanonicalDecimal(outputs[i].mappingKey) && ParseDecimal(outputs[i].mappingKey) == i
    ensures forall i, j :: 0 <= i < j < |outputs| ==> outputs[i].mappingKey != outputs[j].mappingKey
  {
    outputs := [];
    var idx := 0;
    while idx < |fileUrls|
      invariant idx <= |fileUrls|
      invariant |outputs| == idx
      invariant forall i :: 0 <= i < idx ==> outputs[i].value == fileUrls[i]
      invariant forall i :: 0 <= i < idx ==>
        IsCanonicalDecimal(outputs[i].mappingKey) && ParseDecimal(outputs[i].mappingKey) == i
    {
      var key := DecimalString(idx);
      ParseDecimalString(idx);
      outputs := outputs + [DynamicOutput(fileUrls[idx], key)];
      idx := idx + 1;
    }
  }
}

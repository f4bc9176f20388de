/**
 * `list` (src/lib.rs:174-269): the listing URL and its security check, the
 * column lookup, and the loop over the table's body rows. The HTTP fetch,
 * the HTML parser and chrono's timestamp parser are outside the model:
 * their results arrive as the joined URL, the header texts and the rows.
 */
module Listing {
  import opened Wrappers
  import opened Errors
  import opened Ascii
  import opened SpecNumbers
  import opened Dates
  import opened Versions
  import opened Headers
  import opened Selections

  /** `BASE_URL` (src/lib.rs:6). */
  const BASE_URL: string := "https://www.3gpp.org/ftp/Specs/archive/"

  predicate StartsWith(s: string, prefix: string)
  {
    |prefix| <= |s| && s[..|prefix|] == prefix
  }

  /** The relative path joined onto `BASE_URL`: `{series}_series/{series}.{number}` (src/lib.rs:184). */
  function ListingPath(sn: SpecNumber): string
  {
    sn.series + "_series/" + Display(sn)
  }

  /**
   * A relative path that cannot leave the directory it is joined to: it
   * starts with an alphanumeric character (no scheme, no leading '/'), uses
   * only alphanumerics, '_', '.' and '/', and every '.' sits between two
   * alphanumerics (so no "." or ".." segment).
   */
  predicate PlainRelativePath(p: string)
  {
    && |p| > 0 && IsAlnum(p[0])
    && (forall i :: 0 <= i < |p| ==> IsAlnum(p[i]) || p[i] == '_' || p[i] == '.' || p[i] == '/')
    && (forall i :: 0 <= i < |p| && p[i] == '.' ==> 0 < i < |p| - 1 && IsAlnum(p[i - 1]) && IsAlnum(p[i + 1]))
  }

  /**
   * The path built from a parsed spec number is plain: no scheme, no
   * leading '/', no "." or ".." segment.
   */
  lemma ListingPathIsPlain(sn: SpecNumber)
    requires WellFormed(sn)
    ensures PlainRelativePath(ListingPath(sn))
  {
    var p := ListingPath(sn);
    var dot := |sn.series| + |"_series/"| + 2;
    assert p == sn.series + "_series/" + sn.series + "." + sn.number;
    assert p[dot] == '.' && p[dot - 1] == sn.series[1] && p[dot + 1] == sn.number[0];
    forall i | 0 <= i < |p|
      ensures IsAlnum(p[i]) || p[i] == '_' || p[i] == '.' || p[i] == '/'
      ensures p[i] == '.' ==> i == dot
    {
      if i < 2 {
        assert p[i] == sn.series[i];
      } else if i < 10 {
        assert p[i] == "_series/"[i - 2];
      } else if i < 12 {
        assert p[i] == sn.series[i - 10];
      } else if i > 12 {
        assert p[i] == sn.number[i - 13];
      }
    }
  }

  /** The first `a[href]` of a cell: its `href` and its text. */
  datatype Anchor = Anchor(href: string, text: string)

  /** What chrono's `parse_from_str(.., "%Y/%m/%d %-H:%M")` yields, read as UTC. */
  datatype Timestamp = Timestamp(year: int, month: nat, day: nat, hour: nat, minute: nat)

  /** A `td` cell: its first link, and the timestamp its trimmed text parses to, if any. */
  datatype Cell = Cell(link: Option<Anchor>, date: Option<Timestamp>)

  /** A `tbody > tr` row: its cells in document order. */
  datatype Row = Row(cells: seq<Cell>)

  /** `SpecItem` (src/lib.rs:88-93). */
  datatype SpecItem = SpecItem(version: Version, date: Timestamp, url: string)

  /**
   * What a call of `list` ends in: a list of items, an error returned, or
   * the panic of the `todo!()` at src/lib.rs:258, reached at body row `row`.
   */
  datatype ListOutcome = Listed(items: seq<SpecItem>) | Failed(error: Error) | Aborted(row: nat)

  function Max(a: nat, b: nat): nat
  {
    if a < b then b else a
  }

  /**
   * A row that none of the `continue`s of src/lib.rs:224-256 skips: it has
   * both columns, a link in the name column, a parsable date in the date
   * column, a file name with a version, and the release asked for, if any.
   */
  predicate Survives(row: Row, nameIdx: nat, dateIdx: nat, release: Option<nat>)
  {
    && |row.cells| > Max(nameIdx, dateIdx)
    && row.cells[nameIdx].link.Some?
    && row.cells[dateIdx].date.Some?
    && var version := ParseVersion(row.cells[nameIdx].link.value.text);
       version.Some? && (release.None? || version.value.major == release.value)
  }

  /** `as i32` on a `u32` (src/lib.rs:260): the same 32 bits read as two's complement. */
  function AsI32(x: U32): (r: int)
    ensures -0x8000_0000 <= r < 0x8000_0000
    ensures (x - r) % U32_LIMIT == 0
  {
    if x < 0x8000_0000 then x else x - U32_LIMIT
  }

  /** The date filter's test: same year, after the cast, and same month (src/lib.rs:259-263). */
  predicate DateMatches(date: Timestamp, df: DateFilter)
  {
    date.year == AsI32(df.year) && date.month == MonthNumber(df.month)
  }

  /** A filter read from `YYYY-MM` text compares the calendar year it spells, the cast being exact there. */
  lemma ParsedFilterYearIsExact(s: string, date: Timestamp)
    requires IsAscii(s) && ParseDateFilter(s).Ok?
    ensures ParseDateFilter(s).value.year < 10000
    ensures DateMatches(date, ParseDateFilter(s).value) <==>
              date.year == ParseDateFilter(s).value.year && date.month == MonthNumber(ParseDateFilter(s).value.month)
  {
    assert Pow10(4) == 10000;
  }

  /**
   * A row the loop keeps: it survives the `continue`s and, when there is a
   * date filter, passes it. Without a date filter this is `Survives`.
   */
  predicate Selected(row: Row, nameIdx: nat, dateIdx: nat, release: Option<nat>, dateFilter: Option<DateFilter>)
  {
    && Survives(row, nameIdx, dateIdx, release)
    && (dateFilter.None? || DateMatches(row.cells[dateIdx].date.value, dateFilter.value))
  }

  /** The `SpecItem` built from a row (src/lib.rs:265). */
  function ItemOf(row: Row, nameIdx: nat, dateIdx: nat, release: Option<nat>): SpecItem
    requires Survives(row, nameIdx, dateIdx, release)
  {
    var link := row.cells[nameIdx].link.value;
    SpecItem(ParseVersion(link.text).value, row.cells[dateIdx].date.value, link.href)
  }

  /** A row's item when the row is kept, none otherwise. */
  function Candidate(row: Row, nameIdx: nat, dateIdx: nat, release: Option<nat>, dateFilter: Option<DateFilter>)
    : Option<SpecItem>
  {
    if Selected(row, nameIdx, dateIdx, release, dateFilter) then Some(ItemOf(row, nameIdx, dateIdx, release)) else None
  }

  /** `Candidate` for fixed columns and filters, as a function of the row. */
  function CandidateOf(nameIdx: nat, dateIdx: nat, release: Option<nat>, dateFilter: Option<DateFilter>)
    : Row -> Option<SpecItem>
  {
    row => Candidate(row, nameIdx, dateIdx, release, dateFilter)
  }

  /** The candidate of every row, in document order. */
  function Candidates(rows: seq<Row>, nameIdx: nat, dateIdx: nat, release: Option<nat>, dateFilter: Option<DateFilter>)
    : (cs: seq<Option<SpecItem>>)
    ensures |cs| == |rows|
    ensures forall i :: 0 <= i < |rows| ==> cs[i] == Candidate(rows[i], nameIdx, dateIdx, release, dateFilter)
  {
    Map(rows, CandidateOf(nameIdx, dateIdx, release, dateFilter))
  }

  /** The candidates of two runs of rows are those of each, one after the other. */
  lemma CandidatesOfConcat(a: seq<Row>, b: seq<Row>, nameIdx: nat, dateIdx: nat, release: Option<nat>,
                           dateFilter: Option<DateFilter>)
    ensures Candidates(a + b, nameIdx, dateIdx, release, dateFilter)
            == Candidates(a, nameIdx, dateIdx, release, dateFilter) + Candidates(b, nameIdx, dateIdx, release, dateFilter)
  {
    MapOfConcat(a, b, CandidateOf(nameIdx, dateIdx, release, dateFilter));
  }

  /**
   * The outcome of the row loop as written: the first surviving row hits
   * `todo!()`, so `Ok` is reached only when no row survives, and then with
   * nothing pushed.
   */
  function RowsOutcome(rows: seq<Row>, nameIdx: nat, dateIdx: nat, release: Option<nat>): (r: ListOutcome)
    ensures r.Listed? || r.Aborted?
    ensures r.Listed? ==> r.items == []
    ensures r.Listed? <==> forall i :: 0 <= i < |rows| ==> !Survives(rows[i], nameIdx, dateIdx, release)
    ensures r.Aborted? ==>
              && r.row < |rows| && Survives(rows[r.row], nameIdx, dateIdx, release)
              && forall j :: 0 <= j < r.row ==> !Survives(rows[j], nameIdx, dateIdx, release)
  {
    match FirstSome(Candidates(rows, nameIdx, dateIdx, release, None))
    case Some(i) => Aborted(i)
    case None => Listed([])
  }

  /** The `for row in document.select(..)` loop of src/lib.rs:220-268. */
  method FilterRows(rows: seq<Row>, nameIdx: nat, dateIdx: nat, release: Option<nat>, dateFilter: Option<DateFilter>)
    returns (r: ListOutcome)
    ensures r == RowsOutcome(rows, nameIdx, dateIdx, release)
  {
    var specs: seq<SpecItem> := [];
    for i := 0 to |rows|
      invariant forall j :: 0 <= j < i ==> !Survives(rows[j], nameIdx, dateIdx, release)
    {
      var cells := rows[i].cells;
      if |cells| <= Max(nameIdx, dateIdx) {
        continue;
      }
      var nameCell, dateCell := cells[nameIdx], cells[dateIdx];
      if nameCell.link.None? {
        continue;
      }
      var url, filename := nameCell.link.value.href, nameCell.link.value.text;
      if dateCell.date.None? {
        continue;
      }
      var date := dateCell.date.value;
      var version := ParseVersion(filename);
      if version.None? {
        continue;
      }
      if release.Some? && version.value.major != release.value {
        continue;
      }
      // todo!(): the date filter and the push that follow it are never reached.
      return Aborted(i);
    }
    return Listed(specs);
  }

  /**
   * `list` from the joined URL on: the security check, the column lookup
   * (its error returned as it is), then the row loop.
   */
  method List(joinedUrl: string, headers: seq<string>, rows: seq<Row>, release: Option<nat>, dateFilter: Option<DateFilter>)
    returns (r: ListOutcome)
    ensures !StartsWith(joinedUrl, BASE_URL) ==> r == Failed(SecurityCheckFailed(joinedUrl))
    ensures StartsWith(joinedUrl, BASE_URL) && HeaderIndexes(headers).Err? ==> r == Failed(HeaderNotFound)
    ensures StartsWith(joinedUrl, BASE_URL) && HeaderIndexes(headers).Ok? ==>
              var (nameIdx, dateIdx) := HeaderIndexes(headers).value;
              r == RowsOutcome(rows, nameIdx, dateIdx, release)
  {
    if !StartsWith(joinedUrl, BASE_URL) {
      return Failed(SecurityCheckFailed(joinedUrl));
    }
    var columns := FindHeaderIndexes(headers);
    if columns.Err? {
      return Failed(columns.error);
    }
    var (nameIdx, dateIdx) := columns.value;
    r := FilterRows(rows, nameIdx, dateIdx, release, dateFilter);
  }

  // The selection the loop would make without its `todo!()` (src/lib.rs:259-265):
  // the date filter and the push that the panic makes unreachable.

  /**
   * INTENDED, NOT AS WRITTEN: the items the loop would push, in row order,
   * were the `todo!()` removed. The list is empty exactly when no row is
   * kept.
   */
  function IntendedSelection(rows: seq<Row>, nameIdx: nat, dateIdx: nat, release: Option<nat>, dateFilter: Option<DateFilter>)
    : (items: seq<SpecItem>)
    ensures |items| <= |rows|
    ensures items == [] <==> forall i :: 0 <= i < |rows| ==> !Selected(rows[i], nameIdx, dateIdx, release, dateFilter)
  {
    Somes(Candidates(rows, nameIdx, dateIdx, release, dateFilter))
  }

  /**
   * Every intended item comes from a kept row, so it has the release asked
   * for and, under a date filter, the year and month asked for.
   */
  lemma IntendedItemsMatchFilters(rows: seq<Row>, nameIdx: nat, dateIdx: nat, release: Option<nat>,
                                  dateFilter: Option<DateFilter>, item: SpecItem)
    requires item in IntendedSelection(rows, nameIdx, dateIdx, release, dateFilter)
    ensures release.None? || item.version.major == release.value
    ensures dateFilter.None? || DateMatches(item.date, dateFilter.value)
    ensures exists i :: 0 <= i < |rows| && Selected(rows[i], nameIdx, dateIdx, release, dateFilter)
                                        && item == ItemOf(rows[i], nameIdx, dateIdx, release)
  {
    var cs := Candidates(rows, nameIdx, dateIdx, release, dateFilter);
    SomesComeFromXs(cs);
    var i :| 0 <= i < |cs| && cs[i] == Some(item);
    assert Candidate(rows[i], nameIdx, dateIdx, release, dateFilter) == Some(item);
  }

  /** The intended selection of two runs of rows is the selection of each, one after the other. */
  lemma IntendedSelectionOfConcat(a: seq<Row>, b: seq<Row>, nameIdx: nat, dateIdx: nat,
                                  release: Option<nat>, dateFilter: Option<DateFilter>)
    ensures IntendedSelection(a + b, nameIdx, dateIdx, release, dateFilter)
            == IntendedSelection(a, nameIdx, dateIdx, release, dateFilter)
               + IntendedSelection(b, nameIdx, dateIdx, release, dateFilter)
  {
    CandidatesOfConcat(a, b, nameIdx, dateIdx, release, dateFilter);
    SomesOfConcat(Candidates(a, nameIdx, dateIdx, release, dateFilter), Candidates(b, nameIdx, dateIdx, release, dateFilter));
  }

  /**
   * A single row that passes every filter is listed as exactly its item:
   * its link's URL, its date and the version of its file name. The loop as
   * written panics on that same row instead.
   */
  lemma SingleMatchingRow(row: Row, nameIdx: nat, dateIdx: nat, release: Option<nat>, dateFilter: Option<DateFilter>)
    requires Selected(row, nameIdx, dateIdx, release, dateFilter)
    ensures var items := IntendedSelection([row], nameIdx, dateIdx, release, dateFilter);
            && |items| == 1
            && items[0].url == row.cells[nameIdx].link.value.href
            && items[0].date == row.cells[dateIdx].date.value
            && Some(items[0].version) == ParseVersion(row.cells[nameIdx].link.value.text)
    ensures RowsOutcome([row], nameIdx, dateIdx, release) == Aborted(0)
  {
    var cs := Candidates([row], nameIdx, dateIdx, release, dateFilter);
    assert cs == [Some(ItemOf(row, nameIdx, dateIdx, release))];
    assert cs[..0] == [];
  }

  /** A row whose date cell does not parse is left out of the intended list, and no error is raised. */
  lemma MalformedDateIsSkipped(before: seq<Row>, row: Row, after: seq<Row>, nameIdx: nat, dateIdx: nat,
                               release: Option<nat>, dateFilter: Option<DateFilter>)
    requires |row.cells| > dateIdx && row.cells[dateIdx].date.None?
    ensures IntendedSelection(before + [row] + after, nameIdx, dateIdx, release, dateFilter)
            == IntendedSelection(before + after, nameIdx, dateIdx, release, dateFilter)
  {
    var cb := Candidates(before, nameIdx, dateIdx, release, dateFilter);
    var ca := Candidates(after, nameIdx, dateIdx, release, dateFilter);
    CandidatesOfConcat(before, [row], nameIdx, dateIdx, release, dateFilter);
    CandidatesOfConcat(before + [row], after, nameIdx, dateIdx, release, dateFilter);
    CandidatesOfConcat(before, after, nameIdx, dateIdx, release, dateFilter);
    var skipped: seq<Option<SpecItem>> := [None];
    assert Candidates([row], nameIdx, dateIdx, release, dateFilter) == skipped;
    SomesOfConcat(cb, skipped);
    SomesOfConcat(cb + skipped, ca);
    SomesOfConcat(cb, ca);
    assert Somes(skipped) == [];
  }

  /**
   * The loop as written and the intended loop without a date filter agree
   * on whether anything is found: `Ok` (necessarily empty) comes back
   * exactly when the intended list is empty, and otherwise the panic
   * happens at the row whose item the intended list starts with.
   */
  lemma AsWrittenAbortsAtFirstIntendedItem(rows: seq<Row>, nameIdx: nat, dateIdx: nat, release: Option<nat>)
    ensures RowsOutcome(rows, nameIdx, dateIdx, release).Listed? <==> IntendedSelection(rows, nameIdx, dateIdx, release, None) == []
    ensures RowsOutcome(rows, nameIdx, dateIdx, release).Aborted? ==>
              var i := RowsOutcome(rows, nameIdx, dateIdx, release).row;
              IntendedSelection(rows, nameIdx, dateIdx, release, None)[0] == ItemOf(rows[i], nameIdx, dateIdx, release)
  {
    var cs := Candidates(rows, nameIdx, dateIdx, release, None);
    if FirstSome(cs).Some? {
      SomesStartAtFirstSome(cs);
    }
  }
}

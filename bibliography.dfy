/**
 * Year and language extraction of `get_book_metadata` (gutenberg/crawl.py).  The HTML parser
 * is a parameter: it yields the rows of the `bibrec` table, or nothing when there is none.
 */
module Bibliography {
  import opened Wrappers
  import opened Strings
  import opened Transport
  import Locator

  /** One `<tr>`: the text of its `<th>` and of its `<td>`, when present. */
  datatype Row = Row(header: Option<string>, cell: Option<string>)

  datatype Metadata = Metadata(year: string, language: string)

  const Unknown := "Unknown"
  const Defaults := Metadata(Unknown, Unknown)

  /** `soup.find('table', class_='bibrec')` and its rows, for a page's text. */
  type BibParser = string -> Option<seq<Row>>

  function CatalogUrl(id: string): string {
    Locator.Host + "/ebooks/" + id
  }

  /** Python's `\d`, taken as the ASCII digits. */
  predicate IsDigit(c: char) {
    '0' <= c <= '9'
  }

  predicate FourDigitsAt(s: string, i: nat) {
    i + 4 <= |s| && IsDigit(s[i]) && IsDigit(s[i + 1]) && IsDigit(s[i + 2]) && IsDigit(s[i + 3])
  }

  /** `re.search(r'\d{4}', s[from..])`: where the leftmost run of four digits starts. */
  function FirstFourDigitsFrom(s: string, from: nat): (r: Option<nat>)
    ensures r.Some? ==> from <= r.value && FourDigitsAt(s, r.value)
    ensures r.Some? ==> forall k :: from <= k < r.value ==> !FourDigitsAt(s, k)
    ensures r.None? ==> forall k :: from <= k ==> !FourDigitsAt(s, k)
    decreases |s| - from
  {
    if from + 4 > |s| then None
    else if FourDigitsAt(s, from) then Some(from)
    else FirstFourDigitsFrom(s, from + 1)
  }

  /** `re.search(r'\d{4}', s).group(0)`, or nothing when there is no match. */
  function YearIn(s: string): (r: Option<string>)
    ensures r.Some? ==> IsYear(r.value)
    ensures r.Some? <==> exists i: nat :: FourDigitsAt(s, i)
    ensures r.Some? ==>
      exists i: nat :: FourDigitsAt(s, i) && r.value == s[i..i + 4] && forall k :: 0 <= k < i ==> !FourDigitsAt(s, k)
  {
    match FirstFourDigitsFrom(s, 0)
    case Some(i) => Some(s[i..i + 4])
    case None => None
  }

  predicate IsYear(y: string) {
    |y| == 4 && IsDigit(y[0]) && IsDigit(y[1]) && IsDigit(y[2]) && IsDigit(y[3])
  }

  function HeaderText(row: Row): string { row.header.GetOr("") }
  function CellText(row: Row): string { row.cell.GetOr("") }

  /** A "Release Date" row whose cell holds a year: the only rows that change the year. */
  predicate SetsYear(row: Row) {
    Contains(HeaderText(row), "Release Date") && YearIn(CellText(row)).Some?
  }

  predicate SetsLanguage(row: Row) {
    Contains(HeaderText(row), "Language")
  }

  /** One iteration of the row loop. */
  function ApplyRow(m: Metadata, row: Row): Metadata {
    var td := CellText(row);
    var m1 := if SetsYear(row) then m.(year := YearIn(td).value) else m;
    if SetsLanguage(row) then m1.(language := Strip(td)) else m1
  }

  function ApplyRows(m: Metadata, rows: seq<Row>): Metadata {
    if rows == [] then m else ApplyRow(ApplyRows(m, rows[..|rows| - 1]), rows[|rows| - 1])
  }

  /** Without a "Release Date" row holding four digits the year is unchanged. */
  lemma {:induction false} YearUnchanged(m: Metadata, rows: seq<Row>)
    requires forall j :: 0 <= j < |rows| ==> !SetsYear(rows[j])
    ensures ApplyRows(m, rows).year == m.year
  {
    if rows != [] {
      var front := rows[..|rows| - 1];
      assert forall j :: 0 <= j < |front| ==> front[j] == rows[j];
      YearUnchanged(m, front);
    }
  }

  /** Otherwise the year comes from the last such row: later rows overwrite earlier ones. */
  lemma {:induction false} YearFromLastRow(m: Metadata, rows: seq<Row>, j: nat)
    requires j < |rows| && SetsYear(rows[j])
    requires forall k :: j < k < |rows| ==> !SetsYear(rows[k])
    ensures ApplyRows(m, rows).year == YearIn(CellText(rows[j])).value
  {
    if j < |rows| - 1 {
      var front := rows[..|rows| - 1];
      assert forall k :: 0 <= k < |front| ==> front[k] == rows[k];
      YearFromLastRow(m, front, j);
    }
  }

  /** Without a "Language" row the language is unchanged. */
  lemma {:induction false} LanguageUnchanged(m: Metadata, rows: seq<Row>)
    requires forall j :: 0 <= j < |rows| ==> !SetsLanguage(rows[j])
    ensures ApplyRows(m, rows).language == m.language
  {
    if rows != [] {
      var front := rows[..|rows| - 1];
      assert forall j :: 0 <= j < |front| ==> front[j] == rows[j];
      LanguageUnchanged(m, front);
    }
  }

  /** Otherwise the language is the stripped cell of the last "Language" row (a missing cell is ""). */
  lemma {:induction false} LanguageFromLastRow(m: Metadata, rows: seq<Row>, j: nat)
    requires j < |rows| && SetsLanguage(rows[j])
    requires forall k :: j < k < |rows| ==> !SetsLanguage(rows[k])
    ensures ApplyRows(m, rows).language == Strip(CellText(rows[j]))
  {
    if j < |rows| - 1 {
      var front := rows[..|rows| - 1];
      assert forall k :: 0 <= k < |front| ==> front[k] == rows[k];
      LanguageFromLastRow(m, front, j);
    }
  }

  lemma ApplyRowYear(m: Metadata, row: Row)
    ensures ApplyRow(m, row).year == if SetsYear(row) then YearIn(CellText(row)).value else m.year
  {
  }

  /** The year is "Unknown" or four digits, whatever the rows. */
  lemma {:induction false} YearIsFourDigits(rows: seq<Row>)
    ensures var y := ApplyRows(Defaults, rows).year; y == Unknown || IsYear(y)
  {
    if rows != [] {
      YearIsFourDigits(rows[..|rows| - 1]);
      ApplyRowYear(ApplyRows(Defaults, rows[..|rows| - 1]), rows[|rows| - 1]);
    }
  }

  /** What `get_book_metadata(session, book_id)` returns. */
  function MetadataOf(net: Network, parse: BibParser, id: string): Metadata {
    var text := Fetched(net, CatalogUrl(id));
    if !HasText(text) then Defaults
    else match parse(text.value)
      case None => Defaults
      case Some(rows) => ApplyRows(Defaults, rows)
  }

  /** The row loop of `get_book_metadata`, updating the `metadata` dictionary in place. */
  method GetBookMetadata(net: Network, parse: BibParser, id: string) returns (metadata: Metadata)
    ensures metadata == MetadataOf(net, parse, id)
  {
    metadata := Defaults;
    var text, sleeps, attempts := FetchText(net, CatalogUrl(id));
    if HasText(text) {
      var table := parse(text.value);
      if table.Some? {
        var rows := table.value;
        for k := 0 to |rows|
          invariant metadata == ApplyRows(Defaults, rows[..k])
        {
          var th := HeaderText(rows[k]);
          var td := CellText(rows[k]);
          if Contains(th, "Release Date") {
            var yearMatch := YearIn(td);
            if yearMatch.Some? {
              metadata := metadata.(year := yearMatch.value);
            }
          }
          if Contains(th, "Language") {
            metadata := metadata.(language := Strip(td));
          }
          assert rows[..k + 1][..k] == rows[..k];
        }
        assert rows[..|rows|] == rows;
      }
    }
  }
}

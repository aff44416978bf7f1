/**
 * The per-book unit of work of `download_books` (gutenberg/crawl.py): resolve metadata, keep
 * only English books, then search for content and build the record.
 */
module Orchestrator {
  import opened Wrappers
  import opened Strings
  import opened Transport
  import opened Locator
  import opened Bibliography

  /** One `li.booklink` entry: its link target and the `span.title` / `span.subtitle` texts if present. */
  datatype Listing = Listing(href: string, title: Option<string>, subtitle: Option<string>)

  datatype BookRecord = BookRecord(id: string, title: string, author: string, year: string, text: string)

  /** `book.a['href'].split('/')[-1]`. */
  function BookId(href: string): string {
    LastSegment(href)
  }

  /** `language.lower() == 'english'`. */
  predicate IsEnglish(language: string) {
    AsciiLower(language) == "english"
  }

  lemma EnglishIff(language: string)
    ensures IsEnglish(language) <==>
            |language| == 7 &&
            forall i :: 0 <= i < 7 ==> language[i] == "english"[i] || language[i] == "ENGLISH"[i]
  {
    LowerEqualsIff(language, "english");
    assert forall i :: 0 <= i < 7 ==> "ENGLISH"[i] as int == "english"[i] as int - 32;
  }

  /** What `download_books(session, book, progress)` returns. */
  function RecordFor(net: Network, parse: BibParser, listing: Listing): Option<BookRecord> {
    var id := BookId(listing.href);
    var metadata := MetadataOf(net, parse, id);
    if !IsEnglish(metadata.language) then None
    else match ContentOf(net, id)
      case None => None
      case Some(text) =>
        Some(BookRecord(id, listing.title.GetOr("No Title"), listing.subtitle.GetOr("Unknown Author"),
                        metadata.year, text))
  }

  /** A record is produced iff the catalog language is English (in any case) and some candidate URL yields non-empty text. */
  lemma RecordForWhen(net: Network, parse: BibParser, listing: Listing)
    ensures var id := BookId(listing.href);
      RecordFor(net, parse, listing).Some? <==>
        IsEnglish(MetadataOf(net, parse, id).language) &&
        exists k :: 0 <= k < |CandidateUrls(id)| && HasText(Fetched(net, CandidateUrls(id)[k]))
  {
    ContentOfSpec(net, BookId(listing.href));
  }

  /** A record carries the content found, the ID, the defaulted title and author, and the catalog year. */
  lemma RecordForFields(net: Network, parse: BibParser, listing: Listing)
    ensures var id := BookId(listing.href);
      var r := RecordFor(net, parse, listing);
      r.Some? ==>
        && r.value.id == id
        && r.value.title == (if listing.title.Some? then listing.title.value else "No Title")
        && r.value.author == (if listing.subtitle.Some? then listing.subtitle.value else "Unknown Author")
        && r.value.year == MetadataOf(net, parse, id).year
        && r.value.text != ""
        && Some(r.value.text) == ContentOf(net, id)
  {
    ContentOfSpec(net, BookId(listing.href));
  }

  /**
   * A record is produced iff the catalog language is English (in any case) and some candidate
   * URL yields non-empty text; it then carries that text, the ID, the defaulted title and
   * author, and the catalog year.
   */
  lemma RecordForSpec(net: Network, parse: BibParser, listing: Listing)
    ensures var id := BookId(listing.href);
      var metadata := MetadataOf(net, parse, id);
      var r := RecordFor(net, parse, listing);
      && (r.Some? <==> IsEnglish(metadata.language) &&
                       exists k :: 0 <= k < |CandidateUrls(id)| && HasText(Fetched(net, CandidateUrls(id)[k])))
      && (r.Some? ==>
            && r.value.id == id
            && r.value.title == (if listing.title.Some? then listing.title.value else "No Title")
            && r.value.author == (if listing.subtitle.Some? then listing.subtitle.value else "Unknown Author")
            && r.value.year == metadata.year
            && r.value.text != ""
            && Some(r.value.text) == ContentOf(net, id))
  {
    RecordForWhen(net, parse, listing);
    RecordForFields(net, parse, listing);
  }

  lemma RecordIdIsBookId(net: Network, parse: BibParser, listing: Listing)
    ensures RecordFor(net, parse, listing).Some? ==> RecordFor(net, parse, listing).value.id == BookId(listing.href)
  {
  }

  /** A book whose catalog page could not be fetched has language "Unknown" and is dropped. */
  lemma UnfetchedCatalogIsDropped(net: Network, parse: BibParser, listing: Listing)
    requires !HasText(Fetched(net, CatalogUrl(BookId(listing.href))))
    ensures RecordFor(net, parse, listing) == None
  {
    var id := BookId(listing.href);
    assert MetadataOf(net, parse, id) == Defaults;
    assert AsciiLower(Unknown)[0] == 'u';
    assert !IsEnglish(Defaults.language);
  }

  /**
   * `download_books`: the content search runs only for English books (`probed` is empty
   * otherwise).
   */
  method DownloadBook(net: Network, parse: BibParser, listing: Listing)
    returns (record: Option<BookRecord>, probed: seq<string>)
    ensures record == RecordFor(net, parse, listing)
    ensures !IsEnglish(MetadataOf(net, parse, BookId(listing.href)).language) ==> probed == []
    ensures probed <= CandidateUrls(BookId(listing.href))
  {
    var id := BookId(listing.href);
    var metadata := GetBookMetadata(net, parse, id);
    probed := [];
    if !IsEnglish(metadata.language) {
      assert RecordFor(net, parse, listing) == None;
      return None, probed;
    }
    var title := if listing.title.Some? then listing.title.value else "No Title";
    var author := if listing.subtitle.Some? then listing.subtitle.value else "Unknown Author";
    var text;
    text, probed := GetBookData(net, id);
    assert ContentOf(net, id) == text;
    if HasText(text) {
      record := Some(BookRecord(id, title, author, metadata.year, text.value));
      assert IsEnglish(MetadataOf(net, parse, id).language);
      assert ContentOf(net, id).Some?;
      assert title == listing.title.GetOr("No Title");
      assert author == listing.subtitle.GetOr("Unknown Author");
      assert RecordFor(net, parse, listing) == Some(BookRecord(id, title, author, metadata.year, ContentOf(net, id).value));
      assert record == RecordFor(net, parse, listing);
    } else {
      FirstHitSpec(net, CandidateUrls(id));
      assert text == None;
      record := None;
      assert record == RecordFor(net, parse, listing);
    }
  }
}

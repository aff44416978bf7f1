/**
 * `save_texts_to_files` (gutenberg/tsvtotxt.py): one text file per table row, named after the
 * book's ID and a sanitised title. Python's `str.isalnum` is a parameter; writing a file is
 * recorded as a `Write` and each message printed as a `Report`.
 */
module TextFiles {
  import opened Wrappers
  import opened Strings
  import opened Orchestrator

  const MaxTitle := 50
  const Directory := "texts"
  const Punctuation := " _.,"

  type AlnumTest = char -> bool

  predicate Allowed(isAlnum: AlnumTest, c: char) {
    isAlnum(c) || c in Punctuation
  }

  predicate AllAllowed(isAlnum: AlnumTest, s: string) {
    forall i :: 0 <= i < |s| ==> Allowed(isAlnum, s[i])
  }

  /** `[c for c in title if c.isalnum() or c in " _.,"]`, joined. */
  function KeepAllowed(isAlnum: AlnumTest, title: string): string {
    if title == [] then []
    else
      var front, c := title[..|title| - 1], title[|title| - 1];
      if Allowed(isAlnum, c) then KeepAllowed(isAlnum, front) + [c] else KeepAllowed(isAlnum, front)
  }

  /** The kept characters, cut to their first 50 (a slice past the end keeps everything). */
  function SanitizeTitle(isAlnum: AlnumTest, title: string): string {
    var kept := KeepAllowed(isAlnum, title);
    if |kept| <= MaxTitle then kept else kept[..MaxTitle]
  }

  lemma {:induction false} KeepAllowedSpec(isAlnum: AlnumTest, title: string)
    ensures var kept := KeepAllowed(isAlnum, title);
      && AllAllowed(isAlnum, kept)
      && IsSubsequence(kept, title)
  {
    if title != [] {
      var front := title[..|title| - 1];
      KeepAllowedSpec(isAlnum, front);
      var kept := KeepAllowed(isAlnum, title);
      if Allowed(isAlnum, title[|title| - 1]) {
        assert kept[..|kept| - 1] == KeepAllowed(isAlnum, front);
      }
    }
  }

  /** Filtering a concatenation is filtering each part: every allowed character is kept, in place. */
  lemma {:induction false} KeepAllowedSplit(isAlnum: AlnumTest, a: string, b: string)
    ensures KeepAllowed(isAlnum, a + b) == KeepAllowed(isAlnum, a) + KeepAllowed(isAlnum, b)
  {
    if b == [] {
      assert a + b == a;
    } else {
      var front := b[..|b| - 1];
      assert (a + b)[..|a + b| - 1] == a + front;
      assert (a + b)[|a + b| - 1] == b[|b| - 1];
      KeepAllowedSplit(isAlnum, a, front);
    }
  }

  /** A title made only of allowed characters loses nothing. */
  lemma {:induction false} KeepAllowedKeeps(isAlnum: AlnumTest, title: string)
    requires AllAllowed(isAlnum, title)
    ensures KeepAllowed(isAlnum, title) == title
  {
    if title != [] {
      KeepAllowedKeeps(isAlnum, title[..|title| - 1]);
      assert title[..|title| - 1] + [title[|title| - 1]] == title;
    }
  }

  /**
   * The sanitised title is the first 50 kept characters: at most 50 long, only alphanumerics and
   * " _.,", and what it keeps appears in the title in the same order.
   */
  lemma SanitizeTitleSpec(isAlnum: AlnumTest, title: string)
    ensures var r := SanitizeTitle(isAlnum, title);
      var kept := KeepAllowed(isAlnum, title);
      && |r| <= MaxTitle
      && |r| == (if |kept| <= MaxTitle then |kept| else MaxTitle)
      && r == kept[..|r|]
      && AllAllowed(isAlnum, r)
      && IsSubsequence(r, title)
  {
    var kept := KeepAllowed(isAlnum, title);
    KeepAllowedSpec(isAlnum, title);
    var r := SanitizeTitle(isAlnum, title);
    SubsequencePrefix(kept, title, |r|);
    assert kept[..|kept|] == kept;
  }

  /** Sanitising a sanitised title changes nothing. */
  lemma SanitizeTitleIdempotent(isAlnum: AlnumTest, title: string)
    ensures SanitizeTitle(isAlnum, SanitizeTitle(isAlnum, title)) == SanitizeTitle(isAlnum, title)
  {
    var r := SanitizeTitle(isAlnum, title);
    SanitizeTitleSpec(isAlnum, title);
    KeepAllowedKeeps(isAlnum, r);
  }

  /** `os.path.join(dir, name)` on POSIX: an absolute name replaces the directory. */
  function JoinPath(dir: string, name: string): string {
    if name != [] && name[0] == '/' then name
    else if dir == [] || dir[|dir| - 1] == '/' then dir + name
    else dir + "/" + name
  }

  /** `os.path.join('texts', f"{row['ID']}_{title}.txt")`. */
  function FilePath(isAlnum: AlnumTest, id: string, title: string): string {
    JoinPath(Directory, id + "_" + SanitizeTitle(isAlnum, title) + ".txt")
  }

  /** Unless the ID starts with '/', the file is `texts/<ID>_<title>.txt`. */
  lemma FilePathLayout(isAlnum: AlnumTest, id: string, title: string)
    requires id == [] || id[0] != '/'
    ensures FilePath(isAlnum, id, title) == "texts/" + id + "_" + SanitizeTitle(isAlnum, title) + ".txt"
  {
    var name := id + "_" + SanitizeTitle(isAlnum, title) + ".txt";
    assert name[0] == (if id == [] then '_' else id[0]);
  }

  /**
   * An ID taken from a catalogue link has no '/', so (with '/' not alphanumeric) the file lands
   * directly in `texts`: no '/' follows the directory's.
   */
  lemma CrawledBookFileInDirectory(isAlnum: AlnumTest, href: string, title: string)
    requires !isAlnum('/')
    ensures var path := FilePath(isAlnum, BookId(href), title);
      && path[..6] == "texts/"
      && forall i :: 6 <= i < |path| ==> path[i] != '/'
  {
    var id := BookId(href);
    LastSegmentSpec(href);
    assert forall i :: 0 <= i < |id| ==> id[i] != '/';
    FilePathLayout(isAlnum, id, title);
    var t := SanitizeTitle(isAlnum, title);
    SanitizeTitleSpec(isAlnum, title);
    assert !Allowed(isAlnum, '/');
    var path := FilePath(isAlnum, id, title);
    forall i | 6 <= i < |path| ensures path[i] != '/' {
      if i < 6 + |id| {
        assert path[i] == id[i - 6];
      } else if i == 6 + |id| {
        assert path[i] == '_';
      } else if i < 7 + |id| + |t| {
        assert path[i] == t[i - 7 - |id|];
      } else {
        assert path[i] == ".txt"[i - 7 - |id| - |t|];
      }
    }
  }

  // ---------------------------------------------------------------------------------------------
  // The row loop

  /** A row of the table; a title or text that is not a string (a missing cell) is `None`. */
  datatype TableRow = TableRow(id: string, title: Option<string>, text: Option<string>)

  /** The file opened for writing and what ends up in it. */
  datatype Write = Write(path: string, content: string)

  /** "Saved <path>" or "Failed to save <path>: ..."; a failure may have no path to name. */
  datatype Report = Saved(path: string) | Failed(failedPath: Option<string>)

  /**
   * One row on its own. Without a title the name cannot be built and nothing is opened. With a
   * title the file is opened (and so created) before the text is written; a text that is not a
   * string makes the write fail and leaves the file empty.
   */
  function RowWrites(isAlnum: AlnumTest, row: TableRow): seq<Write> {
    match row.title
    case None => []
    case Some(title) => [Write(FilePath(isAlnum, row.id, title), row.text.GetOr(""))]
  }

  function RowReport(isAlnum: AlnumTest, row: TableRow): Report {
    match row.title
    case None => Failed(None)
    case Some(title) =>
      var path := FilePath(isAlnum, row.id, title);
      if row.text.Some? then Saved(path) else Failed(Some(path))
  }

  /** Every row handled on its own, in table order. */
  function Writes(isAlnum: AlnumTest, rows: seq<TableRow>): seq<Write> {
    if rows == [] then [] else Writes(isAlnum, rows[..|rows| - 1]) + RowWrites(isAlnum, rows[|rows| - 1])
  }

  function Reports(isAlnum: AlnumTest, rows: seq<TableRow>): seq<Report> {
    if rows == [] then [] else Reports(isAlnum, rows[..|rows| - 1]) + [RowReport(isAlnum, rows[|rows| - 1])]
  }

  /** One report per row, the i-th about the i-th row alone: no row's failure affects another. */
  lemma {:induction false} ReportsSpec(isAlnum: AlnumTest, rows: seq<TableRow>)
    ensures var reports := Reports(isAlnum, rows);
      && |reports| == |rows|
      && forall i :: 0 <= i < |rows| ==> reports[i] == RowReport(isAlnum, rows[i])
  {
    if rows != [] {
      var front := rows[..|rows| - 1];
      ReportsSpec(isAlnum, front);
      forall i | 0 <= i < |front| ensures rows[i] == front[i] { }
    }
  }

  /** The files of a table are those of its first part followed by those of the rest. */
  lemma {:induction false} WritesAppend(isAlnum: AlnumTest, a: seq<TableRow>, b: seq<TableRow>)
    ensures Writes(isAlnum, a + b) == Writes(isAlnum, a) + Writes(isAlnum, b)
  {
    if b == [] {
      assert a + b == a;
    } else {
      var front := b[..|b| - 1];
      assert (a + b)[..|a + b| - 1] == a + front;
      assert (a + b)[|a + b| - 1] == b[|b| - 1];
      WritesAppend(isAlnum, a, front);
    }
  }

  /**
   * Every row with a title gets its file, and only those rows do: the i-th file written is named
   * after the i-th titled row and holds its text (nothing when the text is not a string).
   */
  lemma {:induction false} WritesCount(isAlnum: AlnumTest, rows: seq<TableRow>)
    ensures var t := TitledRows(rows);
      var writes := Writes(isAlnum, rows);
      && |writes| == |t|
      && forall i :: 0 <= i < |t| ==>
           t[i].title.Some? && writes[i] == Write(FilePath(isAlnum, t[i].id, t[i].title.value), t[i].text.GetOr(""))
  {
    if rows != [] {
      WritesCount(isAlnum, rows[..|rows| - 1]);
    }
  }

  function TitledRows(rows: seq<TableRow>): seq<TableRow> {
    if rows == [] then []
    else TitledRows(rows[..|rows| - 1]) + (if rows[|rows| - 1].title.Some? then [rows[|rows| - 1]] else [])
  }

  /** The loop with each row's failure confined to that row. */
  method SaveTexts(isAlnum: AlnumTest, rows: seq<TableRow>) returns (writes: seq<Write>, reports: seq<Report>)
    ensures writes == Writes(isAlnum, rows) && reports == Reports(isAlnum, rows)
  {
    writes, reports := [], [];
    for k := 0 to |rows|
      invariant writes == Writes(isAlnum, rows[..k]) && reports == Reports(isAlnum, rows[..k])
    {
      var row := rows[k];
      assert rows[..k + 1][..k] == rows[..k];
      match row.title {
        case None =>
          reports := reports + [Failed(None)];
        case Some(title) =>
          var path := FilePath(isAlnum, row.id, title);
          match row.text {
            case Some(text) =>
              writes := writes + [Write(path, text)];
              reports := reports + [Saved(path)];
            case None =>
              writes := writes + [Write(path, "")];
              reports := reports + [Failed(Some(path))];
          }
      }
    }
    assert rows[..|rows|] == rows;
  }

  // ---------------------------------------------------------------------------------------------
  // The loop as written

  /** The `file_path` variable: the path built for the latest row that had a title, if any. */
  function LatestPath(isAlnum: AlnumTest, rows: seq<TableRow>): Option<string> {
    if rows == [] then None
    else
      match rows[|rows| - 1].title
      case Some(title) => Some(FilePath(isAlnum, rows[|rows| - 1].id, title))
      case None => LatestPath(isAlnum, rows[..|rows| - 1])
  }

  datatype Run = Run(writes: seq<Write>, reports: seq<Report>, aborted: bool)

  /**
   * The handler formats `file_path`. After a row with a title it names that earlier row's file;
   * before any, the name is unbound and the `UnboundLocalError` raised in the handler ends the
   * whole function.
   */
  function RunAsWritten(isAlnum: AlnumTest, rows: seq<TableRow>): Run {
    if rows == [] then Run([], [], false)
    else
      var front, row := rows[..|rows| - 1], rows[|rows| - 1];
      var r := RunAsWritten(isAlnum, front);
      if r.aborted then r
      else if row.title.None? then
        match LatestPath(isAlnum, front)
        case None => r.(aborted := true)
        case Some(stale) => r.(reports := r.reports + [Failed(Some(stale))])
      else Run(r.writes + RowWrites(isAlnum, row), r.reports + [RowReport(isAlnum, row)], false)
  }

  /**
   * The run aborts exactly when the first row has no title, and then nothing at all is saved;
   * otherwise every row is processed, the files are those of the row-by-row loop, and only the
   * reports of rows without a title differ.
   */
  lemma {:induction false} RunAsWrittenSpec(isAlnum: AlnumTest, rows: seq<TableRow>)
    ensures var r := RunAsWritten(isAlnum, rows);
      && (r.aborted <==> |rows| > 0 && rows[0].title.None?)
      && (r.aborted ==> r.writes == [] && r.reports == [])
      && (!r.aborted ==> r.writes == Writes(isAlnum, rows) && |r.reports| == |rows|)
      && (|rows| > 0 && rows[0].title.Some? ==> LatestPath(isAlnum, rows).Some?)
  {
    if rows != [] {
      var front := rows[..|rows| - 1];
      RunAsWrittenSpec(isAlnum, front);
      if front != [] {
        assert front[0] == rows[0];
      }
    }
  }

  /** Without a title, a row that is not the first is reported under an earlier row's file name. */
  lemma {:induction false} StaleReport(isAlnum: AlnumTest, rows: seq<TableRow>, i: nat)
    requires !RunAsWritten(isAlnum, rows).aborted
    requires i < |rows|
    ensures var r := RunAsWritten(isAlnum, rows);
      |r.reports| == |rows| &&
      r.reports[i] == (if rows[i].title.Some? then RowReport(isAlnum, rows[i]) else Failed(LatestPath(isAlnum, rows[..i])))
  {
    var front := rows[..|rows| - 1];
    RunAsWrittenSpec(isAlnum, rows);
    RunAsWrittenSpec(isAlnum, front);
    if front != [] {
      assert front[0] == rows[0];
    }
    assert !RunAsWritten(isAlnum, front).aborted;
    if i < |front| {
      StaleReport(isAlnum, front, i);
      assert front[i] == rows[i] && front[..i] == rows[..i];
    } else {
      assert front == rows[..i];
    }
  }

  lemma {:induction false} AbortedStays(isAlnum: AlnumTest, rows: seq<TableRow>, k: nat)
    requires k <= |rows| && RunAsWritten(isAlnum, rows[..k]).aborted
    ensures RunAsWritten(isAlnum, rows) == RunAsWritten(isAlnum, rows[..k])
    decreases |rows| - k
  {
    if k < |rows| {
      assert rows[..k + 1][..k] == rows[..k];
      AbortedStays(isAlnum, rows, k + 1);
    } else {
      assert rows[..k] == rows;
    }
  }

  /** The loop of `save_texts_to_files` as it stands, `file_path` and all. */
  method SaveTextsAsWritten(isAlnum: AlnumTest, rows: seq<TableRow>)
    returns (writes: seq<Write>, reports: seq<Report>, aborted: bool)
    ensures Run(writes, reports, aborted) == RunAsWritten(isAlnum, rows)
  {
    writes, reports, aborted := [], [], false;
    var filePath: Option<string> := None;
    for k := 0 to |rows|
      invariant Run(writes, reports, false) == RunAsWritten(isAlnum, rows[..k])
      invariant filePath == LatestPath(isAlnum, rows[..k])
    {
      var row := rows[k];
      assert rows[..k + 1][..k] == rows[..k];
      match row.title {
        case None =>
          if filePath.None? {
            aborted := true;
            AbortedStays(isAlnum, rows, k + 1);
            return;
          }
          reports := reports + [Failed(filePath)];
        case Some(title) =>
          var path := FilePath(isAlnum, row.id, title);
          filePath := Some(path);
          match row.text {
            case Some(text) =>
              writes := writes + [Write(path, text)];
              reports := reports + [Saved(path)];
            case None =>
              writes := writes + [Write(path, "")];
              reports := reports + [Failed(Some(path))];
          }
      }
    }
    assert rows[..|rows|] == rows;
  }

  /** A first row without a title: the as-written loop saves nothing, the corrected one saves the second book. */
  lemma FirstRowWithoutTitle(isAlnum: AlnumTest)
    requires isAlnum('B')
    ensures var rows := [TableRow("1", None, Some("a")), TableRow("2", Some("B"), Some("b"))];
      && RunAsWritten(isAlnum, rows) == Run([], [], true)
      && Writes(isAlnum, rows) == [Write("texts/2_B.txt", "b")]
  {
    var rows := [TableRow("1", None, Some("a")), TableRow("2", Some("B"), Some("b"))];
    assert rows[..1] == [rows[0]] && [rows[0]][..0] == [];
    RunAsWrittenSpec(isAlnum, rows);
    assert KeepAllowed(isAlnum, "B") == "B" by {
      assert "B"[..0] == [];
    }
    assert SanitizeTitle(isAlnum, "B") == "B";
    FilePathLayout(isAlnum, "2", "B");
    assert FilePath(isAlnum, "2", "B") == "texts/2_B.txt";
    assert Writes(isAlnum, rows[..1]) == [];
    assert Writes(isAlnum, rows) == Writes(isAlnum, rows[..1]) + RowWrites(isAlnum, rows[1]);
  }
}

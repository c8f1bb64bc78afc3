/** `generate_project_metadata_html_table`: a fixed header row, then one numbered
    row per record, with commit, branch and recent-activity highlighting. */
module HtmlTable {
  import opened Text
  import opened Calendar
  import opened Timestamps
  import opened Projects

  const TableOpen := "<table border='1' cellspacing='0'>"
  const TableClose := "</table>"

  /** The column labels of the header row, left to right. */
  const HeaderLabels: seq<string> := ["number", "path", "commits", "branches", "tags",
                                      "contributors", "forks", "repository size", "last activity date"]

  /** Commit counts above this are shown in green. */
  const CommitThreshold := 10000
  /** Branch counts above this are shown in red. */
  const BranchThreshold := 100

  function Cell(content: string): string
  {
    "<td>" + content + "</td>"
  }

  /** The cells of one row, left to right. */
  function Cells(contents: seq<string>): string
    decreases |contents|
  {
    if contents == [] then ""
    else Cells(contents[..|contents| - 1]) + Cell(contents[|contents| - 1])
  }

  function FontOpen(color: string): string
  {
    "<font color='" + color + "'>"
  }

  /** `text` shown in `color`. */
  function Colored(color: string, text: string): string
  {
    FontOpen(color) + text + "</font>"
  }

  /** The three wrappers the table uses, spelled out. */
  lemma FontTags(text: string)
    ensures Colored("green", text) == "<font color='green'>" + text + "</font>"
    ensures Colored("red", text) == "<font color='red'>" + text + "</font>"
    ensures Colored("blue", text) == "<font color='blue'>" + text + "</font>"
  {
  }

  /** Whether a cell's content is wrapped in a `<font>` of that color. */
  predicate IsColored(content: string, color: string)
  {
    FontOpen(color) <= content
  }

  function HeaderRow(): string
  {
    "<tr>" + Cells(HeaderLabels) + "</tr>"
  }

  /** The path cell: the path as a link to the repository's HTTP URL. */
  function PathLink(m: ProjectMetadata): string
  {
    "<a href='" + m.httpUrlToRepo + "'>" + m.pathWithNamespace + "</a>"
  }

  function CommitText(n: nat): string
  {
    if n > CommitThreshold then Colored("green", Decimal(n)) else Decimal(n)
  }

  function BranchText(n: nat): string
  {
    if n > BranchThreshold then Colored("red", Decimal(n)) else Decimal(n)
  }

  /** The date shown for a last-activity timestamp: the first ten characters of
      the converted time, which read as a date. */
  function ActivityDate(stamp: string): (d: string)
    requires WellFormedStamp(stamp)
    ensures IsDateLayout(d) && ValidDate(ParseDate(d))
    ensures ParseDate(d) == ParseDateTime(ConvertLastActivityAt(stamp)).date
  {
    var converted := ConvertLastActivityAt(stamp);
    ParseFormatDate(ParseDateTime(converted).date);
    converted[..DateLength]
  }

  /** A timestamp the last-activity cell can show: it converts, and `time.mktime`
      accepts the year of the converted date. */
  predicate RenderableStamp(stamp: string)
  {
    WellFormedStamp(stamp) && MktimeAccepts(ParseDateTime(ConvertLastActivityAt(stamp)).date)
  }

  function ActivityText(stamp: string, today: Date): string
    requires RenderableStamp(stamp) && ValidToday(today)
  {
    var d := ActivityDate(stamp);
    if WithinThirtyDays(d, today) then Colored("blue", d) else d
  }

  /** The records the table can be built from: every timestamp converts. */
  predicate Renderable(records: seq<ProjectMetadata>)
  {
    forall i :: 0 <= i < |records| ==> RenderableStamp(records[i].lastActivityAt)
  }

  /** The contents of the cells of row `number` for record `m`, whose last-activity
      cell shows `activity`; `sizeText` stands for `format(size / 2**20, '.1f')`. */
  function RowContents(number: nat, m: ProjectMetadata, activity: string, sizeText: nat -> string): seq<string>
  {
    [Decimal(number), PathLink(m), CommitText(m.commitCount), BranchText(m.branchCount),
     Decimal(m.tagCount), Decimal(m.contributorsCount), Decimal(m.forksCount),
     sizeText(m.repositorySize) + "M", activity]
  }

  function RowOf(number: nat, m: ProjectMetadata, activity: string, sizeText: nat -> string): string
  {
    "<tr>" + Cells(RowContents(number, m, activity, sizeText)) + "</tr>"
  }

  /** Row `number`, showing record `m` as of `today`. */
  function Row(number: nat, m: ProjectMetadata, today: Date, sizeText: nat -> string): string
    requires RenderableStamp(m.lastActivityAt) && ValidToday(today)
  {
    RowOf(number, m, ActivityText(m.lastActivityAt, today), sizeText)
  }

  /** The rows of `records`, numbered from 1. */
  function Rows(records: seq<ProjectMetadata>, today: Date, sizeText: nat -> string): string
    requires Renderable(records) && ValidToday(today)
    decreases |records|
  {
    if records == [] then ""
    else
      var n := |records|;
      Rows(records[..n - 1], today, sizeText) + Row(n, records[n - 1], today, sizeText)
  }

  function Table(records: seq<ProjectMetadata>, today: Date, sizeText: nat -> string): string
    requires Renderable(records) && ValidToday(today)
  {
    TableOpen + HeaderRow() + Rows(records, today, sizeText) + TableClose
  }

  lemma NineCells(a0: string, a1: string, a2: string, a3: string, a4: string,
                  a5: string, a6: string, a7: string, a8: string)
    ensures Cells([a0, a1, a2, a3, a4, a5, a6, a7, a8])
              == Cell(a0) + Cell(a1) + Cell(a2) + Cell(a3) + Cell(a4) + Cell(a5) + Cell(a6) + Cell(a7) + Cell(a8)
  {
    var t := [a0, a1, a2, a3, a4, a5, a6, a7, a8];
    assert Cells(t[..1]) == Cell(a0) by { assert t[..1][..0] == []; }
    assert Cells(t[..2]) == Cells(t[..1]) + Cell(a1) by { assert t[..2][..1] == t[..1]; }
    assert Cells(t[..3]) == Cells(t[..2]) + Cell(a2) by { assert t[..3][..2] == t[..2]; }
    assert Cells(t[..4]) == Cells(t[..3]) + Cell(a3) by { assert t[..4][..3] == t[..3]; }
    assert Cells(t[..5]) == Cells(t[..4]) + Cell(a4) by { assert t[..5][..4] == t[..4]; }
    assert Cells(t[..6]) == Cells(t[..5]) + Cell(a5) by { assert t[..6][..5] == t[..5]; }
    assert Cells(t[..7]) == Cells(t[..6]) + Cell(a6) by { assert t[..7][..6] == t[..6]; }
    assert Cells(t[..8]) == Cells(t[..7]) + Cell(a7) by { assert t[..8][..7] == t[..7]; }
    assert t[..9][..8] == t[..8] && t[..9] == t;
  }

  /** A row's cells are its nine cells, one after the other. */
  lemma RowCells(number: nat, m: ProjectMetadata, activity: string, sizeText: nat -> string)
    ensures Cells(RowContents(number, m, activity, sizeText))
         == Cell(Decimal(number)) + Cell(PathLink(m)) + Cell(CommitText(m.commitCount))
            + Cell(BranchText(m.branchCount)) + Cell(Decimal(m.tagCount)) + Cell(Decimal(m.contributorsCount))
            + Cell(Decimal(m.forksCount)) + Cell(sizeText(m.repositorySize) + "M") + Cell(activity)
  {
    NineCells(Decimal(number), PathLink(m), CommitText(m.commitCount), BranchText(m.branchCount),
              Decimal(m.tagCount), Decimal(m.contributorsCount), Decimal(m.forksCount),
              sizeText(m.repositorySize) + "M", activity);
  }

  /** The header row's cells are its nine labels, each in a cell. */
  lemma HeaderCells()
    ensures Cells(HeaderLabels) == Cell("number") + Cell("path") + Cell("commits") + Cell("branches")
              + Cell("tags") + Cell("contributors") + Cell("forks") + Cell("repository size")
              + Cell("last activity date")
  {
    NineCells("number", "path", "commits", "branches", "tags", "contributors", "forks",
              "repository size", "last activity date");
  }

  /** The last-activity cell's content, as the row loop builds it: the converted
      date, in blue when it is within the last thirty days. */
  method ActivityContent(stamp: string, today: Date) returns (content: string)
    requires RenderableStamp(stamp) && ValidToday(today)
    ensures content == ActivityText(stamp, today)
  {
    var lastActivityAt := ConvertLastActivityAt(stamp);
    var lastActivityAtDate := lastActivityAt[..DateLength];
    assert lastActivityAtDate == ActivityDate(stamp);
    FontTags(lastActivityAtDate);
    if WithinThirtyDays(lastActivityAtDate, today) {
      content := "<font color='blue'>" + lastActivityAtDate + "</font>";
    } else {
      content := lastActivityAtDate;
    }
  }

  /** One iteration of the `enumerate` loop of `generate_project_metadata_html_table`:
      the row of record `m`, numbered `number`, appended cell by cell. */
  method AppendRow(html: string, number: nat, m: ProjectMetadata, today: Date, sizeText: nat -> string)
    returns (result: string)
    requires RenderableStamp(m.lastActivityAt) && ValidToday(today)
    ensures result == html + Row(number, m, today, sizeText)
  {
    var activity := ActivityContent(m.lastActivityAt, today);
    result := AppendCells(html, number, m, activity, sizeText);
  }

  lemma Extend(html: string, row: string, cell: string)
    ensures html + row + cell == html + (row + cell)
  {
  }

  lemma Close(html: string, cells: string)
    ensures html + "<tr>" + cells + "</tr>" == html + ("<tr>" + cells + "</tr>")
  {
  }

  /** The cells of one row, given the content of its last-activity cell. */
  method AppendCells(html: string, number: nat, m: ProjectMetadata, activity: string, sizeText: nat -> string)
    returns (result: string)
    ensures result == html + RowOf(number, m, activity, sizeText)
  {
    FontTags(Decimal(m.commitCount));
    FontTags(Decimal(m.branchCount));
    // `cells` is what has been appended to `prefix` so far
    result := html + "<tr>";
    ghost var prefix := result;
    result := result + Cell(Decimal(number));
    ghost var cells := Cell(Decimal(number));
    var pathWithLink := "<a href='" + m.httpUrlToRepo + "'>" + m.pathWithNamespace + "</a>";
    Extend(prefix, cells, Cell(PathLink(m)));
    result, cells := result + Cell(pathWithLink), cells + Cell(PathLink(m));
    Extend(prefix, cells, Cell(CommitText(m.commitCount)));
    if m.commitCount > CommitThreshold {
      var greenStr := "<font color='green'>" + Decimal(m.commitCount) + "</font>";
      result := result + Cell(greenStr);
    } else {
      result := result + Cell(Decimal(m.commitCount));
    }
    cells := cells + Cell(CommitText(m.commitCount));
    Extend(prefix, cells, Cell(BranchText(m.branchCount)));
    if m.branchCount > BranchThreshold {
      var errorStr := "<font color='red'>" + Decimal(m.branchCount) + "</font>";
      result := result + Cell(errorStr);
    } else {
      result := result + Cell(Decimal(m.branchCount));
    }
    cells := cells + Cell(BranchText(m.branchCount));
    Extend(prefix, cells, Cell(Decimal(m.tagCount)));
    result, cells := result + Cell(Decimal(m.tagCount)), cells + Cell(Decimal(m.tagCount));
    Extend(prefix, cells, Cell(Decimal(m.contributorsCount)));
    result, cells := result + Cell(Decimal(m.contributorsCount)), cells + Cell(Decimal(m.contributorsCount));
    Extend(prefix, cells, Cell(Decimal(m.forksCount)));
    result, cells := result + Cell(Decimal(m.forksCount)), cells + Cell(Decimal(m.forksCount));
    var repositorySizeM := sizeText(m.repositorySize);
    Extend(prefix, cells, Cell(repositorySizeM + "M"));
    result, cells := result + Cell(repositorySizeM + "M"), cells + Cell(sizeText(m.repositorySize) + "M");
    Extend(prefix, cells, Cell(activity));
    result, cells := result + Cell(activity), cells + Cell(activity);
    RowCells(number, m, activity, sizeText);
    Close(html, cells);
    result := result + "</tr>";
  }

  lemma RowsSnoc(records: seq<ProjectMetadata>, i: nat, today: Date, sizeText: nat -> string)
    requires Renderable(records) && ValidToday(today) && i < |records|
    ensures Renderable(records[..i]) && Renderable(records[..i + 1])
    ensures Rows(records[..i + 1], today, sizeText)
              == Rows(records[..i], today, sizeText) + Row(i + 1, records[i], today, sizeText)
  {
    assert records[..i + 1][..i] == records[..i];
  }

  /** `generate_project_metadata_html_table`: the table is built by appending to one
      string, the header first, then each record's row in turn. */
  method RenderTable(records: seq<ProjectMetadata>, today: Date, sizeText: nat -> string) returns (html: string)
    requires Renderable(records) && ValidToday(today)
    ensures html == Table(records, today, sizeText)
  {
    html := TableOpen;
    html := html + "<tr>";
    // `header` is what has been appended to `prefix` so far
    ghost var prefix := html;
    html := html + Cell("number");
    ghost var header := Cell("number");
    Extend(prefix, header, Cell("path"));
    html, header := html + Cell("path"), header + Cell("path");
    Extend(prefix, header, Cell("commits"));
    html, header := html + Cell("commits"), header + Cell("commits");
    Extend(prefix, header, Cell("branches"));
    html, header := html + Cell("branches"), header + Cell("branches");
    Extend(prefix, header, Cell("tags"));
    html, header := html + Cell("tags"), header + Cell("tags");
    Extend(prefix, header, Cell("contributors"));
    html, header := html + Cell("contributors"), header + Cell("contributors");
    Extend(prefix, header, Cell("forks"));
    html, header := html + Cell("forks"), header + Cell("forks");
    Extend(prefix, header, Cell("repository size"));
    html, header := html + Cell("repository size"), header + Cell("repository size");
    Extend(prefix, header, Cell("last activity date"));
    html, header := html + Cell("last activity date"), header + Cell("last activity date");
    HeaderCells();
    Close(TableOpen, header);
    html := html + "</tr>";
    ghost var start := html;
    for i := 0 to |records|
      invariant Renderable(records[..i])
      invariant html == start + Rows(records[..i], today, sizeText)
    {
      RowsSnoc(records, i, today, sizeText);
      Extend(start, Rows(records[..i], today, sizeText), Row(i + 1, records[i], today, sizeText));
      html := AppendRow(html, i + 1, records[i], today, sizeText);
    }
    assert records[..|records|] == records;
    html := html + TableClose;
  }

  // ---------------------------------------------------------------------------
  // What a row shows
  // ---------------------------------------------------------------------------

  /** Digits are never taken for a `<font>` wrapper. */
  lemma {:induction false} DigitsNotColored(s: string, color: string)
    requires 1 <= |s| && IsDigit(s[0])
    ensures !IsColored(s, color)
  {
    assert FontOpen(color)[0] == '<';
  }

  /** A wrapped text is taken for a wrapper of its own color. */
  lemma ColoredIsColored(color: string, text: string)
    ensures IsColored(Colored(color, text), color)
  {
    assert Colored(color, text)[..|FontOpen(color)|] == FontOpen(color);
  }

  /** A count cell with a threshold shows the count, colored exactly above the threshold. */
  lemma {:induction false} ThresholdCell(n: nat, threshold: nat, color: string)
    ensures var text := if n > threshold then Colored(color, Decimal(n)) else Decimal(n);
            IsColored(text, color) <==> n > threshold
  {
    if n > threshold {
      ColoredIsColored(color, Decimal(n));
    } else {
      DigitsNotColored(Decimal(n), color);
    }
  }

  /** The last-activity cell is blue exactly when its date, as `time.mktime` reads
      its year, is within the window; from 1900 on that is the date itself. */
  lemma {:induction false} ActivityCell(stamp: string, today: Date)
    requires RenderableStamp(stamp) && ValidToday(today)
    ensures IsColored(ActivityText(stamp, today), "blue") <==>
              DayNumber(MktimeDate(ParseDateTime(ConvertLastActivityAt(stamp)).date)) > DayNumber(today) - WindowDays
    ensures ParseDateTime(ConvertLastActivityAt(stamp)).date.year >= StrftimeFirstDate.year ==>
              (IsColored(ActivityText(stamp, today), "blue") <==>
                 DayNumber(ParseDateTime(ConvertLastActivityAt(stamp)).date) > DayNumber(today) - WindowDays)
  {
    var date := ParseDateTime(ConvertLastActivityAt(stamp)).date;
    var d := ActivityDate(stamp);
    BlueWhenRecent(d, today);
    if date.year >= StrftimeFirstDate.year {
      assert MktimeDate(date) == date;
    }
  }

  /** A date cell is blue exactly when the date is recent. */
  lemma {:induction false} BlueWhenRecent(d: string, today: Date)
    requires IsDateLayout(d) && ValidDate(ParseDate(d)) && MktimeAccepts(ParseDate(d)) && ValidToday(today)
    ensures IsColored(if WithinThirtyDays(d, today) then Colored("blue", d) else d, "blue") <==>
              WithinThirtyDays(d, today)
  {
    if WithinThirtyDays(d, today) {
      ColoredIsColored("blue", d);
    } else {
      assert d[0] == d[..4][0];
      DigitsNotColored(d, "blue");
    }
  }

  /** Every row has one cell per header column; it is numbered, links the path to
      the repository, shows each count as its decimal value, colors the commit
      count green exactly above 10000, the branch count red exactly above 100, never
      colors the tag, contributor and fork counts, and ends with the last-activity
      cell (which `ActivityCell` describes). */
  lemma {:induction false} RowShows(number: nat, m: ProjectMetadata, activity: string, sizeText: nat -> string)
    ensures var cs := RowContents(number, m, activity, sizeText);
      && |cs| == |HeaderLabels|
      && AllDigits(cs[0]) && Value(cs[0]) == number
      && cs[1] == "<a href='" + m.httpUrlToRepo + "'>" + m.pathWithNamespace + "</a>"
      && cs[2] == (if m.commitCount > CommitThreshold then Colored("green", Decimal(m.commitCount))
                   else Decimal(m.commitCount))
      && cs[3] == (if m.branchCount > BranchThreshold then Colored("red", Decimal(m.branchCount))
                   else Decimal(m.branchCount))
      && (IsColored(cs[2], "green") <==> m.commitCount > CommitThreshold)
      && (IsColored(cs[3], "red") <==> m.branchCount > BranchThreshold)
      && (forall color :: !IsColored(cs[4], color) && !IsColored(cs[5], color) && !IsColored(cs[6], color))
      && Value(cs[4]) == m.tagCount && Value(cs[5]) == m.contributorsCount && Value(cs[6]) == m.forksCount
      && cs[8] == activity
  {
    var cs := RowContents(number, m, activity, sizeText);
    ThresholdCell(m.commitCount, CommitThreshold, "green");
    ThresholdCell(m.branchCount, BranchThreshold, "red");
    forall color
      ensures !IsColored(cs[4], color) && !IsColored(cs[5], color) && !IsColored(cs[6], color)
    {
      DigitsNotColored(cs[4], color);
      DigitsNotColored(cs[5], color);
      DigitsNotColored(cs[6], color);
    }
  }
}

# gitlab-ranking-list in Dafny

`gitlab-ranking-list.py` pages through every project a GitLab server lists. It
keeps one `ProjectMetadata` record per project that is not a fork. It sorts the
records by repository size, largest first, and renders the hundred largest as
an HTML table. In the table:

- commit counts above 10000 are green;
- branch counts above 100 are red;
- a last-activity date within the last thirty days is blue.

This project models that core and proves what it promises.

| module | file | models |
|---|---|---|
| `Text` | `text.dfy` | `%d` / `str()` of a non-negative integer; fixed-width digit fields as `strptime` reads them and `str(datetime)` writes them |
| `Calendar` | `calendar.dfy` | Python's proleptic Gregorian `date` / `datetime` (years 1..9999); day ordinals as `date.toordinal` counts them; `± timedelta(hours=…)` with day carry |
| `Timestamps` | `timestamps.dfy` | `last_activity_at_convert`; `date_compare_with_thirty_days_ago` |
| `Projects` | `projects.dfy` | `ProjectMetadata`; `get_all_project_metadata` over an abstract page listing |
| `Ranking` | `ranking.dfy` | the stable `sorted(…, key=repository_size, reverse=True)[:100]` of `main` |
| `HtmlTable` | `html_table.dfy` | `generate_project_metadata_html_table`, built by string appends as the script does |
| `Report` | `report.dfy` | `main`, without logging, printing and the file write |

Modelling choices:

- **The GitLab listing** is a sequence of pages, `seq<seq<Project>>`. A page past the end is empty.
- **A `Project`** carries the listing fields the script reads. It also carries the outcome of its three per-project calls (branches, tags, contributors). Each call either returned a list of some length (`Listed(count)`) or raised a `GitlabError` (`Raised`).
- **`ProjectMetadata`** is a value. `BuildMetadata` builds it field by field, as the script fills a fresh object.
- **"Today"** is a parameter.
- **The size cell `format(size / 2**20, '.1f')`** is a parameter, `sizeText: nat -> string`.
- **`time.mktime(time.strptime(d, "%Y-%m-%d"))`** compares dates. It is modelled as calendar order, which `Calendar.DayNumberOrder` proves equal to the order of day ordinals.
- **Python 2's year rules.** `date.strftime` refuses years before 1900. `time.mktime` reads a year of 0..68 as 2000..2068 and one of 69..99 as 1969..1999, and raises `ValueError` for years 100..1899. `Timestamps.MktimeDate` states the year `mktime` reads.

## Model

| member | source | states |
|---|---|---|
| Projects.BuildMetadata | gitlab-ranking-list.py:71-88 | The record copies the path, URL, commit count, size, fork count and timestamp. The three counts are the lengths returned before the first `GitlabError`. A count the `try` block did not reach stays 0. |
| Projects.Completed | gitlab-ranking-list.py:79-88 | The calls that completed are exactly those before the first one that raised. |
| Projects.NoRepositoryRecord | gitlab-ranking-list.py:79-88 | A project whose branch listing raises still yields a record, with all three counts 0 and its statistics kept. |
| Projects.NonForked | gitlab-ranking-list.py:68-70 | No kept project is a fork. |
| Projects.NonForkedCounts | gitlab-ranking-list.py:68-89 | Forks never yield a record. Every other project is kept exactly as often as it is listed. |
| Projects.FirstShortPage | gitlab-ranking-list.py:90-93 | The first page holding fewer than 30 projects, and every earlier page is full. |
| Projects.CollectProjectMetadata | gitlab-ranking-list.py:58-95 | Pages are requested as 1, 2, … in order. Every page before the last is full; the last is the first short page. The result is one record per non-forked project of those pages, in listing order. |
| Ranking.Insert | gitlab-ranking-list.py:171-172 | Inserting into a list sorted by size, largest first, keeps it sorted and adds exactly that record. |
| Ranking.SortBySizeDescending | gitlab-ranking-list.py:171-172 | The sorted list is ordered by size, largest first, and is a permutation of the input. |
| Ranking.SortIsStable | gitlab-ranking-list.py:171-172 | The sort is stable: records of any one size keep their fetch order. |
| Ranking.TopBySize | gitlab-ranking-list.py:171-173 | The top list holds min(100, n) records. They are ordered by size, largest first, and drawn from the input. |
| Ranking.TopKeepsLargest | gitlab-ranking-list.py:171-173 | A record left out of the top list is no larger than any record in it. |
| Ranking.TopIsStable | gitlab-ranking-list.py:171-173 | Records of equal size in the top list are a prefix, in fetch order, of those of that size in the input. |
| Calendar.DayNumberOrder | gitlab-ranking-list.py:114-116 | Calendar order of valid dates agrees with day-ordinal order. Equal ordinals mean equal dates. |
| Calendar.NextDay | gitlab-ranking-list.py:106 | The day after a valid date is valid and has the next ordinal, with month and year carry. |
| Calendar.PrevDay | gitlab-ranking-list.py:113 | The day before a valid date is valid, and the next day after it is the date again. |
| Calendar.DaysEarlier | gitlab-ranking-list.py:113 | `d + timedelta(days=-n)` is the valid date whose ordinal is n lower. |
| Calendar.AddHours | gitlab-ranking-list.py:106 | `t + timedelta(hours=h)` is a valid time exactly h·3600 seconds later. |
| Calendar.SubtractHours | gitlab-ranking-list.py:106 | `t - timedelta(hours=h)` is a valid time exactly h·3600 seconds earlier. |
| Calendar.SubtractAfterAdd | gitlab-ranking-list.py:106 | Subtracting the added hours gives back the original time. |
| Calendar.AddAfterSubtract | gitlab-ranking-list.py:106 | Adding the subtracted hours gives back the original time. |
| Calendar.SecondsIdentify | gitlab-ranking-list.py:106 | Two valid times with the same second count are the same time. |
| Text.Decimal | gitlab-ranking-list.py:138-154 | `%d` writes a non-empty digit string whose value is the number. Its first digit is `0` only for the string `"0"`, so there is no leading zero. |
| Text.Padded | gitlab-ranking-list.py:107 | A zero-padded field has the requested width, only digits, and the number as its value. |
| Text.PaddedValue | gitlab-ranking-list.py:105-107 | Re-padding the value of a fixed-width digit field gives the field back. |
| Timestamps.ParseFormatDate | gitlab-ranking-list.py:113-115 | Reading back a written `YYYY-MM-DD` date gives the date. |
| Timestamps.FormatParseDate | gitlab-ranking-list.py:113-115 | Writing a read date gives the text back. |
| Timestamps.ParseFormatDateTime | gitlab-ranking-list.py:105-107 | Reading back `str(datetime)` gives the time, and its first ten characters are the date. |
| Timestamps.FormatParseDateTime | gitlab-ranking-list.py:104-107 | Writing a read `YYYY-MM-DD HH:MM:SS` gives the text back. |
| Timestamps.ReplaceT | gitlab-ranking-list.py:104 | `replace("T", " ")` keeps the length and changes exactly the `T` characters. |
| Timestamps.ConvertLastActivityAt | gitlab-ranking-list.py:98-107 | The result is a valid `YYYY-MM-DD HH:MM:SS` time exactly eight hours after the stamp's prefix, and its first ten characters are its date. |
| Timestamps.ConvertedDate | gitlab-ranking-list.py:104-107 | The converted date is the next day exactly when the stamp's hour is 16 or later; otherwise it is the same day. |
| Timestamps.ConvertRoundTrip | gitlab-ranking-list.py:104-107 | Taking eight hours off the converted time recovers `last_activity_at[:19].replace("T", " ")` character for character. |
| Timestamps.ConvertSameDayExample | gitlab-ranking-list.py:100 | The docstring's example: `2020-02-26T09:55:47.215Z` converts to `2020-02-26 17:55:47`. |
| Timestamps.ConvertNextDayExample | gitlab-ranking-list.py:104-107 | `2020-02-26T17:00:00.000Z` converts to `2020-02-27 01:00:00`, one day later. |
| Timestamps.MktimeDate | gitlab-ranking-list.py:114-115 | `mktime` reads a valid date with the same month and day. A year from 1900 on is read unchanged, 0..68 as 2000..2068, and 69..99 as 1969..1999. |
| Timestamps.MktimeLeapYear | gitlab-ranking-list.py:114-115 | Moving a two-digit year by 1900 or 2000 keeps whether it is a leap year, so 29 February stays a valid date. |
| Timestamps.ModernYear | gitlab-ranking-list.py:113 | A valid date whose ordinal is at least that of 1900-01-01 lies in 1900 or later, as `strftime` demands. |
| Timestamps.WithinThirtyDays | gitlab-ranking-list.py:110-119 | Recent exactly when the date is non-empty and, with its year as `mktime` reads it, its ordinal exceeds today's minus 30. |
| Timestamps.WithinThirtyDaysBoundary | gitlab-ranking-list.py:113-119 | A date n days before today, and not before 1900, is recent exactly when n < 30: 29 days ago is recent, 30 days ago is not. |
| Timestamps.TwoDigitYearRead | gitlab-ranking-list.py:114-116 | A date with a year of 0..99 is exactly as recent as the date in the year `mktime` reads, so `0050-01-01` counts as `2050-01-01`. |
| Timestamps.EmptyNeverRecent | gitlab-ranking-list.py:111-112 | The empty string is never recent. |
| HtmlTable.ActivityDate | gitlab-ranking-list.py:157-158 | `last_activity_at_convert(…)[:10]` is a valid `YYYY-MM-DD` date: the date of the converted time. |
| HtmlTable.ActivityContent | gitlab-ranking-list.py:157-163 | The last-activity cell's content is the converted date, wrapped in blue when it is recent. |
| HtmlTable.ActivityCell | gitlab-ranking-list.py:157-163 | The last-activity cell is blue exactly when the converted date, with its year as `mktime` reads it, has an ordinal above today's minus 30. From 1900 on, that is the converted date's own ordinal. |
| HtmlTable.ThresholdCell | gitlab-ranking-list.py:142-151 | A count cell is colored exactly when the count is above its threshold. |
| HtmlTable.RowShows | gitlab-ranking-list.py:136-156 | A row has one cell per header label and shows its number. The path links to the repository URL. The commit cell is the commit count, wrapped in green exactly above 10000. The branch cell is the branch count, wrapped in red exactly above 100. Tag, contributor and fork counts are never colored. Every count reads back as its value. |
| HtmlTable.HeaderCells | gitlab-ranking-list.py:124-134 | The header row is the nine labels, in order, each in a cell. |
| HtmlTable.RowCells | gitlab-ranking-list.py:137-164 | A row is its nine cells in column order, between `<tr>` and `</tr>`. |
| HtmlTable.AppendCells | gitlab-ranking-list.py:137-164 | Appending the cells one by one extends the table text by exactly that record's row. |
| HtmlTable.AppendRow | gitlab-ranking-list.py:135-164 | One loop iteration appends exactly the row of that record, numbered as given. |
| HtmlTable.RenderTable | gitlab-ranking-list.py:122-166 | The text is the opening tag, the header row, one row per record numbered from 1 in list order, and the closing tag. |
| Report.RecordSource | gitlab-ranking-list.py:68-89 | Every record comes from a non-forked project of the listing. |
| Report.TopRenderable | gitlab-ranking-list.py:70-77 | If every non-forked project's timestamp converts to a date `mktime` accepts, every record in the top list renders. |
| Report.Report | gitlab-ranking-list.py:169-178 | `main` renders the top-100 list of the records fetched up to the first short page. |

## Left out

- The GitLab client: URL and token settings, `auth()`, and the HTTP calls behind `projects.list`, `branches.list`, `tags.list` and `repository_contributors` (lines 50-55, 66, 80-84). The model replaces them with the page listing and the per-project call outcomes.
- Exceptions other than `GitlabError` from the three per-project calls (line 86). They end the script and are not modelled.
- Logging (lines 9-10, 59, 64, 67, 91, 175) and `print` of each record with its `__str__` (lines 26-47, 176-177).
- The file write through `os.system('echo …')` (line 179). `Report.Report` returns the HTML text instead; shell quoting of that text is not modelled.
- HtmlTable.AppendCells: the repository-size cell `format(float(size) / float(1024 * 1024), '.1f')` (line 155) is taken as the `sizeText` parameter. The model does not compute floating-point rounding.
- Timestamps.WithinThirtyDays: `date.today()` is the `today` parameter. `time.mktime` is taken to order local midnights as their dates are ordered; time-zone rules under which that fails are not modelled.
- Timestamps.ConvertLastActivityAt: requires a stamp whose first 19 characters read as a valid zero-padded `YYYY-MM-DDTHH:MM:SS`. The script raises `ValueError` for a stamp that does not, and that path is not modelled. `strptime` also accepts some shorter unpadded fields; the model does not.
- Timestamps.ConvertLastActivityAt: also requires that adding eight hours stays within year 9999. The script raises `OverflowError` there.
- Timestamps.WithinThirtyDays: requires that the date 30 days before `today` is in 1900 or later. Before that, `strftime` at line 113 raises `ValueError`, or the `timedelta` addition raises `OverflowError`.
- Timestamps.WithinThirtyDays: requires a date whose year `time.mktime` accepts (0..99 or from 1900 on). For years 100..1899, line 115 raises `ValueError`, and that path is not modelled.
- Report.Report: requires that every record in the top list has a timestamp that converts to a date whose year `time.mktime` accepts (`HtmlTable.RenderableStamp`), the condition under which the script does not raise. `Report.TopRenderable` gives a sufficient condition on the listing.
- `ProjectMetadata` is a value rather than a mutable object. No record is changed after it is appended, so no aliasing is lost.

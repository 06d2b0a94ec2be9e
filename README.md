# QRQ Crew roster builder — a Dafny model

`scripts/build-roster.py` fetches the QRQ Crew membership spreadsheet as CSV and turns it into a
static `roster.html`. This project models the decisions that script makes and proves properties
about them:

- **Finding the roster** (`parse_members`). The header is the first line that contains `Callsign`.
  Each data row's callsign, name and join date are trimmed, and its `QC #` is read as an integer (0
  when that fails). A row is kept when it has a callsign and a non-zero QC number. The kept members
  are stable-sorted by QC number. This is imperative code, so it is modelled as methods with loops
  (`Roster.FindHeader`, `Roster.KeepRows`, `Roster.ParseMembers`). They are proved equal to a
  specification function, `Roster.ParseSpec`, and the lemmas are about that function.
- **Join dates** (`format_date`). Text that splits on `/` into exactly three pieces is rewritten when
  `int()` reads its first piece as a month in 1..12 and its second piece as an integer day. The result
  is `Mon <str(day)>, <third piece as written>`. The third piece is never checked, so `"1/2/x"` becomes
  `"Jan 2, x"`. All other text comes back unchanged.
- **Escaping** (`html_escape`). Four chained replacements, `&` first. They are shown equal to a
  one-pass escape of each character, and from that: no `<`, `>` or `"` is left, every `&` starts an
  entity, and the escaping can be undone.
- **Rendering decisions** (`render_member_row`, `generate_html`):
  - the founder / tech-guy / plain classification;
  - which fields are escaped;
  - the "N Member(s)" wording;
  - one rendered row per member, in order.
- **The exit code of `main`.** 1 when the fetch fails or no member is parsed, 0 when the page is
  written.

Modules: `Text` (Python string helpers: `strip`, `split`, `in`, `upper`, `str(int)`, `int(str)`),
`Escape`, `Dates`, `Roster`, and `Render` (classification, rows, count text, `main`).

## Model

| member | source | states |
|---|---|---|
| Text.StripSpec | scripts/build-roster.py:66-70 | `str.strip()` removes whitespace (every `str.isspace` code point) from both ends only: the result occurs in the input, everything before it is whitespace, and the result neither starts nor ends with whitespace |
| Text.StripIdempotent | scripts/build-roster.py:66-70 | stripping an already stripped field changes nothing |
| Text.ContainsIffOccurs | scripts/build-roster.py:54 | the substring test `"Callsign" in line` holds exactly when the marker occurs at some position of the line |
| Text.Split | scripts/build-roster.py:24 | `str.split("/")` yields at least one piece and no piece contains the separator |
| Text.JoinSplit | scripts/build-roster.py:24 | joining the pieces of `split` with the separator gives back the input |
| Text.SplitJoin | scripts/build-roster.py:24-25 | splitting separator-free pieces joined with the separator gives back exactly those pieces |
| Text.ParseIntOfIntToString | scripts/build-roster.py:28-32 | `int()` reads back every integer `str()` prints with at most 4300 digits, negative ones included |
| Text.ParseIntZeroPadded | scripts/build-roster.py:28-29 | `int()` of a zero-padded number such as `"03"` is the number |
| Text.ParseIntOverlong | scripts/build-roster.py:28-29 | a digit string longer than Python's default limit of 4300 digits is refused by `int()` (it raises `ValueError`) |
| Escape.ReplaceChar | scripts/build-roster.py:39 | `str.replace` of a character that does not occur returns the text unchanged |
| Escape.HtmlEscapeAppend | scripts/build-roster.py:38-39 | escaping distributes over concatenation |
| Escape.HtmlEscapeIsEscapeEach | scripts/build-roster.py:38-39 | the chain of four replacements, `&` first, equals escaping each character on its own: an entity inserted by a later replacement is never escaped again |
| Escape.HtmlEscapeSafe | scripts/build-roster.py:38-39 | the escaped text contains no `<`, `>` or `"`, and every `&` in it starts one of `&amp;`, `&lt;`, `&gt;`, `&quot;` |
| Escape.HtmlEscapePlainText | scripts/build-roster.py:38-39 | text without any of the four reserved characters is returned unchanged |
| Escape.UnescapeHtmlEscape | scripts/build-roster.py:38-39 | decoding the four entities in the escaped text gives back the original text |
| Escape.HtmlEscapeInjective | scripts/build-roster.py:38-39 | two different texts never escape to the same output |
| Escape.EscapeBetween | scripts/build-roster.py:38-39 | a word between two reserved characters, such as `<script>`, keeps the word and has only its two delimiters replaced by their entities |
| Dates.FormatDateChangesIff | scripts/build-roster.py:22-35 | `format_date` changes its input exactly when the input splits on `/` into three pieces, the first reads as an integer month in 1..12 and the second reads as an integer |
| Dates.FormatDateNoSlash | scripts/build-roster.py:24-26 | an input without `/` (such as `"2024"` or `""`) is returned unchanged |
| Dates.FormatDateOf | scripts/build-roster.py:27-32 | on `m/d/y` with a valid month, the result is the month's abbreviation, a blank, the day as `str(int(d))`, `", "` and the raw year text |
| Dates.FormatDateRoundTrip | scripts/build-roster.py:27-32 | printing a month in 1..12, any day and a year with `/` between them formats to `Mon day, year` |
| Dates.FormatDateZeroPadded | scripts/build-roster.py:27-32 | zero-padded month and day lose their leading zeros in the output |
| Dates.FormatDatePadded | scripts/build-roster.py:22-35 | `"03/04/2024"` becomes `"Mar 4, 2024"` |
| Dates.FormatDateBadMonth | scripts/build-roster.py:31-35 | an integer month outside 1..12 leaves the input unchanged |
| Dates.FormatDateBadDay | scripts/build-roster.py:29-35 | a day that does not read as an integer leaves the input unchanged |
| Dates.FormatDateOverlongDay | scripts/build-roster.py:29-35 | a day of more than 4300 digits makes `int()` raise, and the input is returned unchanged |
| Roster.Records | scripts/build-roster.py:65-72 | one record is built per row the reader yields |
| Roster.HeaderIndex | scripts/build-roster.py:51-58 | the header is the first line containing the marker; there is none exactly when no line contains it |
| Roster.FindHeader | scripts/build-roster.py:52-56 | the search loop with `break` stops at the first line containing the marker, and leaves -1 when there is none |
| Roster.HeaderIndexAfterPreamble | scripts/build-roster.py:51-58 | lines without the marker placed in front shift the header index by their number and do not change whether one is found |
| Roster.ParseSpecIgnoresPreamble | scripts/build-roster.py:51-62 | lines before the header line do not change the result of `parse_members` |
| Roster.KeepRows | scripts/build-roster.py:64-80 | the row loop appends exactly the kept records, in row order |
| Roster.KeptMembersAppend | scripts/build-roster.py:64-80 | filtering rows commutes with concatenating them |
| Roster.KeptMembersIff | scripts/build-roster.py:66-80 | a record is among the kept members exactly when some row yields it and it has a non-empty stripped callsign and a non-zero QC number |
| Roster.NegativeQcKept | scripts/build-roster.py:69-74 | a row with a callsign and a negative `QC #` is kept, with that negative number |
| Roster.UnreadableQcDropped | scripts/build-roster.py:69-74 | a `QC #` that does not read as an integer becomes 0 and the row is dropped |
| Roster.OverlongQcDropped | scripts/build-roster.py:69-74 | a `QC #` of more than 4300 digits makes `int()` raise, so it becomes 0 and the row is dropped |
| Roster.NoValidRows | scripts/build-roster.py:64-80 | when no row passes the test, nothing is kept |
| Roster.SortByQcSortedPermutation | scripts/build-roster.py:82 | the sort yields a list in non-decreasing QC order that is a permutation of its input |
| Roster.SortByQcStable | scripts/build-roster.py:82 | the sort is stable: the members with any one QC number keep their input order |
| Roster.StableSortUnique | scripts/build-roster.py:82 | any sorted list that keeps the per-QC-number input order is the sort's result, so the model fixes the same order as any stable sort |
| Roster.ParseSpecValidSorted | scripts/build-roster.py:48-83 | every member returned has a callsign and a non-zero QC number, and the list is sorted by QC number |
| Roster.ParseSpecPermutationStable | scripts/build-roster.py:61-82 | the result is a permutation of the kept records read from the header on, with equal QC numbers in row order |
| Roster.ParseMembers | scripts/build-roster.py:48-83 | the two loops and the sort compute the specified roster: sorted, all members valid, and empty when no line contains `Callsign` |
| Render.UpperIsTechCallsign | scripts/build-roster.py:97 | `callsign.upper() == "W6JSV"` holds exactly for the five-letter callsigns spelling w6jsv in any case (the long s `ſ` included, as it upper-cases to `S`) |
| Render.ClassifyRules | scripts/build-roster.py:92-99 | first match wins: QC number at most 3 gives founder whatever the callsign; otherwise the W6JSV callsign gives tech-guy; otherwise no class and no badge |
| Render.RenderRowSafe | scripts/build-roster.py:86-90 | callsign, name and formatted date are inserted escaped: no markup characters, and each decodes back to the member's value |
| Render.RenderRowsInOrder | scripts/build-roster.py:115 | one rendered row per member, in the members' order |
| Render.RenderRowsSorted | scripts/build-roster.py:82-115 | rows rendered from the sorted roster show non-decreasing QC numbers |
| Render.CountTextWording | scripts/build-roster.py:113-114 | the count text is `"1 Member"` exactly when there is one member and `"N Members"` for every other N, 0 included |
| Render.CountTextNumber | scripts/build-roster.py:113-114 | the number at the head of the count text reads back as the member count (for counts of at most 4300 digits) |
| Render.Run | scripts/build-roster.py:523-543 | exit code 1 with nothing written when the fetch fails or no member is parsed; otherwise exit code 0 and the page for the parsed roster is written |

## Left out

- `fetch_csv` (network I/O) is not modelled. `Render.Run` takes the outcome of the fetch as a parameter: `None` for a failure, or the lines of the downloaded text.
- `str.splitlines` is not modelled. The input to `Roster.ParseMembers` is already the list of lines.
- `csv.DictReader` is not modelled. Rows are an abstract reader function applied to the lines from the header on. It is assumed to yield one column-name-to-text map per row. A missing column reads as its default.
  - Quoting and multi-line fields are not modelled.
  - Short rows, where the library yields `None` and `.strip()` raises, are not modelled.
- Text.ParseInt: Python's `int()` also accepts underscores between digits and non-ASCII decimal digits. This model accepts only an optional sign and ASCII digits, with surrounding whitespace.
- Text.ParseInt: the limit on the digits `int()` converts is fixed at Python's default of 4300. Changing it with `sys.set_int_max_str_digits` (or the matching environment variable) is not modelled.
- Text.IntToString: Python's `str()` also raises beyond 4300 digits. The model prints any integer. Every integer the script prints was read by `int()` or is a list length, so it stays within the limit.
- Text.Upper: only ASCII letters, `ı` and `ſ` are upper-cased. Multi-character expansions such as `ß` → `SS` and other scripts are left unchanged. None of those can produce `W6JSV`.
- Roster.ParseMembers: `members.sort` is modelled as a pure stable insertion sort. The in-place reordering of the list is not modelled. The result order is the same, by `Roster.StableSortUnique`.
- The timestamp in `generate_html` (wall-clock time) is not modelled.
- The HTML and CSS template, and the literal markup around each row, are not modelled. A rendered row is the record of the values placed into it, and a page is the count text and the rows.
- Console messages and writing `roster.html` are not modelled. `Render.Run` returns the page it would write.

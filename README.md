# Application links generator — a Dafny model

`generate_links.py` reads a properties file of `name=url=active` lines
and writes an HTML start page. The page shows one tile per application:
first the active applications, which can be clicked, and then the
inactive ones. When there is no application at all, it shows a
placeholder message instead. This project models the core of that
program and proves what it does:

- the line parser of `AppLinksGenerator.load_properties`. It strips each
  line, skips blank and `#` lines, and splits the rest on `=`. A line
  becomes a record only when the split gives exactly three fields. The
  name and URL are trimmed, and the active flag is a case-insensitive
  compare of the third field with `true`. The parser rebuilds the
  generator's list of records from nothing on every load;
- the split of the records into an active list and an inactive list
  (`generate_html`);
- the layout choices of `_get_html_template`. The one URL
  `/static_report.html` is rewritten to `./static_report.html`. The
  active tiles come first and are clickable. The placeholder replaces
  the tiles when both lists are empty.

Layout of the project:

- `pystr.dfy` (module `PyStr`): the Python string methods the parser
  uses, over ASCII. These are `str.strip()` (with `lstrip`/`rstrip`),
  `str.lower()`, and `str.split` on a one-character separator. `Join`
  is the partner of `Split`.
- `collect.dfy` (module `Collections`): `Collect`, the list of values a
  partial function yields over a list, in order. `Positions` lists the
  elements it yields a value for. This is the shape of a loop that
  appends for some elements and `continue`s past the others.
- `app_links.dfy` (module `AppLinks`): the records, the parser as the
  functions `ParseLine`/`ParseAll`, the split `WithStatus`, and the
  abstract page (`Template`, `Render`). The class `AppLinksGenerator`
  holds the loops of the source as methods proved against those
  functions.

The page is modelled abstractly as a `Page` value. It holds the grid
(`Links` of tiles, or `NoApps` for the placeholder), the two counts the
page logs to the browser console, and the footer timestamp. A tile is a
`Block` with the name, the URL as shown, and whether it is clickable
(calls `openApp(url, name)`).

## Model

| member | source | states |
|---|---|---|
| AppLinks.AppLinksGenerator.constructor | generate_links.py:12-15 | stores the two file names and starts with no records |
| AppLinks.AppLinksGenerator.LoadProperties | generate_links.py:17-51 | fails exactly when the file cannot be read, and then leaves the records alone; on success the records are exactly `ParseAll` of the lines, whatever was loaded before, so loading the same lines twice gives the same list and not a doubled one |
| AppLinks.IsSignificant | generate_links.py:29-33 | a line counts when, stripped, it is not blank and does not start with `#`; `BlankLineSkipped`, `CommentLineSkipped` and `ParseLineAccepts` state what it admits and rejects |
| AppLinks.ParseLine | generate_links.py:29-47 | the body of the parsing loop for one line; it has no contract of its own, and `ParseLineAccepts` (which lines give a record) and `ParseLineFields` (which record) describe it completely |
| AppLinks.ParseAll | generate_links.py:27-48 | the records of all lines, as the loop leaves them; it has no contract of its own, and `ParseAllOrigins`, `ParseAllAppend` and `SkippedLine` describe it, while `LoadProperties` is proved to compute it |
| AppLinks.ParseLineAccepts | generate_links.py:29-39 | a line yields a record exactly when, stripped, it is not blank, does not start with `#`, and holds exactly two `=` |
| AppLinks.ParseLineFields | generate_links.py:36-47 | a significant line `name=url=flag` yields the record with the trimmed name, the trimmed URL, and the flag of the untrimmed third field |
| AppLinks.IsTrueFlag | generate_links.py:42 | the flag is set exactly by a four-character field spelling `true` in any mix of cases |
| AppLinks.FlagSpellings | generate_links.py:42 | `true`, `True` and `TRUE` are active; ` true` with a leading blank, `yes` and the empty field are inactive |
| AppLinks.BlankLineSkipped | generate_links.py:29-33 | a line of whitespace only yields no record |
| AppLinks.CommentLineSkipped | generate_links.py:29-33 | a line whose first non-blank character is `#` yields no record, whatever follows |
| AppLinks.SkippedLine | generate_links.py:28-39 | a line that yields nothing adds nothing, and the lines after it are still parsed |
| AppLinks.ParseAllOrigins | generate_links.py:27-48 | there is one record per accepted line, and the k-th record is the one the k-th accepted line yields (accepted lines in increasing order) |
| AppLinks.ParseAllAppend | generate_links.py:28-48 | the records of two consecutive pieces of a file are those of the first piece followed by those of the second |
| AppLinks.WithStatus | generate_links.py:61-62 | each list holds only records of its status, and is no longer than the input |
| AppLinks.PartitionExact | generate_links.py:61-62 | every record lands in exactly one of the two lists: the lengths add up and the two multisets together are the input's |
| AppLinks.KeepsOrder | generate_links.py:61-62 | each list is a subsequence of the input, so the relative order is kept |
| AppLinks.WithStatusAppend | generate_links.py:61-62 | the split of a concatenation is the concatenation of the splits |
| AppLinks.RewriteUrl | generate_links.py:88-90 | the URL changes exactly when it is `/static_report.html`, which becomes `./static_report.html`; no tile ever shows the absolute path |
| AppLinks.RewriteUrlIdempotent | generate_links.py:103-105 | rewriting twice is rewriting once |
| AppLinks.BlocksOf | generate_links.py:86-113 | one tile per record |
| AppLinks.BlocksOfAt | generate_links.py:86-113 | the k-th tile shows the k-th record's name and rewritten URL |
| AppLinks.AppLinksGenerator.HtmlTemplate | generate_links.py:78-113 | the two tile-building loops and the grid choice produce exactly the page `Template` describes |
| AppLinks.Template | generate_links.py:78-113 | the page for an active and an inactive list; it has no contract of its own, and `TemplateLayout` and `TemplateClickable` describe it, while `HtmlTemplate` is proved to compute it |
| AppLinks.TemplateLayout | generate_links.py:86-113 | the placeholder is shown exactly when both lists are empty; otherwise the active tiles come first, clickable, then the inactive ones, not clickable, each with its record's name and rewritten URL |
| AppLinks.TemplateClickable | generate_links.py:92-98 | a tile is clickable exactly when it is one of the first (number of active records) tiles |
| AppLinks.AppLinksGenerator.GenerateHtml | generate_links.py:57-64 | the page is the layout of the loaded records split by status |
| AppLinks.Render | generate_links.py:61-64 | the page for a list of records: the split by status fed into `Template`; it has no contract of its own, and `RenderLayout` and `RenderExample` describe it |
| AppLinks.RenderLayout | generate_links.py:279 | for any list of records, the placeholder is shown exactly when the list is empty; otherwise there is one tile per record, the counts add up to the number of records, and the active tiles come first and are the only clickable ones |
| AppLinks.RenderExample | generate_links.py:61-113 | an inactive record for `/static_report.html` listed before an active record gives the active tile first and the inactive tile, with `./static_report.html`, second; each count is one, and listing the active record first gives the same page |
| PyStr.StripLeft | generate_links.py:29 | lstrip removes a prefix made only of whitespace and leaves a non-whitespace first character |
| PyStr.StripRight | generate_links.py:29 | rstrip removes a suffix made only of whitespace and leaves a non-whitespace last character |
| PyStr.Strip | generate_links.py:29 | strip never lengthens the string and leaves no whitespace at either end |
| PyStr.StripSlice | generate_links.py:29 | strip keeps one slice of the string and cuts only whitespace before and after it |
| PyStr.StripPadded | generate_links.py:45-46 | whitespace padding around a trimmed text is cut, and the text is kept intact |
| PyStr.StripFixed | generate_links.py:45-46 | strip leaves a string unchanged exactly when it has no whitespace at either end; strip is idempotent |
| PyStr.LowerChar | generate_links.py:42 | lower maps each upper-case ASCII letter to the lower-case letter at the same place in the alphabet, and leaves every other character unchanged |
| PyStr.Lower | generate_links.py:42 | lower keeps the length and lowers each character on its own |
| PyStr.Split | generate_links.py:36 | split gives one more part than there are separators, no part holds the separator, and joining the parts restores the string |
| PyStr.SplitJoin | generate_links.py:36 | splitting a join of separator-free parts gives back the parts |

## Left out

- Checking that the properties file exists, reading it, and the
  `try/except` paths (generate_links.py:19-25, 53-55). The lines come in
  as `contents`, which is `None` when the file is missing or unreadable.
  An exception raised part-way through the loop is not modelled.
- Writing the page to the output file and its error path
  (generate_links.py:66-67, 74-76). These are file I/O.
- `print` logging of malformed lines, counts and outcomes
  (generate_links.py:21, 38, 50, 54, 69-71, 75). These are console side
  effects.
- `datetime.now()` and its formatting (generate_links.py:80). These
  depend on the clock, so the timestamp is a parameter of the page.
- The HTML, CSS and JavaScript text of the template, and the browser
  logic of `openApp` (generate_links.py:115-306). The page is modelled as
  tiles, a placeholder, two counts and a timestamp.
- `main`, `sys.argv` and `sys.exit` (generate_links.py:308-332). This is
  command-line plumbing.
- PyStr.Strip, PyStr.Lower: only ASCII whitespace and ASCII case are
  modelled. Python's Unicode whitespace (such as U+00A0) and non-ASCII
  case mappings are not.
- HTML escaping: the program does none, and the model claims none.
- The integer `line_num` of the loop serves only the log message, so it
  is not modelled.

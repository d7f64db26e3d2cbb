# Tool shed notification digest — a Dafny model

`ToolShedEmailParsing.py` reads Galaxy tool shed notification e-mails from a
mailbox and reports which repositories were added or updated. It has two
parts. Each message is decoded into a `ToolShedRepo`: `parseEmail`, then
`getToolShedInfo`. The main loop then files each passe, new or update
record into one of three collections: a flat `passe` list, a nested map of
new repositories, or a nested map of update lists. A record that is none of
these is filed nowhere, and a subject too short to classify raises. This project models that core as pure functions
over immutable data and proves what the code promises about it.

The modules follow the program's structure:

| file | module | models |
|---|---|---|
| `results.dfy` | `Results` | `Option` and `Result`, the error paths |
| `pytext.dfy` | `PyText` | the Python `str` operations the parser relies on: `strip()`, `split()`, `split(c)`, `join`, `replace`, `s[n:]` |
| `polish.dfy` | `Polishing` | `polish` |
| `links.dfy` | `Links` | `urlparse` for plain `scheme://netloc/path` links, `os.path.split`, and the derived name, author URL and author |
| `notices.dfy` | `Notices` | `ToolShedRepo.parseEmail` |
| `catalog.dfy` | `Catalog` | the field merge of `getToolShedInfo`, plus `isNew`, `isUpdate` and `isPasse` |
| `grouping.dfy` | `Grouping` | the filing loop (lines 276-296) |
| `pipeline.dfy` | `Pipeline` | the per-message loop: build each record, then file it |

Modelling choices:

- Header and body text arrive as sequences of lines. Splitting the raw
  IMAP payload on `"\r\n"` is not modelled.
- The `--stripplanemocommittext` flag is a parameter, not a global.
- The catalog is a function parameter. It maps a repository's name, author
  and revision to the reply already decoded from JSON: three flags and the
  optional `description`, `long_description` and `type` entries.
- Every Python `IndexError` the code can raise is an explicit failure
  value. This covers a short header, a short body, a short token list, a
  short field list, and a bare `planemo` description line. None of them is
  a precondition.
- A message from a foreign sender makes `parseEmail` return before it sets
  any body field. `getToolShedInfo` then reads the unset `self.name`, and
  the run stops with `AttributeError`. The model follows this code (the run
  aborts with `FieldsUnset`) rather than a "skip the message" reading.

## Model

| member | source | states |
|---|---|---|
| Polishing.Polish | ToolShedEmailParsing.py:44-56 | `polish` output has no newline, a non-empty output ends in ".", and the output is empty exactly when the input is all whitespace |
| Polishing.PolishFixedPoints | ToolShedEmailParsing.py:44-56 | the texts `polish` leaves unchanged are exactly the polished ones: empty, or free of newlines with no leading whitespace and a final "." |
| Polishing.PolishIdempotent | ToolShedEmailParsing.py:44-56 | polishing twice equals polishing once |
| Polishing.PeriodRule | ToolShedEmailParsing.py:53 | the three-entry exception list reduces to one rule: a stripped non-empty text gets "." unless it already ends in "." |
| Polishing.PolishByRule | ToolShedEmailParsing.py:52-55 | `polish` is strip, then add "." unless the text is empty or ends in ".", then replace newlines by two spaces |
| Polishing.PolishBlankExamples | ToolShedEmailParsing.py:52-55 | "" and a whitespace-only text polish to "" |
| Polishing.PolishAddsPeriod | ToolShedEmailParsing.py:53-54 | "abc" polishes to "abc." |
| Polishing.PolishKeepsPeriod | ToolShedEmailParsing.py:53 | "abc." is not given a second period |
| Polishing.PolishNewlineExample | ToolShedEmailParsing.py:52-55 | " a\nb " polishes to "a  b.": the blanks go and the newline becomes two spaces |
| PyText.Strip | ToolShedEmailParsing.py:52 | `strip()` leaves no whitespace at either end and gives "" exactly for all-whitespace text |
| PyText.StripIsSlice | ToolShedEmailParsing.py:52 | the stripped text is a contiguous slice of the original |
| PyText.StripRemovesSpace | ToolShedEmailParsing.py:52 | everything `strip()` removes before and after that slice is whitespace |
| PyText.ReplaceRemoves | ToolShedEmailParsing.py:55 | after `replace("\n", "  ")` no newline is left |
| PyText.ReplaceAbsent | ToolShedEmailParsing.py:55 | `replace` leaves text without the pattern unchanged |
| PyText.ReplaceConcat | ToolShedEmailParsing.py:55 | `replace` of a single-character pattern works piece by piece over concatenation |
| PyText.SplitThenJoin | ToolShedEmailParsing.py:147-151 | joining the fields of `split(c)` with `c` gives the text back |
| PyText.JoinThenSplit | ToolShedEmailParsing.py:141 | splitting fields joined by `c` on `c` gives the fields back, when no field holds `c` |
| PyText.SplitOnSingle | ToolShedEmailParsing.py:146-150 | `split(c)` gives a single field exactly when the text holds no `c`, and that field is the text |
| PyText.LastField | ToolShedEmailParsing.py:138 | the last field of `split(c)` is the suffix after the last `c`, or the whole text when it has no `c` |
| PyText.FirstField | ToolShedEmailParsing.py:147-149 | the first `split(" ")` field equals a space-free word exactly when the line is that word or starts with it and a space |
| PyText.SplitWs | ToolShedEmailParsing.py:134 | `split()` yields non-empty tokens without whitespace |
| PyText.SplitWsKeepsText | ToolShedEmailParsing.py:134 | the tokens of `split()` are all non-whitespace characters of the text, in order |
| PyText.JoinThenSplitWs | ToolShedEmailParsing.py:134 | `split()` of words joined by " " gives the words back |
| Links.ParseUrl | ToolShedEmailParsing.py:135 | a parsed link has a lower-case scheme, a host without "/", and an empty or "/"-led path, and the three parts reassemble to the link |
| Links.ParseUnparse | ToolShedEmailParsing.py:135 | parsing a reassembled plain URL gives its parts back |
| Links.PathSplit | ToolShedEmailParsing.py:136 | `os.path.split`: the tail is the last "/"-segment; the head is the text before it with its trailing slashes removed, or that text unchanged when it is all slashes |
| Links.PathSplitJoin | ToolShedEmailParsing.py:136 | `os.path.split(head + "/" + tail)` is `(head, tail)` when the tail has no "/" and the head does not end in one |
| Links.LastOfSplit | ToolShedEmailParsing.py:138 | `split("/")[-1]` is the last "/"-segment of the text |
| Links.ParseLink | ToolShedEmailParsing.py:134-138 | a link fails exactly when it is outside the plain URL shape; otherwise the name is the last "/"-segment of the path, the author URL is `scheme://netloc` followed by the head of `os.path.split(path)`, the author is the author URL's last segment, and only slashes (possibly none) lie between author URL and name in the link |
| Links.DocumentedLink | ToolShedEmailParsing.py:88 | the documented link `https://toolshed.g2.bx.psu.edu/view/kaymccoy/calculate_fitness` names repository "calculate_fitness" of author "kaymccoy" |
| Links.ToolShedLink | ToolShedEmailParsing.py:134-138 | `scheme://host<dir>/<owner>/<repo>` names repository `repo` by author `owner`, whose URL is `scheme://host<dir>/<owner>` |
| Notices.LinePiece | ToolShedEmailParsing.py:147-156 | a description line's contribution fails exactly for a bare "planemo" line with the strip flag on, which makes `lineParts[1]` raise |
| Notices.UploadedLine | ToolShedEmailParsing.py:149-151 | a line whose first " "-token is "Uploaded" adds only the text after "Uploaded ", whatever the flag |
| Notices.PlanemoLine | ToolShedEmailParsing.py:152-156 | a line starting "planemo upload" adds nothing with the flag on and is added verbatim with it off |
| Notices.OtherLine | ToolShedEmailParsing.py:146-156 | any other line is added verbatim, including, with the flag on, a "planemo" line whose second word is not "upload" |
| Notices.FirstTwoFields | ToolShedEmailParsing.py:152-153 | when the first two `split(" ")` fields are the words `w1` and `w2`, the line is `w1 w2` or starts with `w1 w2 `; with "planemo" and "upload" this is the converse of what `PlanemoLine` uses |
| Notices.CommitFrom | ToolShedEmailParsing.py:144-159 | the commit message is polished after every line, and the loop fails only by running off the body or on a bare "planemo" line |
| Notices.StopIndexIsFirst | ToolShedEmailParsing.py:146 | with `IsStopLine` as the loop's test, the loop's stopping point is the first line whose text before ":" is "Uploaded by" or "Changed by" |
| Notices.CommitFromStops | ToolShedEmailParsing.py:144-159 | the loop ends normally only at a stop line, and runs off the body only when there is none |
| Notices.CommitReadsUpToStop | ToolShedEmailParsing.py:144-159 | the message depends only on the lines from 5 up to the first stop line, not on the stop line or anything after it |
| Notices.BlankLine | ToolShedEmailParsing.py:147-158 | an empty line is not a stop line and adds nothing to an already polished message |
| Notices.UploadedDescription | ToolShedEmailParsing.py:144-159 | for the documented layout ("Uploaded ...", a blank line, then the stop line) the message is the polished text after "Uploaded " |
| Notices.ParseEmail | ToolShedEmailParsing.py:122-160 | decoding fails for a short header and for a foreign sender, with that sender and subject; a decoded notice has the tool shed sender, the subject after its prefix, a body longer than five lines, a link laid out as above, a whitespace-free URL, a revision without ":", and a polished commit message |
| Notices.ForeignSenderReadsNoBody | ToolShedEmailParsing.py:124-128 | with a foreign sender, decoding stops before the body: the outcome is the same for every body and flag |
| Notices.ParseReadsOnlyKeyLines | ToolShedEmailParsing.py:131-159 | decoding reads body lines 1 and 3 and the description lines before the first stop line, and no other body line |
| Notices.WellFormedNotification | ToolShedEmailParsing.py:134-141 | for a notification whose line 1 has a plain `scheme://host<dir>/<owner>/<repo>` URL as its third `split()` token, the URL is that token, the name and author are the last two path segments, the revision is field 2 of line 3, and the commit message is what the loop collects |
| Notices.SharableLinkLine | ToolShedEmailParsing.py:88 | the documented link line, "Sharable link:" with any run of whitespace before the URL, has the URL as its third `split()` token |
| Notices.DocumentedNotification | ToolShedEmailParsing.py:87-90 | a notification laid out as documented ("Sharable link:" line, "Revision: number:hash" line) decodes to its URL, the last two path segments as author and name, and the hash as revision |
| Catalog.PolishedOr | ToolShedEmailParsing.py:177-183 | a missing catalog text becomes "", a present one is polished |
| Catalog.Enrich | ToolShedEmailParsing.py:176-185 | passe is exactly deleted, deprecated or malicious; synopsis and description are `polish` of the catalog texts when present and "" when missing, so empty exactly when missing or blank; the type is the catalog's, or "Unknown" |
| Catalog.EnrichKeepsPolished | ToolShedEmailParsing.py:180-183 | catalog texts that are already polished are taken over unchanged |
| Catalog.KindWord | ToolShedEmailParsing.py:194 | token 3 of the subject under `split()` exists exactly when the subject has more than three tokens |
| Catalog.KindWordOf | ToolShedEmailParsing.py:194 | the word the tests read is token 3 of `split()`: for any subject whose tokens are `words`, it is `words[3]` |
| Catalog.KindWordOfJoin | ToolShedEmailParsing.py:194 | for a subject of single-space-separated words, the word read is the fourth word |
| Catalog.NewExcludesUpdate | ToolShedEmailParsing.py:189-201 | no record is both new and an update |
| Catalog.Route | ToolShedEmailParsing.py:276-295 | the `if`/`elif` chain over the predicates `IsPasse`, `IsNew` and `IsUpdate`: passe first; otherwise a subject with fewer than four tokens raises; then new, then update, otherwise unrecognised, each exactly when its test holds |
| Catalog.UpdateSubject | ToolShedEmailParsing.py:189-194 | a non-passe record with subject "Galaxy tool shed update alert" is an update |
| Catalog.NewSubject | ToolShedEmailParsing.py:196-201 | a non-passe record with subject "Galaxy tool shed alert for new repository" is new |
| Catalog.OlderSubject | ToolShedEmailParsing.py:82 | a non-passe record with the documented subject "Galaxy tool shed repository update alert" is neither new nor an update |
| Grouping.AddNew | ToolShedEmailParsing.py:279-285 | adding a new record stores it under its (type, author, name) key only when that key is empty, and leaves every other key alone |
| Grouping.AddUpdate | ToolShedEmailParsing.py:287-293 | adding an update appends it to its key's list and leaves every other key alone |
| Grouping.File | ToolShedEmailParsing.py:276-296 | filing one record: a passe record is appended to the list; a new record or an update changes only its own map; anything else changes nothing; a too-short subject fails with that subject |
| Grouping.GroupFromSucceeds | ToolShedEmailParsing.py:276-296 | the loop completes exactly when every record can be classified |
| Grouping.GroupFromPasse | ToolShedEmailParsing.py:276-277 | the passe list holds exactly the passe records, in the order met |
| Grouping.GroupFromNew | ToolShedEmailParsing.py:278-285 | the new repository under a key is the first new record with that key |
| Grouping.GroupFromUpdates | ToolShedEmailParsing.py:286-293 | the update list under a key holds every update with that key, in the order met |
| Grouping.GroupSpec | ToolShedEmailParsing.py:276-296 | the whole loop (`GroupFrom`, run by `Group` from the empty collections) equals the reference definitions: it completes exactly when every record classifies, then the list, the new map and the update map hold what the three definitions above say |
| Grouping.GroupWellFiled | ToolShedEmailParsing.py:276-293 | every stored record has the right kind and sits under its own key, passe records are only in the list, and no map level is empty |
| Grouping.DuplicateNewDropped | ToolShedEmailParsing.py:283-285 | a duplicate notice of a new repository changes nothing |
| Grouping.GroupFromAppend | ToolShedEmailParsing.py:270-296 | processing one more record files it after all the earlier ones |
| Pipeline.Build | ToolShedEmailParsing.py:66-74 | a message builds exactly when it decodes, into the decoded notice merged with the catalog reply for its name, author and revision; a foreign sender becomes `FieldsUnset` |
| Pipeline.BuildAllSpec | ToolShedEmailParsing.py:270-274 | all messages build exactly when each one does, and the records keep the message order |
| Pipeline.RunFromIsGroupFrom | ToolShedEmailParsing.py:270-296 | for the run loop `RunFrom`, a run completes exactly when every message builds and the filing loop over the records completes, and then both give the same collections |
| Pipeline.RunIsGroup | ToolShedEmailParsing.py:270-296 | the same, starting from empty collections |
| Pipeline.ForeignSenderAborts | ToolShedEmailParsing.py:127-128 | once the run reaches a message from a foreign sender, it stops with `FieldsUnset` |

## Left out

- IMAP login, search and fetch; argument parsing; `getpass`. These are
  I/O and command-line plumbing. Messages arrive as a sequence, and the
  strip flag is a parameter.
- `.decode("utf-8")`, splitting the payload on `"\r\n"` and unwrapping the
  IMAP tuples. This is library glue, so the model starts from lines.
- The catalog HTTP request, the removal of `\r` and `json.loads` in
  `getToolShedInfo`. These are network I/O and a foreign library. The
  decoded reply is a parameter, and its flags and texts are assumed to be
  booleans and strings. The `malicious` flag, which the code reads from the
  second JSON element, is a field of the same record.
- The markdown report printed after the loop. It is output formatting, and
  it relies on Python's dict insertion order, which Dafny maps do not have.
- The `print` of a record that is neither passe, new nor an update. The
  model files such a record nowhere and prints nothing.
- `REPO_LINE` (body line 2). The code defines it but never reads it.
- Links.ParseUrl: parses only ASCII links of the shape
  `scheme://netloc/path` with a lower-case scheme and no `;`, `?`, `#`,
  `[`, `]`, tab, carriage return or line feed. Any other link is reported
  as `UnmodelledUrl`. For such a link `urlparse` may return a result (it
  deletes tabs, carriage returns and line feeds anywhere in the link), or
  may raise `ValueError` when a non-ASCII host normalises to a reserved
  character. Notification links
  have the modelled shape.
- PyText.IsSpace: covers the characters `str.isspace` accepts, as CPython
  defines them. There is no Unicode normalisation.

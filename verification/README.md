# Blog engine content core, in Dafny

This project models the pure core of a small markdown blog engine:

- the content store that indexes entries (dated posts) and pages as the
  file watcher reports them (`store.mjs`);
- the text rewrites around the markdown renderer (`markdown.mjs`);
- the planning part of static generation: routes and cover images
  (`generate.mjs`).

Everything is modelled as immutable data and pure functions over `seq<char>`.
The exceptions are four methods that keep the source's loop shape: `Scan.Exec`,
`Scan.ExecAll`, `Markdown.CollectRanges` and `Generate.Done`.

## Modules

- `results.dfy` (`Results`): `Option` and `Result`.
- `text.dfy` (`Text`): the JavaScript string operations the code relies on.
  These are `indexOf`, `lastIndexOf`, one-argument `substr`, `trim`,
  `split(/\s+/)`, `padStart`, `toLowerCase` on ASCII, `String(n)`, and the
  whitespace set of `\s`.
- `dates.dfy` (`Dates`): the part of a `Date` the store reads. That is the time
  value, the local calendar fields and the tokens of `toString`, following
  ECMAScript section 21.4.4.41.
- `content.dfy` (`Content`): `extractTitle`, `extractBody`, `genURL`, `genID`,
  the page name from `path.parse`, and `parseEntry` after the front matter is
  read.
- `sorting.dfy` (`Sorting`): `sortByDate`, a stable sort, latest first.
- `store.dfy` (`Store`): `addEntry`, `addPage` and `addToArchive` over a store
  record.
  - JavaScript object identity becomes a record table. Every index (`pathMap`,
    `entries`, `pages`, `archive`, `featured`) holds positions in it, so an
    `Object.assign` on one record shows through every index, as in the source.
  - `Object.keys(entries)` order is kept as `entryKeys`.
  - The store invariant `Store.Valid` says that every index points into the
    record table, month keys are "01" to "12", and `entryKeys` lists each url
    key once, each holding a "/".
- `scan.dfy` (`Scan`): `String.prototype.replace` and `RegExp.prototype.exec`
  with a global pattern. The engine tries positions from left to right and
  resumes after each match, so matches never overlap. A callback may keep a
  counter between calls.
  - `Positions`, `Leftmost` and `Splice` describe the result independently of
    the engine. Lemmas connect the two.
- `markdown.dfy` (`Markdown`): `collectRanges`, `transformMarkdownLinks`, the
  asterism rewrite and the three HTML rewrites of `convertToHTML`.
- `generate.dfy` (`Generate`): `paths`, and `done` over a set of existing
  image names.

The code the engine calls but that is not part of this model is passed in as
parameters (`Store.Env`):

- `slugify`;
- `Date.parse` in the machine's time zone;
- the markdown renderer `processor.toMarkup`.

Three behaviours of the code are easy to overlook; the model follows the
code (the link numbering, where the code is wrong, is discussed under
"## Findings"):

- An update of a known path (`Object.assign`) does not move the entry to
  another archive bucket, does not re-sort anything and adds no url key. The
  old url key still leads to the updated record. Changing `featured` on an
  update neither adds the entry to the featured list nor removes it.
- The archive and the featured list are sorted only when an entry is inserted.
- A front-matter field named `title`, `body` or `url` is overridden on pages.
  On entries, only the fields the entry object lists are kept.

## Model

| member | source | states |
|---|---|---|
| Text.IndexOf | store.mjs:128 | `indexOf` finds the first occurrence: -1 exactly when the character is absent, otherwise an index holding it with none before it |
| Text.LastIndexOf | store.mjs:78 | `lastIndexOf`, as `path.parse` uses it: -1 exactly when absent, otherwise an index holding the character with none after it |
| Text.TrimShape | store.mjs:133 | `trim` keeps a slice of its input that neither starts nor ends with whitespace, and everything it drops is whitespace |
| Text.TrimNoLeadingSpace | store.mjs:133 | on a string that starts with a non-space, `trim` only drops trailing whitespace |
| Text.SplitWord | store.mjs:137 | `split(/\s+/)` yields a word that is followed by one space and then non-space text as a piece of its own |
| Text.PaddedRoundTrip | store.mjs:93-95 | a number zero-padded by `padStart` reads back as the number |
| Text.PaddedInjective | store.mjs:93-95 | different numbers give different zero-padded texts |
| Text.TwoDigits | store.mjs:93-95 | a number below 100 pads to exactly two characters, the tens digit and then the units digit |
| Text.DecimalRoundTrip | store.mjs:144-145 | the decimal text of a natural number reads back as the number |
| Text.LowerSameCase | store.mjs:139 | `toLowerCase` tells apart strings whose capitals sit at the same places |
| Dates.ToStringTokens | store.mjs:137 | tokens 1 to 3 of `date.toString().split(/\s+/)` are the month name, the two-digit day and the year |
| Dates.TokensHaveNoSpace | store.mjs:137 | the weekday, month, day and year tokens contain no whitespace, so the split keeps them whole |
| Dates.MonthKeyShape | store.mjs:93-95 | the archive month key is two digits, reads back as the month, and starts with "0" exactly for months 1 to 9 |
| Dates.MonthKeyInjective | store.mjs:93-95 | two dates share a month key exactly when they share the month |
| Dates.YearTokenRoundTrip | store.mjs:137-139 | the year token is at least four characters long, is all digits after an optional sign, starts with "-" exactly for negative years, and reads back as the year |
| Dates.DayTokenRoundTrip | store.mjs:137-139 | the day token has two digits and reads back as the day |
| Dates.LowerMonthInjective | store.mjs:139 | the lower-cased month names in urls are still different for different months |
| Dates.YearTokenSeparators | store.mjs:139 | a year token contains neither "/" nor ":", so it cannot blur the url or id fields |
| Content.FromFirstHash | store.mjs:128 | the text from the first "#" is a suffix of the source that starts with that "#"; without a "#" it is only the last character |
| Content.ExtractTitle | store.mjs:127-130 | a title never holds a line terminator and never starts with whitespace |
| Content.NoHashNoTitle | store.mjs:127-130 | a body without "#" has the empty title |
| Content.HashWithoutSpaceNoTitle | store.mjs:128-129 | when the first "#" is not followed by whitespace the title is empty |
| Content.TitleOfHeading | store.mjs:127-130 | after the first "#" and a run of whitespace, which may include line breaks, the title is the rest of that line |
| Content.ExtractBody | store.mjs:132-134 | the body has no leading or trailing whitespace |
| Content.BodyOfHeading | store.mjs:132-134 | with a "#" present, the body starts with the first "#" and is the text from there with its trailing whitespace dropped |
| Content.BodyWithoutHash | store.mjs:132-134 | without a "#", the body is only the last character of the source, or empty if that character is whitespace |
| Content.BaseName | store.mjs:78 | the base name is the suffix after the last "/": it contains no "/", and unless it is the whole path the character just before it is a "/" |
| Content.PageNameOfFile | store.mjs:78 | the file `dir/name.md` gives the page name `name` |
| Content.GenURL | store.mjs:136-140 | the url is year "/" lower-case month name "/" two-digit day "/" slug, where the slug is taken from the title or else from the whole file path |
| Content.GenURLInjective | store.mjs:136-140 | two entries get the same url exactly when they share the calendar day and the slug |
| Content.GenID | store.mjs:142-146 | an id starts with "tag:hire.jonasgalvez.com.br," |
| Content.TagRoundTrip | store.mjs:142-146 | an id reads back as the entry's year and url, the date and specific parts of an RFC 4151 tag URI |
| Content.TagDateIsFourDigits | store.mjs:142-146 | for years 1000 to 9999 the date part is the four-digit year of RFC 4151, section 2.1 |
| Text.NumberString | store.mjs:144-145 | `String(year)` starts with "-" exactly for negative years, is all digits after that sign, and reads back as the year |
| Content.ParseEntry | store.mjs:115-125 | parsing fails, with "`<file>` is not dated", exactly when the date is missing or does not parse; on success `published` keeps the raw date, `date` the parsed one, and the other fields are carried over |
| Sorting.SortDescending | store.mjs:111-113 | `sortByDate` orders latest first and is a permutation of its input |
| Sorting.SortStable | store.mjs:111-113 | entries with equal times keep their relative order, as in a stable `Array.prototype.sort` |
| Sorting.SortSortedUnchanged | store.mjs:111-113 | sorting a list that is already latest-first changes nothing |
| Sorting.SortIdempotent | store.mjs:111-113 | sorting twice gives the same list as sorting once |
| Sorting.InsertDescending | store.mjs:107 | adding one entry to a sorted bucket and sorting keeps it latest-first |
| Sorting.InsertPermutes | store.mjs:102-107 | the insertion loses and duplicates nothing |
| Store.EmptyValid | store.mjs:10-14 | the empty store satisfies the store invariant |
| Store.AssignFields | store.mjs:80-81 | `Object.assign` on a page sets every new field and keeps the old fields the new page lacks |
| Store.PlaceBucket | store.mjs:96-102 | setting one archive bucket leaves every other year and month as it was |
| Store.AddToArchive | store.mjs:91-108 | the archive insert touches only the archive and the featured list |
| Store.AddToArchiveBucket | store.mjs:92-107 | the entry's year and month bucket gains exactly the entry and ends up latest-first; no other bucket changes |
| Store.AddToArchiveFeatured | store.mjs:103-106 | the featured list gains the entry exactly when it is featured and is then latest-first; otherwise it does not change |
| Store.AddToArchiveValid | store.mjs:91-108 | the archive insert keeps the store invariant, with month keys "01" to "12" |
| Store.TwoDigitMonth | store.mjs:93-95 | every month key the archive writes is one of "01" to "12" |
| Store.EntryIdentity | store.mjs:48-56 | an entry's id reads back as its year and url, and its url starts with its year |
| Store.InsertEntrySpec | store.mjs:62-64 | an insert gives the entry the next id, points the url and the path at it, leaves pages alone, and adds the url to the key order only when it is new |
| Store.InsertEntryValid | store.mjs:62-64 | inserting an entry whose url holds a "/", as every url `genURL` builds does, keeps the store invariant |
| Store.OverwriteSpec | store.mjs:59-60 | an update rewrites the one record the path points to; no other record and no index moves, even when the date changed |
| Store.OverwriteValid | store.mjs:59-60 | an update keeps the store invariant |
| Store.AddEntry | store.mjs:41-69 | `addEntry` fails exactly when `parseEntry` does, with its message; it notifies exactly on a visible update; a hidden entry leaves the store as it was |
| Store.HiddenEntryIgnored | store.mjs:43-46 | a hidden entry changes nothing and sends no notice, but an undated one is rejected first |
| Store.AddEntryValid | store.mjs:41-69 | every successful `addEntry` leaves a store that satisfies the invariant |
| Store.AddEntryInserts | store.mjs:59-108 | a new visible entry is reachable by url, by path, through the key order and through its archive bucket, and is in the featured list exactly when featured |
| Store.AddEntryUpdates | store.mjs:59-68 | an update of a known path rewrites that record only and notifies |
| Store.AddPage | store.mjs:71-89 | `addPage` notifies exactly when it is an update |
| Store.PageFields | store.mjs:74-79 | a page holds every front-matter field, except that `title`, `body` and `url` are the computed ones |
| Store.AddPageValid | store.mjs:71-89 | `addPage` keeps the store invariant |
| Store.AddPageInserts | store.mjs:82-85 | a new page is found by its name and its path, and entries, key order, archive and featured list do not change |
| Store.PageUpdateKeepsOldFields | store.mjs:80-88 | a page update merges the new fields into the old record, keeps old fields the new version lacks, moves no index, and notifies |
| Scan.LiteralMatch | markdown.mjs:23-29 | a literal pattern matches exactly where its text occurs |
| Scan.PositionsLeftmost | markdown.mjs:23-33 | the matches the engine visits are the leftmost non-overlapping ones |
| Scan.LeftmostUnique | markdown.mjs:23-33 | there is only one list of leftmost non-overlapping matches |
| Scan.ReplaceIsSplice | markdown.mjs:23-33 | `replace` with a callback cuts its input at the leftmost non-overlapping matches and puts the callback's replies in order in the cuts, threading the callback's counter |
| Scan.RepliesAt | markdown.mjs:23-33 | the reply to the j-th match is the callback's answer given the counter left by the earlier matches |
| Scan.NoMatchUnchanged | markdown.mjs:23-33 | without a match, `replace` returns its input |
| Scan.EchoLiteralUnchanged | markdown.mjs:23-33 | a callback that answers each literal match with the matched text leaves the input unchanged |
| Scan.ReplaceAllSplice | markdown.mjs:14-15 | replacing a literal by a string replaces every leftmost non-overlapping occurrence and keeps the text between them |
| Scan.ReplaceAllLeavesNone | markdown.mjs:14-15 | a literal replaced by a text whose first character is not in the literal, and which does not contain the literal's first character, leaves no occurrence of the literal |
| Scan.ReplaceKeepsAbsent | markdown.mjs:14-15 | a replacement none of whose characters occur in a text `t` creates no occurrence of `t` where there was none |
| Scan.ReplaceOneChar | markdown.mjs:11 | for a one-character pattern, `replace` substitutes character by character |
| Scan.Exec | markdown.mjs:40-43 | one `exec` call returns the next match at or after `lastIndex`, or reports that none is left |
| Scan.ExecAll | markdown.mjs:38-46 | the `exec` loop finds exactly the matches `replace` visits, in order |
| Markdown.SpanIsCodeSpan | markdown.mjs:21 | a match of /`[^`]+`/ is a backtick, one or more non-backticks and the closing backtick |
| Markdown.CollectRanges | markdown.mjs:38-46 | `collectRanges` returns one pair per code-span match, in order: the match index and the match length minus one |
| Markdown.CodeRangesShape | markdown.mjs:38-46 | each range runs from an opening backtick to the closing one at start plus the second component, and the ranges increase without overlap |
| Markdown.Find | markdown.mjs:24 | `find` returns a range exactly when some range holds the index, and then it is the first such range |
| Markdown.NumberingTestsFind | markdown.mjs:23-32 | the callback hands out the next number, and advances the counter, exactly when `find` finds no range |
| Markdown.NumberingCounter | markdown.mjs:22-33 | after a pass the counter has advanced once per unescaped match |
| Markdown.NumberingReplies | markdown.mjs:22-33 | each match is answered by the label numbered by the unescaped matches before it, or by the escaped text |
| Markdown.NumberPassSpec | markdown.mjs:22-33 | one pass numbers the unescaped matches 1, 2, … in order, the escaped ones do not advance the count, and the text between matches is kept |
| Markdown.TransformMarkdownLinksSpec | markdown.mjs:20-35 | definitions are numbered first; references are numbered in the result with a counter restarted at 1; both passes test the ranges of the original text; escaped matches become "undefined" |
| Markdown.NoLinksUnchanged | markdown.mjs:20-35 | text without empty definitions and empty references comes back unchanged |
| Markdown.SpanRangesAreSpans | markdown.mjs:21-42 | the corrected ranges run from each opening backtick to its closing backtick, and they increase without overlap |
| Markdown.TransformLinksIntendedSpec | markdown.mjs:20-35 | the corrected passes number unescaped links in order, keep escaped ones as they are, and test each pass against the code spans of the text it scans |
| Markdown.IntendedKeepsCode | markdown.mjs:20-35 | empty links that all sit inside code spans are left alone by the corrected transformation |
| Markdown.RangeEndMissesSpan | markdown.mjs:42 | as written, a quoted empty reference whose code span starts at index 4 or later is numbered |
| Markdown.EscapedBecomesUndefined | markdown.mjs:23-32 | as written, a quoted empty reference near the start of the text becomes "undefined" |
| Markdown.StaleRangesNumberCode | markdown.mjs:28-33 | as written, the lengthening by "undefined" pushes a quoted reference out of its stale range, so it is numbered |
| Markdown.QuotedReferenceKept | markdown.mjs:20-35 | the corrected transformation keeps a quoted empty reference wherever it starts |
| Markdown.QuotedLinksKept | markdown.mjs:20-35 | the corrected transformation keeps a quoted empty definition and reference |
| Markdown.MarkAsterismsCharwise | markdown.mjs:10-11 | each "⁂" becomes its paragraph, every other character is kept, and the rewrite distributes over concatenation |
| Markdown.RewriteLinksComplete | markdown.mjs:14-15 | no `nuxt-link` is left after the first rewrite, and after the second there is neither a `to=` nor a `nuxt-link` |
| Markdown.StripPressLinksSpec | markdown.mjs:16 | each removed match is the press-link attribute, with at most one whitespace character before it, and the rest of the HTML is kept |
| Generate.PathsRoundTrip | generate.mjs:6-15 | the five fixed routes come first, in order, then one route per entry key in key order, and removing its leading "/" gives the key back |
| Generate.PathsDistinct | generate.mjs:6-15 | with distinct url keys, each of which holds a "/", no route is added twice |
| Generate.StoreRoutesDistinct | generate.mjs:6-15 | for any valid store, whose url keys all hold the "/" after the year, `paths` adds no route twice |
| Generate.EveryEntryRouted | generate.mjs:12-14 | every url key of a valid store has its route |
| Generate.ImageName | generate.mjs:19 | the image name contains no "/", is four characters longer than the url, and ends in ".png"; before that suffix it is the url with each "/" turned into "-" and every other character kept |
| Generate.ImageNameCollision | generate.mjs:19 | two urls share an image file exactly when they differ only by "/" against "-" at some places, so "a/b" and "a-b" would share a cover |
| Generate.DoneRunWrites | generate.mjs:18-24 | `done` writes only images that are missing, each once, and afterwards the files are those present before plus those written |
| Generate.DoneRunCovers | generate.mjs:18-24 | after `done` every entry has its image, and no file is lost |
| Generate.DoneRunRequests | generate.mjs:20-22 | each written image comes with a request for `/cover/<url>.png` of an entry whose image name it is |
| Generate.DoneRunNothingMissing | generate.mjs:18-20 | when every image exists, `done` requests and writes nothing |
| Generate.DoneIdempotent | generate.mjs:16-26 | a second `done` over the same entries writes nothing |
| Generate.Done | generate.mjs:16-26 | the loop over the entry keys does what `DoneRun` describes |

## Left out

- File and network input and output is not modelled: `readFile`, `writeFile`,
  `existsSync`, `app.inject`, the console message and the image payload. The
  file system is a set of image names.
- The watcher registration (`store.mjs:16-35`) is not modelled. Its found and
  changed callbacks are calls of `AddEntry` and `AddPage` with `update` false
  or true.
- The `drafts` command-line switch is not modelled.
- The hot-reload `ws.send` becomes the `notify` flag of `Store.Step`.
- `gray-matter` is not modelled. An entry's front matter arrives as a
  `Content.Matter`: the raw date text, the truth of `hidden` and `featured`,
  the content and the excerpt.
  - A page's front matter arrives as a map from field names to strings.
  - Front-matter values of other types, and front-matter keys named `content`
    or `excerpt` that would override those fields through `Object.assign`,
    are not modelled.
- `slugify`, `Date.parse` in the machine's time zone and the markdown
  renderer are parameters. The calendar fields of a date are independent
  fields of `Dates.Date`, with no time-zone arithmetic.
- Strings are sequences of characters. UTF-16 surrogate pairs are not
  modelled, and neither is case mapping beyond ASCII in `toLowerCase`. The
  only lower-cased text is a month name.
- `path.parse` is modelled for paths without a trailing "/", which is what
  the watcher reports for markdown files.
- `parseEntry` with `optional` true is not modelled, since every call site
  passes false.
- The remaining files are not part of this model: `covers.mjs` (SVG
  template and rasterizer), `head.js` (static metadata) and `blog.mjs`
  (server wiring).
- Store.AddEntry: an update changes the record through `Object.assign`.
  For an entry, where the new object has every field, this is modelled as
  replacing the record. A path first indexed as a page and later updated as
  an entry, or the other way round, keeps the new record. That case cannot
  arise from the source's disjoint file patterns.
- Store.TimeOf: a record that is not an entry sorts with time value 0; only
  entries ever reach the archive.
- Sorting.SortDescending: the contract states the order and the
  permutation. It does not state that this is the only stable latest-first
  order, though `SortStable` pins down the order within equal times.
- Markdown.CollectRanges: its contract relates the loop to `CodeRanges`.
  The shape of those ranges is stated once, by `CodeRangesShape`.
- Markdown.RewriteLinksComplete: the statement stops before the press-link
  removal. That removal joins the text around each attribute, so it can in
  principle form a new `nuxt-link` or `to=`.
- Markdown.ConvertToHtml has no contract of its own. It is the composition
  of the link numbering, the asterism rewrite, the renderer parameter and
  the HTML rewrites, each of which has one.
- Markdown.ConvertToHtml renders with the corrected link numbering,
  `TransformLinksIntended`, not with `transformMarkdownLinks` as written
  (markdown.mjs:9-10). So the body of every stored entry and page differs
  from the program's whenever the text holds an empty link inside a code
  span, or a code span after a numbered link: for "`][]`" the program
  stores "`undefined`" and the model stores "`][]`". The code as written
  is `TransformMarkdownLinks`, and the three findings below show where the
  two differ.

## Findings

| source | as written | input that shows it | evidently intended | confidence | as-written member | corrected member |
|---|---|---|---|---|---|---|
| markdown.mjs:42 | a range stores the match length minus one as its end, but `find` compares it with an index | "abcd`][]`": the code span starts at 4 and the range is (4, 4), so the reference at 5 counts as unescaped and becomes "][1]" | the range ends at the closing backtick, (start, start + length − 1) | high, not executed | Markdown.RangeEndMissesSpan | Markdown.QuotedReferenceKept |
| markdown.mjs:24-26, 30-32 | the callback returns nothing for an escaped match, so `replace` inserts "undefined" | "`][]`": the range (0, 4) covers the reference at 1, which becomes "`undefined`" | an escaped link is kept as written | high, not executed | Markdown.EscapedBecomesUndefined | Markdown.QuotedReferenceKept |
| markdown.mjs:28-33 | the reference pass tests positions in the transformed text against ranges of the original text | "`\n[]:][]`": the definition becomes "undefined", the reference moves to 10, outside the range (0, 8), and becomes "][1]" | each pass tests against the code spans of the text it scans | high, not executed | Markdown.StaleRangesNumberCode | Markdown.QuotedLinksKept |

The rest of the model renders bodies with the corrected numbering,
`Markdown.TransformLinksIntended`, whose behaviour
`Markdown.TransformLinksIntendedSpec` states.

# ReelFlow landing-page generator, modelled in Dafny

The repository builds one static landing page per company from a CSV file and
an HTML template. The template holds `{{column}}` placeholders. Each row is
written to `output/<slug>/index.html`. There are two revisions of the
generator script:

- `scripts/generate-pages.js` is the older one. It has one template and one
  CSV file, and the slug comes from `company_name`, keeping only letters,
  digits and white space.
- `scripts/generate-pages.mjs` is the newer one. It has two templates
  (website and ABM), reads `websites.csv` and/or `abm.csv` or a file named on
  the command line, and sniffs tab- versus comma-separated input. It prefers a
  `company_slug` column for the directory name, keeps `-` and `_` in slugs and
  counts how many pages use each template.

The model covers:

- both `createSlug` pipelines;
- `populateTemplate`, that is the key-by-key placeholder replacement followed
  by the `{{company_slug}}` pass;
- the routing decisions of the newer script;
- the row and file loops of both scripts.

The files and their modules:

- `text.dfy` (module `Text`) holds the ASCII subset of the JavaScript string
  operations the scripts use: `toLowerCase`, `trim`, the `\s` class, the
  character-class filters and run-collapsing replacements of `createSlug`, and
  a global literal `replace`.
- `template.dfy` (module `Template`) models CSV rows as ordered key/value lists
  and the key loop shared by both revisions of `populateTemplate`.
- `legacy_slug.dfy` and `slug.dfy` model the two `createSlug` revisions.
- `routing.dfy` models template selection, the template file name, delimiter
  sniffing and the default CSV file list.
- `legacy_generator.dfy` and `generator.dfy` model each revision's
  `populateTemplate` and its row loop. The newer revision also has a file loop.

The loops are methods proved equal to specification functions
(`ApplyFields`, `RunRows`, `RunFiles`). The properties are lemmas about those
functions.

## Model

| member | source | states |
|---|---|---|
| Text.Lower | scripts/generate-pages.mjs:13 | `toLowerCase` keeps the length, lower-cases each ASCII capital and leaves every other character alone |
| Text.Trim | scripts/generate-pages.mjs:45 | `trim` leaves no white space at either end, and the result is empty exactly when the input is all white space |
| Text.DropRun | scripts/generate-pages.mjs:17 | `/^[-_]+/` removes the whole leading run: what is left is no longer, starts outside the class, and is shorter whenever the input starts inside it |
| Text.DropRunEnd | scripts/generate-pages.mjs:17 | `/[-_]+$/` removes the whole trailing run: what is left is no longer and ends outside the class |
| Text.TrimRuns | scripts/generate-pages.mjs:17 | the two-sided trim of `-` and `_` removes both end runs and never lengthens the string; its slice, edge and emptiness properties are the three `TrimRuns…` rows below |
| Text.DropRunSuffix | scripts/generate-pages.mjs:17 | removing a leading run of a class keeps a suffix, and everything removed was in the class |
| Text.DropRunEndPrefix | scripts/generate-pages.mjs:17 | removing a trailing run of a class keeps a prefix, and everything removed was in the class |
| Text.TrimRunsSlice | scripts/generate-pages.mjs:17 | removing the runs of a class at both ends keeps a contiguous slice of the input |
| Text.TrimRunsEdges | scripts/generate-pages.mjs:17 | what is left after removing the runs at both ends neither starts nor ends with a character of the class |
| Text.TrimRunsEmpty | scripts/generate-pages.mjs:17 | nothing is left exactly when every character is in the class |
| Text.SquashRuns | scripts/generate-pages.js:10-11 | `/\s+/g` and `/-+/g` with one replacement character: the result is never longer than the input; what it holds is stated by the three `SquashRuns…` rows below |
| Text.SquashRunsChars | scripts/generate-pages.js:10-11 | after a run-collapsing replace, every character is the replacement or an input character outside the collapsed class |
| Text.SquashRunsNoAdjacent | scripts/generate-pages.js:11 | collapsing runs of a class into a member of that class leaves no two neighbouring members |
| Text.SquashRunsIdentity | scripts/generate-pages.js:10-11 | a string with no run to collapse is left unchanged |
| Text.KeepAlnum | scripts/generate-pages.js:9 | `/[^a-z0-9…]/g` with `''`: the result is no longer than the input and holds only lower-case letters, digits and the extra characters |
| Text.KeepAlnumFrom | scripts/generate-pages.js:9 | the character filter only keeps characters of the input |
| Text.KeepAlnumIdentity | scripts/generate-pages.js:9 | the filter leaves a string of allowed characters unchanged |
| Text.KeepAlnumConcat | scripts/generate-pages.js:9 | the filter works character by character: filtering a concatenation concatenates the filtered parts |
| Text.KeepAlnumTwice | scripts/generate-pages.js:9 | filtering to letters and digits after a filter that also keeps other characters is the same as filtering once |
| Text.SquashRunsAlnums | scripts/generate-pages.js:10-11 | collapsing runs of a non-alphanumeric class into a non-alphanumeric character keeps every letter and digit, in order |
| Text.TrimRunsAlnums | scripts/generate-pages.mjs:17 | removing runs of a non-alphanumeric class at both ends keeps every letter and digit, in order |
| Text.KeepAlnumWords | scripts/generate-pages.js:9 | letters and digits, a kept gap and letters and digits, followed only by dropped characters, filter to the three parts unchanged |
| Text.SquashRunsWords | scripts/generate-pages.js:10 | two pieces without class characters around one run of the class collapse to the pieces joined by one replacement character |
| Text.KeepAlnumAgree | scripts/generate-pages.mjs:14 | two filters that differ only in characters absent from the input give the same result |
| Text.ReplaceAll | scripts/generate-pages.mjs:41 | `replace(new RegExp(p, 'g'), v)` on a literal pattern, scanning left to right over non-overlapping occurrences; it is characterised by `ReplaceAllAbsent`, `ReplaceAllSplit` and `Template.ReplaceRender` |
| Text.ReplaceAllAbsent | scripts/generate-pages.mjs:41 | a global replace of a pattern that does not occur leaves the page unchanged |
| Text.ReplaceAllSplit | scripts/generate-pages.mjs:41 | when no occurrence straddles a cut, a global replace works on each side of the cut separately |
| Template.Lookup | scripts/generate-pages.mjs:40 | `row[key]` is missing exactly when no column has that key; otherwise it is the value of the first such column |
| Template.LookupSnoc | scripts/generate-pages.mjs:40 | a column added at the end is found only when no earlier column has its key |
| Template.ApplyFields | scripts/generate-pages.mjs:38-42 | the key loop as a function of the row, one global replace per column in key order; `Template.ApplyFieldsFill` proves it equal to the reference `Fill` |
| Template.FillFields | scripts/generate-pages.mjs:38-42 | the key loop reassigns the page once per column, in key order, and ends with `ApplyFields` of the whole row |
| Template.ReplaceAround | scripts/generate-pages.mjs:39-41 | replacing `{{k}}` touches a placeholder `{{h}}` in the page only when `h` is `k`, and works on either side of it separately |
| Template.ReplaceFromPlaceholder | scripts/generate-pages.mjs:39-41 | in a page that starts with `{{h}}`, replacing `{{k}}` turns that placeholder into the value only when `h` is `k`, and replaces the rest separately |
| Template.ApplyFieldsAround | scripts/generate-pages.js:31-35 | a placeholder whose key is not a column survives the key loop literally |
| Template.ApplyFieldsNoBraces | scripts/generate-pages.js:31-35 | a template without `{{` is not changed by the key loop |
| Template.LookupInsert | scripts/generate-pages.mjs:40 | inserting a column with another key anywhere in the row does not change the lookup of a key |
| Template.ReplaceRender | scripts/generate-pages.mjs:39-41 | on a template of literal text and placeholders, replacing `{{k}}` everywhere turns exactly the placeholders of `k` into the value and leaves all else in place |
| Template.ApplyFieldsFill | scripts/generate-pages.mjs:38-42 | the key loop over a template of literal text and placeholders gives `Fill`: every placeholder whose key is a column holds the first such column's raw value, every other placeholder stays literally, and the literal text is unchanged |
| Template.ApplyFieldsFills | scripts/generate-pages.mjs:38-42 | a placeholder `{{h}}` anywhere in such a template, with any number of other placeholders on either side, becomes the value of column `h`, and each side is filled on its own |
| LegacySlug.Collapsed | scripts/generate-pages.js:8-11 | after lower-casing, filtering and collapsing, only `[a-z0-9-]` is left, with no `--`, and the result is no longer than the filtered name |
| LegacySlug.TrimHyphen | scripts/generate-pages.js:12 | dropping one hyphen at each end of a collapsed string leaves none at either end |
| LegacySlug.CreateSlug | scripts/generate-pages.js:6-13 | the slug has only `[a-z0-9-]`, no `--`, no hyphen at either end, is no longer than the name, and holds exactly the letters and digits of the lower-cased name, in order |
| LegacySlug.CollapsedAlnums | scripts/generate-pages.js:8-11 | lower-casing, filtering and collapsing keep exactly the letters and digits of the lower-cased name, in order |
| LegacySlug.TrimHyphenAlnums | scripts/generate-pages.js:12 | dropping the end hyphens keeps every letter and digit |
| LegacySlug.SpacedWords | scripts/generate-pages.js:6-13 | two words separated by white space and followed by punctuation give the two lower-cased words joined by one hyphen |
| LegacySlug.AcmeCorp | scripts/generate-pages.js:6-13 | "Acme Corp!!" gives "acme-corp" |
| LegacySlug.HyphensOnlyFromSpaces | scripts/generate-pages.js:9-10 | a name without white space gives a slug without hyphens: the filter drops the name's own hyphens |
| LegacySlug.CollapsedWithoutSpaces | scripts/generate-pages.js:8-11 | for a name without white space, the two collapsing steps change nothing after the filter, and only letters and digits are left |
| LegacySlug.HyphenJoinDropped | scripts/generate-pages.js:6-13 | two words joined by a hyphen give the two lower-cased words run together, as "Acme-Corp" gives "acmecorp" |
| LegacySlug.SlugFixpoint | scripts/generate-pages.js:6-13 | the strings this revision leaves unchanged are exactly the strings of lower-case letters and digits |
| LegacySlug.NotIdempotent | scripts/generate-pages.js:9-11 | "a b" gives "a-b", and "a-b" gives "ab" |
| LegacySlug.SettlesAfterTwo | scripts/generate-pages.js:6-13 | a third application changes nothing after the second |
| Slug.Collapsed | scripts/generate-pages.mjs:13-16 | after lower-casing, filtering and collapsing, only `[a-z0-9_-]` is left, with no `--` |
| Slug.TrimSeparators | scripts/generate-pages.mjs:17 | trimming the runs of `-` and `_` at both ends leaves neither at either end, and keeps the character set and the absence of `--` |
| Slug.CreateSlug | scripts/generate-pages.mjs:10-18 | the slug has only `[a-z0-9_-]`, no `--`, neither `-` nor `_` at either end, is no longer than the name, and holds exactly the letters and digits of the lower-cased name, in order |
| Slug.CollapsedAlnums | scripts/generate-pages.mjs:13-16 | lower-casing, filtering and collapsing keep exactly the letters and digits of the lower-cased name, in order |
| Slug.SpacedWords | scripts/generate-pages.mjs:10-18 | two words separated by white space and followed by punctuation other than `-` and `_` give the two lower-cased words joined by one hyphen |
| Slug.AcmeCorp | scripts/generate-pages.mjs:10-18 | "Acme Corp!!" gives "acme-corp" |
| Slug.CreateSlugOf | scripts/generate-pages.mjs:10 | a missing name is slugged as the empty string, which gives the empty slug |
| Slug.SlugIsFixed | scripts/generate-pages.mjs:10-18 | a valid slug passes the pipeline unchanged |
| Slug.SlugFixpoint | scripts/generate-pages.mjs:10-18 | the strings left unchanged are exactly the valid slugs |
| Slug.SlugIdempotent | scripts/generate-pages.mjs:10-18 | slugging a slug changes nothing |
| Slug.AgreesWithLegacy | scripts/generate-pages.mjs:14-17 | on names without `-` and `_` both revisions give the same slug |
| Routing.KindName | scripts/generate-pages.mjs:118-124 | the template type passed on is `"abm"` exactly for ABM rows |
| Routing.TemplateFileName | scripts/generate-pages.mjs:21-23 | exactly the type `"abm"` selects abm-landing-page.html; every other type, a missing one included, selects website-landing-page.html |
| Routing.TemplateFileRoundTrip | scripts/generate-pages.mjs:23 | each template kind has its own file, and the file gives the kind back |
| Routing.UseCase | scripts/generate-pages.mjs:117 | the use case is one of the two use-case cells or the file name, and is empty only when all three are |
| Routing.UseCasePriority | scripts/generate-pages.mjs:117 | a non-empty `use_case` wins over `Use Case`, which wins over the file name |
| Routing.SelectTemplate | scripts/generate-pages.mjs:117-124 | the kind is ABM exactly when the file is abm.csv or the use case lower-cases to `abm` |
| Routing.LowerIsAbm | scripts/generate-pages.mjs:120 | the strings that lower-case to `abm` are the three letters in any mix of cases |
| Routing.UseCaseColumnDecides | scripts/generate-pages.mjs:117-124 | outside abm.csv a non-empty `use_case` cell alone decides the kind, case-insensitively |
| Routing.FileNameDecides | scripts/generate-pages.mjs:117-124 | without a use case, rows of websites.csv get the website template and rows of abm.csv the ABM template |
| Routing.FirstLine | scripts/generate-pages.mjs:103 | the first line is the longest prefix without a line feed |
| Routing.FirstLineOf | scripts/generate-pages.mjs:103 | whatever follows the first line feed does not change the first line |
| Routing.DetectSeparator | scripts/generate-pages.mjs:100-105 | an unreadable file is read as comma-separated |
| Routing.HasTab | scripts/generate-pages.mjs:104 | `firstLine.includes('\t')`: some character of the line is a tab |
| Routing.TabIffInnerTab | scripts/generate-pages.mjs:103-104 | the trimmed line has a tab exactly when the line has a tab with non-white-space characters on both sides |
| Routing.SeparatorFromFirstLine | scripts/generate-pages.mjs:100-105 | a file is read as tab-separated exactly when its first line has such an inner tab |
| Routing.SeparatorFromSample | scripts/generate-pages.mjs:100-105 | for every readable sample, with or without a line feed, the file is read as tab-separated exactly when the sample's first line has an inner tab |
| Routing.SeparatorOfOneLine | scripts/generate-pages.mjs:100-105 | a sample without a line feed, such as a one-line file, is read as tab-separated exactly when it has an inner tab |
| Routing.ListCsvFiles | scripts/generate-pages.mjs:76-90 | a non-empty argument is the only file; otherwise websites.csv and abm.csv are listed exactly when they exist, once each, websites.csv first |
| Generator.RowSlug | scripts/generate-pages.mjs:45-46 | the page slug is always a valid slug of the newer revision |
| Generator.ProvidedSlugKept | scripts/generate-pages.mjs:132-133 | a `company_slug` cell that already is a non-empty slug is used as the directory name unchanged |
| Generator.NameSlugFallback | scripts/generate-pages.mjs:132-133 | when `company_slug` is missing or blank, the slug is made from `company_name`, and a missing name counts as `""` |
| Generator.Populated | scripts/generate-pages.mjs:34-50 | `populateTemplate`: the key loop, then `{{company_slug}}` replaced by the directory slug; `Generator.PopulatedAsColumn` and `Generator.PopulatedIsFill` state what page it gives |
| Generator.PopulateTemplate | scripts/generate-pages.mjs:34-50 | the key loop followed by the `{{company_slug}}` pass gives `Populated` |
| Generator.PopulateNoBraces | scripts/generate-pages.mjs:34-50 | a template without `{{` comes back unchanged |
| Generator.UnknownPlaceholderKept | scripts/generate-pages.mjs:38-47 | a placeholder whose key is neither a column nor `company_slug` stays in the page literally |
| Generator.PopulatedAsColumn | scripts/generate-pages.mjs:38-47 | the `{{company_slug}}` pass acts as one more column `company_slug` holding the directory slug, after all the row's columns |
| Generator.PopulatedIsFill | scripts/generate-pages.mjs:34-50 | on a template of literal text and placeholders, the page is `Fill` of the row with the slug column added last: the row's own cells win, and `{{company_slug}}` falls back to the slug |
| Generator.RawSlugColumnFills | scripts/generate-pages.mjs:38-47 | with a `company_slug` column, its raw cell, not the slug made from it, fills `{{company_slug}}` wherever it stands among other placeholders |
| Generator.ComputedSlugFills | scripts/generate-pages.mjs:45-47 | without a `company_slug` column, `{{company_slug}}` becomes the slug of `company_name` wherever it stands among other placeholders |
| Generator.Usage.Bump | scripts/generate-pages.mjs:126 | one row adds one to its own kind's counter and leaves the other counter alone |
| Generator.RowStep | scripts/generate-pages.mjs:114-148 | one row: its kind's counter goes up; a kind without a readable template exits; otherwise a written row stores its page under its slug |
| Generator.RunRows | scripts/generate-pages.mjs:114-148 | the row loop of one file, stopping once the process has exited; `UsageCounted`, `PagesUntouched`, `LastWriteWins` and `MissingTemplateExits` state what it produces |
| Generator.ProcessRows | scripts/generate-pages.mjs:114-148 | the row loop of one file ends in `RunRows` |
| Generator.UsageCounted | scripts/generate-pages.mjs:126 | with both templates readable, each counter grows by the number of rows of its kind, whether or not their pages were written, and the process does not exit |
| Generator.PagesUntouched | scripts/generate-pages.mjs:134-147 | a slug that no written row produces keeps its earlier page, or stays absent |
| Generator.LastWriteWins | scripts/generate-pages.mjs:141-147 | a slug's page comes from the last written row with that slug, whatever earlier rows failed |
| Generator.MissingTemplateExits | scripts/generate-pages.mjs:126-129 | a row whose template cannot be read is counted, nothing is written for it, and the run ends |
| Generator.RunFiles | scripts/generate-pages.mjs:95-153 | the file loop in list order, each file's rows after the previous file's, stopping once the process has exited; `LaterFileWins` states its order |
| Generator.GeneratePages | scripts/generate-pages.mjs:73-153 | the file loop ends in `RunFiles` from `Start`: no pages, both counters zero, not exited |
| Generator.LaterFileWins | scripts/generate-pages.mjs:84-95 | when websites.csv and abm.csv give the same slug, the ABM page is the one left |
| Generator.RunEnding | scripts/generate-pages.mjs:56-161 | every csv-parser stream's promise is awaited inside the `try`, so a run never ends with an unhandled rejection |
| Generator.FilesEnding | scripts/generate-pages.mjs:95-153 | the file loop ends at the first csv-parser error or template exit, and never with an unhandled rejection |
| Generator.FilesExitLikeRunFiles | scripts/generate-pages.mjs:95-153 | without csv-parser errors, the loop ends by exiting exactly when `RunFiles` exits, and completes otherwise |
| Generator.FilesReported | scripts/generate-pages.mjs:95-153 | with both templates readable, the loop never exits and ends in the `catch` exactly when some csv-parser stream fails |
| Generator.TemplateExitEndsRun | scripts/generate-pages.mjs:20-31 | without set-up or csv-parser errors, a run ends by `loadTemplate`'s exit exactly when the row loop reaches a template it cannot read |
| Generator.EveryFailureReported | scripts/generate-pages.mjs:56-161 | with both templates readable, no run exits, and a run is reported as failed exactly when the set-up or some csv-parser stream fails |
| Generator.OneFileAwaited | scripts/generate-pages.mjs:107 | with one file and both templates readable, this revision ends as the older one would with its stream awaited |
| LegacyGenerator.RowSlug | scripts/generate-pages.js:71 | a row has a slug exactly when it has `company_name`, and that slug is valid for the older revision |
| LegacyGenerator.SlugIgnoresSlugColumn | scripts/generate-pages.js:38 | inserting a `company_slug` column at any position does not change the slug |
| LegacyGenerator.Populated | scripts/generate-pages.js:27-42 | `populateTemplate` gives a page exactly when the row has `company_name`; otherwise `createSlug` throws |
| LegacyGenerator.PopulateTemplate | scripts/generate-pages.js:27-42 | the key loop followed by the slug pass gives `Populated` |
| LegacyGenerator.PopulateNoBraces | scripts/generate-pages.js:27-42 | a template without `{{` comes back unchanged for a named row |
| LegacyGenerator.UnknownPlaceholderKept | scripts/generate-pages.js:31-39 | a placeholder whose key is neither a column nor `company_slug` stays in the page literally |
| LegacyGenerator.PopulatedIsFill | scripts/generate-pages.js:27-42 | on a template of literal text and placeholders, a named row's page is `Fill` of the row with the slug of `company_name` added as the last column |
| LegacyGenerator.NameSlugFills | scripts/generate-pages.js:38-39 | without a `company_slug` column, `{{company_slug}}` becomes the slug of `company_name` wherever it stands among other placeholders |
| LegacyGenerator.RowStep | scripts/generate-pages.js:68-86 | one row: without `company_name` it is skipped; otherwise a written row stores its page under its slug |
| LegacyGenerator.RunRows | scripts/generate-pages.js:68-86 | the row loop in file order; `FailedRowSkipped`, `PagesUntouched` and `LastWriteWins` state what it produces |
| LegacyGenerator.GeneratePages | scripts/generate-pages.js:68-86 | the row loop ends in `RunRows` from an empty output |
| LegacyGenerator.FailedRowSkipped | scripts/generate-pages.js:83-85 | a row that fails (no name, or its write fails) leaves the same result as a file without that row |
| LegacyGenerator.PagesUntouched | scripts/generate-pages.js:71-80 | a slug that no written, named row produces keeps its earlier page, or stays absent |
| LegacyGenerator.LastWriteWins | scripts/generate-pages.js:71-80 | a slug's page comes from the last written row with that slug |
| LegacyGenerator.RunEnding | scripts/generate-pages.js:48-98 | a failed output directory is reported by the `catch`, and a run without failures completes |
| LegacyGenerator.StreamErrorEscapes | scripts/generate-pages.js:61-98 | a csv-parser error ends the run with an unhandled rejection, where the awaited form reports it |
| LegacyGenerator.AwaitedEnding | scripts/generate-pages.js:48-98 | with the stream's promise awaited, no run ends unhandled, and a run is reported exactly when something fails |
| LegacyGenerator.AwaitedDiffersOnlyOnStream | scripts/generate-pages.js:61 | the script as written and the awaited form differ exactly on a csv-parser error after the directory is ready |

## Left out

- Unicode: `toLowerCase`, `trim` and `\s` are modelled on ASCII. Only `A`-`Z` are lower-cased. White space is space, tab, line feed, carriage return, vertical tab and form feed. Non-ASCII characters whose lower case is ASCII are not modelled, such as the Kelvin sign and dotted capital I.
- Regular-expression semantics: `populateTemplate` builds a pattern from the key without escaping it, and `replace` expands `$` in values. `Template.RegexSafe` lists what the methods require: keys without metacharacters that are not digit-and-comma quantifiers, and values without `$`. Under it the literal replace-all is exact. The specification functions are stated for all rows.
- A key that makes `new RegExp` throw is not modelled; in the source its row would be caught and skipped.
- Rows: csv-parser's quoting, header trimming and delimiter handling are not modelled. A row is given as its ordered columns. The delimiter is computed but not used.
- Every cell is a string, so `value || ''` is the value itself.
- A JavaScript object cannot repeat a key. With a repeated CSV header, csv-parser's row object has that key once, at its first position, holding the last cell under it. The model allows repeated keys and looks up the first column with a key, so it departs from the source only on files with repeated headers. Object.keys puts integer-like keys first; that ordering is not modelled, and such keys are excluded by the regex precondition.
- File system: directories, asset copying, reading and writing are not modelled.
  - Whether a page's directory and file were written is an input flag per row.
  - Whether `websites.csv` and `abm.csv` exist is an input flag each.
  - An unreadable sniffing sample is `None`.
  - The templates that can be read are a map fixed for the whole run.
  - The output is a map from slug to page. How `path.join` treats an empty or dotted slug is not modelled.
- Console output and the final usage report are not modelled. How a run ends is modelled by `RunEnding` in each revision. In scripts/generate-pages.mjs it takes flags for the set-up and for each file's csv-parser stream, and follows the row loop for `loadTemplate`'s exit. In scripts/generate-pages.js it takes flags for the output directory and the csv-parser stream; the template-load exit of that revision is left out with template loading. The error itself is not part of that model.
- In scripts/generate-pages.mjs the outer `catch` reports a failed output directory, a failed asset copy or an `'error'` of a csv-parser stream, and exits with status 1, because each stream's promise is awaited inside the `try`. In scripts/generate-pages.js the stream's promise is returned without `await`, so a csv-parser error rejects the function's promise after the `try` is left and the direct call at line 103 does not handle it (see Findings). What Node.js then does with the unhandled rejection is not modelled.
- A CSV file that cannot be opened or read is not modelled as an ending. Both revisions attach `'error'` only to the csv-parser stream (scripts/generate-pages.js:92, scripts/generate-pages.mjs:151); `pipe` does not pass the read stream's error on, so that error reaches neither `reject` nor the `catch`, and the process ends with an uncaught exception.
- Template loading in scripts/generate-pages.js is left out. That revision loads its one template before any row, and a failure exits before anything is written, so the template is a parameter.
- The newer revision's template-load failure is modelled: the process exits, which is the `exited` flag.
- The entry points (`import.meta.url` / `require.main` checks) are left out. The command-line argument is the `Option` given to `ListCsvFiles`.
- LegacySlug.CreateSlug: idempotence is not claimed, because it does not hold (see Findings). What is proved instead is `LegacySlug.SlugFixpoint` and `LegacySlug.SettlesAfterTwo`.
- Template.ApplyFieldsFill: stated for templates read as literal text and placeholders with no stray `{{` in the text and no `{` right before a placeholder, and for values without `{{` that do not end in `{`. Elsewhere a replacement can create or break a placeholder; those templates are covered only by the general lemmas `Template.ApplyFieldsAround` and `Template.ApplyFieldsNoBraces`.
- Template.ApplyFieldsFills: the same restriction on the template around the placeholder and on the values.
- Generator.RawSlugColumnFills: the same restriction on the template around `{{company_slug}}` and on the values.
- Generator.ComputedSlugFills: the same restriction on the template around `{{company_slug}}` and on the values.
- LegacyGenerator.NameSlugFills: the same restriction on the template around `{{company_slug}}` and on the values.
- Generator.Populated: when a row has a `company_slug` cell that is not already a slug, the page's `{{company_slug}}` and the directory name differ. For example, the cell ` Acme Corp ` goes into the page as is, while the directory is `acme-corp`. This is modelled as written and stated by `Generator.RawSlugColumnFills`, not corrected.

## Findings

| source | as written | input that shows it | evidently intended | confidence | as-written member | corrected member |
|---|---|---|---|---|---|---|
| scripts/generate-pages.js:9 | the character filter drops `-`, including the hyphens the next step produces from white space, so slugging a slug changes it | "a b": the slug is "a-b", and slugging "a-b" gives "ab" | hyphens survive the filter, so a slug is its own slug; scripts/generate-pages.mjs:14 does this | not executed; medium: the newer revision's filter keeps `-` and `_` | LegacySlug.NotIdempotent | Slug.SlugIdempotent |
| scripts/generate-pages.js:61 | the stream's promise is returned from inside the `try` without `await`, so a stream error bypasses the `catch` that reports failures and exits | the csv-parser stream emits `'error'` while parsing data/landingpages.csv (for example a row over its `maxRowBytes` limit); `reject` is then called after `generatePages` has left its `try` | the error is reported and the process exits with status 1, as the awaited promise at scripts/generate-pages.mjs:107 does for a csv-parser error | not executed; medium: a returned promise's rejection is not seen by the enclosing `try`, but csv-parser rarely emits `'error'` with the options used here | LegacyGenerator.StreamErrorEscapes | LegacyGenerator.AwaitedEnding |

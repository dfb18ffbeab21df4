/**
  `populateTemplate` and the row loop of `generatePages` in
  scripts/generate-pages.mjs: each row of each CSV file is routed to a
  template, counted, populated and written to `<slug>/index.html`.
 */
module Generator {
  import opened Optional
  import opened Text
  import opened Template
  import opened Slug
  import opened Routing
  import opened Outcome
  import LegacyGenerator

  /**
    The slug of a row: a non-empty, trimmed `company_slug` cell is slugged
    again, otherwise `company_name` is slugged (a missing name as `""`).
   */
  function RowSlug(row: Row): (slug: string)
    ensures IsSlug(slug)
  {
    var provided := Trim(Lookup(row, "company_slug").GetOr(""));
    if provided != "" then CreateSlug(provided) else CreateSlugOf(Lookup(row, "company_name"))
  }

  /** A valid slug has no white space, so `trim` leaves it alone. */
  lemma SlugTrimmed(s: string)
    requires IsSlug(s)
    ensures Trim(s) == s
  {
    assert forall i :: 0 <= i < |s| ==> s[i] !in Whitespace;
    DropRunNone(s, Whitespace);
    DropRunEndNone(s, Whitespace);
  }

  /** A `company_slug` cell that already is a slug names the page directory as it is. */
  lemma ProvidedSlugKept(row: Row, s: string)
    requires Lookup(row, "company_slug") == Some(s)
    requires IsSlug(s) && s != ""
    ensures RowSlug(row) == s
  {
    SlugTrimmed(s);
    SlugIsFixed(s);
  }

  /** Without a usable `company_slug` cell the slug comes from `company_name`. */
  lemma NameSlugFallback(row: Row)
    requires forall i :: 0 <= i < |Lookup(row, "company_slug").GetOr("")|
                         ==> Lookup(row, "company_slug").GetOr("")[i] in Whitespace
    ensures RowSlug(row) == CreateSlug(Lookup(row, "company_name").GetOr(""))
  {
  }

  const SlugPlaceholder: string := Placeholder("company_slug")

  /** The page `populateTemplate(template, row)` returns. */
  function Populated(template: string, row: Row): string {
    ReplaceAll(ApplyFields(template, row), SlugPlaceholder, RowSlug(row))
  }

  /** `populateTemplate`: the key loop, then the `{{company_slug}}` pass. */
  method PopulateTemplate(template: string, row: Row) returns (page: string)
    requires RegexSafe(row)
    ensures page == Populated(template, row)
  {
    page := FillFields(template, row);
    var providedSlug := Trim(Lookup(row, "company_slug").GetOr(""));
    var companySlug := if providedSlug != "" then CreateSlug(providedSlug)
                       else CreateSlugOf(Lookup(row, "company_name"));
    page := ReplaceAll(page, SlugPlaceholder, companySlug);
  }

  /** A template without `{{` comes back unchanged. */
  lemma PopulateNoBraces(template: string, row: Row)
    requires !Contains(template, "{{")
    ensures Populated(template, row) == template
  {
    ApplyFieldsNoBraces(template, row);
    NoPlaceholder(template, "company_slug");
    ReplaceAllAbsent(template, SlugPlaceholder, RowSlug(row));
  }

  /**
    A placeholder whose key is neither a column of the row nor
    `company_slug` is left in the page literally.
   */
  lemma UnknownPlaceholderKept(a: string, h: string, b: string, row: Row)
    requires BraceFree(h) && h != "company_slug"
    requires BraceFreeKeys(row) && Lookup(row, h).None?
    ensures Populated(a + Placeholder(h) + b, row)
            == Populated(a, row) + Placeholder(h) + Populated(b, row)
  {
    SlugKeyBraceFree();
    ApplyFieldsAround(a, h, b, row);
    ReplaceAround(ApplyFields(a, row), h, ApplyFields(b, row), "company_slug", RowSlug(row));
  }

  /** A slug has no braces, so it never starts a placeholder. */
  lemma SlugIsPlain(s: string)
    requires IsSlug(s)
    ensures Plain(s)
  {
    NoOpenBracePlain(s);
  }

  /** The `{{company_slug}}` pass is one more key step, for a column holding the slug. */
  lemma PopulatedAsColumn(template: string, row: Row)
    ensures Populated(template, row) == ApplyFields(template, row + [Field("company_slug", RowSlug(row))])
  {
    assert (row + [Field("company_slug", RowSlug(row))])[..|row|] == row;
  }

  /**
    What a populated page holds: every placeholder whose key is a column gets
    the first such column's raw value; `{{company_slug}}`, when the row has no
    such column, gets the row's slug; every other placeholder stays.
   */
  lemma PopulatedIsFill(ps: seq<Piece>, row: Row)
    requires WellFormedPieces(ps) && PlainRow(row)
    ensures Populated(Render(ps), row) == Fill(ps, row + [Field("company_slug", RowSlug(row))])
  {
    var row' := row + [Field("company_slug", RowSlug(row))];
    PopulatedAsColumn(Render(ps), row);
    SlugKeyBraceFree();
    SlugIsPlain(RowSlug(row));
    assert PlainRow(row') by {
      forall i | 0 <= i < |row'| ensures BraceFree(row'[i].key) && Plain(row'[i].value) {
        if i < |row| {
          assert row'[i] == row[i];
        }
      }
    }
    ApplyFieldsFill(ps, row');
  }

  /**
    When the row has a `company_slug` column, its raw cell, not the slug made
    from it, fills `{{company_slug}}`: the key loop runs before the slug pass.
   */
  lemma RawSlugColumnFills(a: seq<Piece>, b: seq<Piece>, row: Row, v: string)
    requires WellFormedPieces(a) && WellFormedPieces(b) && PlainRow(row)
    requires Lookup(row, "company_slug") == Some(v)
    ensures Populated(Render(a) + SlugPlaceholder + Render(b), row)
            == Populated(Render(a), row) + v + Populated(Render(b), row)
  {
    SlotFilled(a, b, row);
    LookupSnoc(row, Field("company_slug", RowSlug(row)), "company_slug");
  }

  /** Without a `company_slug` column, the computed slug fills `{{company_slug}}`. */
  lemma ComputedSlugFills(a: seq<Piece>, b: seq<Piece>, row: Row)
    requires WellFormedPieces(a) && WellFormedPieces(b) && PlainRow(row)
    requires Lookup(row, "company_slug").None?
    ensures Populated(Render(a) + SlugPlaceholder + Render(b), row)
            == Populated(Render(a), row) + CreateSlug(Lookup(row, "company_name").GetOr("")) + Populated(Render(b), row)
  {
    SlotFilled(a, b, row);
    LookupSnoc(row, Field("company_slug", RowSlug(row)), "company_slug");
  }

  /** `{{company_slug}}` between two well-formed templates gets what `Fill` gives it. */
  lemma SlotFilled(a: seq<Piece>, b: seq<Piece>, row: Row)
    requires WellFormedPieces(a) && WellFormedPieces(b) && PlainRow(row)
    ensures Populated(Render(a) + SlugPlaceholder + Render(b), row)
            == Populated(Render(a), row)
               + Lookup(row + [Field("company_slug", RowSlug(row))], "company_slug").GetOr(SlugPlaceholder)
               + Populated(Render(b), row)
  {
    var row' := row + [Field("company_slug", RowSlug(row))];
    SlugKeyBraceFree();
    WellFormedAround(a, "company_slug", b);
    RenderAround(a, "company_slug", b);
    FillAround(a, "company_slug", b, row');
    PopulatedIsFill(a + [Hole("company_slug")] + b, row);
    PopulatedIsFill(a, row);
    PopulatedIsFill(b, row);
  }

  /** The `templateUsage` counters. */
  datatype Usage = Usage(website: nat, abm: nat) {
    function Count(kind: TemplateKind): nat {
      match kind
      case Website => website
      case Abm => abm
    }

    /** `templateUsage[templateType] = (templateUsage[templateType] || 0) + 1`. */
    function Bump(kind: TemplateKind): (u: Usage)
      ensures u.Count(kind) == Count(kind) + 1
      ensures forall k :: k != kind ==> u.Count(k) == Count(k)
    {
      match kind
      case Website => Usage(website + 1, abm)
      case Abm => Usage(website, abm + 1)
    }
  }

  /**
    What the run has produced so far: the pages written (by slug), the usage
    counters, and whether a template failed to load, which ends the process.
   */
  datatype Run = Run(pages: map<string, string>, usage: Usage, exited: bool)

  /**
    One pass of the row loop. `templates` holds the template files that can
    be read; `written` is whether creating the directory and writing the file
    succeeded (when it does not, the row's error is logged and the loop goes
    on).
   */
  function RowStep(run: Run, fileName: string, row: Row,
                   templates: map<TemplateKind, string>, written: bool): Run
  {
    var kind := SelectTemplate(row, fileName);
    var usage := run.usage.Bump(kind);
    if kind !in templates then Run(run.pages, usage, true)
    else if written then Run(run.pages[RowSlug(row) := Populated(templates[kind], row)], usage, false)
    else Run(run.pages, usage, false)
  }

  /** The row loop over the rows of one file, stopping when the process exits. */
  function RunRows(run: Run, fileName: string, rows: seq<Row>,
                   templates: map<TemplateKind, string>, written: seq<bool>): Run
    requires |written| == |rows|
    decreases |rows|
  {
    if rows == [] || run.exited then run
    else RunRows(RowStep(run, fileName, rows[0], templates, written[0]),
                 fileName, rows[1..], templates, written[1..])
  }

  /** The row loop of one CSV file. */
  method ProcessRows(run0: Run, fileName: string, rows: seq<Row>,
                     templates: map<TemplateKind, string>, written: seq<bool>)
    returns (run: Run)
    requires |written| == |rows|
    requires forall i :: 0 <= i < |rows| ==> RegexSafe(rows[i])
    ensures run == RunRows(run0, fileName, rows, templates, written)
  {
    run := run0;
    var i := 0;
    while i < |rows| && !run.exited
      invariant 0 <= i <= |rows|
      invariant RunRows(run, fileName, rows[i..], templates, written[i..])
                == RunRows(run0, fileName, rows, templates, written)
    {
      var row := rows[i];
      var kind := SelectTemplate(row, fileName);
      run := run.(usage := run.usage.Bump(kind));
      if kind !in templates {
        run := run.(exited := true);
      } else {
        var html := PopulateTemplate(templates[kind], row);
        if written[i] {
          run := run.(pages := run.pages[RowSlug(row) := html]);
        }
      }
      assert rows[i..][1..] == rows[i + 1..] && written[i..][1..] == written[i + 1..];
      i := i + 1;
    }
  }

  /** How many rows of a file get the template `kind`. */
  function CountKind(fileName: string, rows: seq<Row>, kind: TemplateKind): (n: nat)
    ensures n <= |rows|
  {
    if rows == [] then 0
    else (if SelectTemplate(rows[0], fileName) == kind then 1 else 0) + CountKind(fileName, rows[1..], kind)
  }

  /**
    With both templates readable, every row increments exactly one counter,
    the one for its own kind, whether or not its page was written.
   */
  lemma {:induction false} UsageCounted(run: Run, fileName: string, rows: seq<Row>,
                                        templates: map<TemplateKind, string>, written: seq<bool>, kind: TemplateKind)
    requires |written| == |rows| && !run.exited
    requires Website in templates && Abm in templates
    ensures !RunRows(run, fileName, rows, templates, written).exited
    ensures RunRows(run, fileName, rows, templates, written).usage.Count(kind)
            == run.usage.Count(kind) + CountKind(fileName, rows, kind)
    decreases |rows|
  {
    if rows != [] {
      UsageCounted(RowStep(run, fileName, rows[0], templates, written[0]),
                   fileName, rows[1..], templates, written[1..], kind);
    }
  }

  /**
    A slug no written row produces keeps whatever page it had: failing rows
    and rows of other slugs leave it alone.
   */
  lemma {:induction false} PagesUntouched(run: Run, fileName: string, rows: seq<Row>,
                                          templates: map<TemplateKind, string>, written: seq<bool>, slug: string)
    requires |written| == |rows|
    requires forall i :: 0 <= i < |rows| && written[i] ==> RowSlug(rows[i]) != slug
    ensures slug in RunRows(run, fileName, rows, templates, written).pages <==> slug in run.pages
    ensures slug in run.pages ==> RunRows(run, fileName, rows, templates, written).pages[slug] == run.pages[slug]
    decreases |rows|
  {
    if rows != [] && !run.exited {
      PagesUntouched(RowStep(run, fileName, rows[0], templates, written[0]),
                     fileName, rows[1..], templates, written[1..], slug);
    }
  }

  /**
    Last write wins: the page of a slug is the one populated from the last
    written row with that slug, as long as the process has not exited by
    then; rows that failed before it do not stop it from being written.
   */
  lemma {:induction false} LastWriteWins(run: Run, fileName: string, rows: seq<Row>,
                                         templates: map<TemplateKind, string>, written: seq<bool>, i: int)
    requires |written| == |rows| && !run.exited
    requires 0 <= i < |rows| && written[i]
    requires forall j :: 0 <= j <= i ==> SelectTemplate(rows[j], fileName) in templates
    requires forall j :: i < j < |rows| && written[j] ==> RowSlug(rows[j]) != RowSlug(rows[i])
    ensures RowSlug(rows[i]) in RunRows(run, fileName, rows, templates, written).pages
    ensures RunRows(run, fileName, rows, templates, written).pages[RowSlug(rows[i])]
            == Populated(templates[SelectTemplate(rows[i], fileName)], rows[i])
    decreases |rows|
  {
    var next := RowStep(run, fileName, rows[0], templates, written[0]);
    if i == 0 {
      PagesUntouched(next, fileName, rows[1..], templates, written[1..], RowSlug(rows[0]));
    } else {
      LastWriteWins(next, fileName, rows[1..], templates, written[1..], i - 1);
    }
  }

  /**
    A row whose template cannot be read ends the process: it is still
    counted, since the counter goes up before the template is loaded, and
    no later row is processed.
   */
  lemma {:induction false} MissingTemplateExits(run: Run, fileName: string, rows: seq<Row>,
                                                templates: map<TemplateKind, string>, written: seq<bool>)
    requires |written| == |rows| && !run.exited
    requires rows != [] && SelectTemplate(rows[0], fileName) !in templates
    ensures RunRows(run, fileName, rows, templates, written)
            == Run(run.pages, run.usage.Bump(SelectTemplate(rows[0], fileName)), true)
  {
    var next := RowStep(run, fileName, rows[0], templates, written[0]);
    assert next.exited;
  }

  /** One CSV file as the loop sees it: its name, its rows and which page writes succeed. */
  datatype CsvInput = CsvInput(name: string, rows: seq<Row>, written: seq<bool>)

  predicate WellFormed(file: CsvInput) {
    |file.written| == |file.rows|
  }

  /** The loop over the CSV files, in list order, stopping when the process exits. */
  function RunFiles(run: Run, files: seq<CsvInput>, templates: map<TemplateKind, string>): Run
    requires forall i :: 0 <= i < |files| ==> WellFormed(files[i])
    decreases |files|
  {
    if files == [] || run.exited then run
    else
      assert WellFormed(files[0]);
      RunFiles(RunRows(run, files[0].name, files[0].rows, templates, files[0].written), files[1..], templates)
  }

  /** The start of `generatePages`: no page written and both counters at zero. */
  const Start: Run := Run(map[], Usage(0, 0), false)

  /** The file loop of `generatePages`. */
  method GeneratePages(files: seq<CsvInput>, templates: map<TemplateKind, string>) returns (run: Run)
    requires forall i :: 0 <= i < |files| ==> WellFormed(files[i])
    requires forall i, j :: 0 <= i < |files| && 0 <= j < |files[i].rows| ==> RegexSafe(files[i].rows[j])
    ensures run == RunFiles(Start, files, templates)
  {
    run := Start;
    var i := 0;
    while i < |files| && !run.exited
      invariant 0 <= i <= |files|
      invariant RunFiles(run, files[i..], templates) == RunFiles(Start, files, templates)
    {
      var file := files[i];
      run := ProcessRows(run, file.name, file.rows, templates, file.written);
      assert files[i..][1..] == files[i + 1..];
      i := i + 1;
    }
  }

  /** Two files are processed one after the other. */
  lemma RunTwoFiles(run: Run, first: CsvInput, second: CsvInput, templates: map<TemplateKind, string>)
    requires WellFormed(first) && WellFormed(second) && !run.exited
    ensures RunFiles(run, [first, second], templates)
            == RunFiles(RunRows(run, first.name, first.rows, templates, first.written), [second], templates)
  {
    assert [first, second][1..] == [second];
  }

  lemma RunOneFile(run: Run, file: CsvInput, templates: map<TemplateKind, string>)
    requires WellFormed(file) && !run.exited
    ensures RunFiles(run, [file], templates) == RunRows(run, file.name, file.rows, templates, file.written)
  {
    assert [file][1..] == [];
  }

  lemma AllTemplatesPresent(fileName: string, rows: seq<Row>, templates: map<TemplateKind, string>, i: int)
    requires Website in templates && Abm in templates && i < |rows|
    ensures forall j :: 0 <= j <= i ==> SelectTemplate(rows[j], fileName) in templates
  {
  }

  /**
    With no argument, websites.csv is processed before abm.csv, so when both
    files produce the same slug the ABM page is the one left on disk.
   */
  lemma {:induction false} LaterFileWins(web: CsvInput, abm: CsvInput, templates: map<TemplateKind, string>, i: int)
    requires WellFormed(web) && WellFormed(abm) && abm.name == "abm.csv"
    requires Website in templates && Abm in templates
    requires 0 <= i < |abm.rows| && abm.written[i]
    requires forall j :: i < j < |abm.rows| && abm.written[j] ==> RowSlug(abm.rows[j]) != RowSlug(abm.rows[i])
    ensures RowSlug(abm.rows[i]) in RunFiles(Start, [web, abm], templates).pages
    ensures RunFiles(Start, [web, abm], templates).pages[RowSlug(abm.rows[i])]
            == Populated(templates[Abm], abm.rows[i])
  {
    assert !Start.exited;
    var mid := RunRows(Start, web.name, web.rows, templates, web.written);
    UsageCounted(Start, web.name, web.rows, templates, web.written, Website);
    RunTwoFiles(Start, web, abm, templates);
    AllTemplatesPresent(abm.name, abm.rows, templates, i);
    LastWriteWins(mid, abm.name, abm.rows, templates, abm.written, i);
    RunOneFile(mid, abm, templates);
    assert SelectTemplate(abm.rows[i], abm.name) == Abm;
  }

  /**
    How generate-pages.mjs ends. The output directory and the asset copy are
    set up first (`setupFails`). Then each file's csv-parser stream is
    awaited in turn: `streamFails[i]` says that the i-th one emits `'error'`,
    the one event wired to `reject`, and then none of its rows, which are
    handled only at `'end'`, is run. Otherwise its rows run as `RunRows`, and
    a row whose template cannot be loaded exits the process. An error of the
    file read stream itself is not wired to `reject` and is not one of these
    endings.
   */
  function RunEnding(setupFails: bool, files: seq<CsvInput>, templates: map<TemplateKind, string>,
                     streamFails: seq<bool>): (e: Ending)
    requires forall i :: 0 <= i < |files| ==> WellFormed(files[i])
    requires |streamFails| == |files|
    ensures e != Unhandled
  {
    if setupFails then Reported else FilesEnding(Start, files, templates, streamFails)
  }

  /** The file loop's ending from `run`: the first csv-parser error or template exit ends it. */
  function FilesEnding(run: Run, files: seq<CsvInput>, templates: map<TemplateKind, string>,
                       streamFails: seq<bool>): (e: Ending)
    requires forall i :: 0 <= i < |files| ==> WellFormed(files[i])
    requires |streamFails| == |files|
    ensures e != Unhandled
    decreases |files|
  {
    if run.exited then Exited
    else if files == [] then Completed
    else if streamFails[0] then Reported
    else
      assert WellFormed(files[0]);
      FilesEnding(RunRows(run, files[0].name, files[0].rows, templates, files[0].written),
                  files[1..], templates, streamFails[1..])
  }

  /**
    Without csv-parser errors, the loop ends by exiting exactly when `RunFiles`
    says the process exits, and completes otherwise.
   */
  lemma {:induction false} FilesExitLikeRunFiles(run: Run, files: seq<CsvInput>, templates: map<TemplateKind, string>,
                                                 streamFails: seq<bool>)
    requires forall i :: 0 <= i < |files| ==> WellFormed(files[i])
    requires |streamFails| == |files| && forall i :: 0 <= i < |streamFails| ==> !streamFails[i]
    ensures FilesEnding(run, files, templates, streamFails) == Exited <==> RunFiles(run, files, templates).exited
    ensures FilesEnding(run, files, templates, streamFails) == Completed <==> !RunFiles(run, files, templates).exited
    decreases |files|
  {
    if !run.exited && files != [] {
      assert WellFormed(files[0]);
      assert !streamFails[0];
      var next := RunRows(run, files[0].name, files[0].rows, templates, files[0].written);
      assert forall i :: 0 <= i < |streamFails| - 1 ==> streamFails[1..][i] == streamFails[i + 1];
      FilesExitLikeRunFiles(next, files[1..], templates, streamFails[1..]);
    }
  }

  /**
    With both templates readable no row exits, so the loop ends in the
    `catch` exactly when some file's csv-parser stream emits `'error'`.
   */
  lemma {:induction false} FilesReported(run: Run, files: seq<CsvInput>, templates: map<TemplateKind, string>,
                                         streamFails: seq<bool>)
    requires forall i :: 0 <= i < |files| ==> WellFormed(files[i])
    requires |streamFails| == |files| && !run.exited
    requires Website in templates && Abm in templates
    ensures FilesEnding(run, files, templates, streamFails) != Exited
    ensures FilesEnding(run, files, templates, streamFails) == Reported
            <==> exists i :: 0 <= i < |streamFails| && streamFails[i]
    decreases |files|
  {
    if files != [] && !streamFails[0] {
      assert WellFormed(files[0]);
      var next := RunRows(run, files[0].name, files[0].rows, templates, files[0].written);
      UsageCounted(run, files[0].name, files[0].rows, templates, files[0].written, Website);
      FilesReported(next, files[1..], templates, streamFails[1..]);
      if exists i :: 0 <= i < |streamFails| && streamFails[i] {
        var i :| 0 <= i < |streamFails| && streamFails[i];
        assert streamFails[1..][i - 1];
      }
    }
  }

  /** With both templates readable, every failure of this revision is reported by the script itself. */
  lemma EveryFailureReported(setupFails: bool, files: seq<CsvInput>, templates: map<TemplateKind, string>,
                             streamFails: seq<bool>)
    requires forall i :: 0 <= i < |files| ==> WellFormed(files[i])
    requires |streamFails| == |files|
    requires Website in templates && Abm in templates
    ensures RunEnding(setupFails, files, templates, streamFails) != Exited
    ensures RunEnding(setupFails, files, templates, streamFails) == Reported
            <==> setupFails || exists i :: 0 <= i < |streamFails| && streamFails[i]
  {
    FilesReported(Start, files, templates, streamFails);
  }

  /** Without set-up or csv-parser errors, the run ends by exiting exactly when a template cannot be loaded. */
  lemma TemplateExitEndsRun(files: seq<CsvInput>, templates: map<TemplateKind, string>)
    requires forall i :: 0 <= i < |files| ==> WellFormed(files[i])
    ensures RunEnding(false, files, templates, seq(|files|, i => false)) == Exited
            <==> RunFiles(Start, files, templates).exited
  {
    FilesExitLikeRunFiles(Start, files, templates, seq(|files|, i => false));
  }

  /** With one file and both templates readable, this revision ends as the awaited form of the older revision. */
  lemma OneFileAwaited(setupFails: bool, file: CsvInput, templates: map<TemplateKind, string>, streamFails: bool)
    requires WellFormed(file)
    requires Website in templates && Abm in templates
    ensures RunEnding(setupFails, [file], templates, [streamFails])
            == LegacyGenerator.AwaitedEnding(setupFails, streamFails)
  {
    assert [file][1..] == [] && [streamFails][1..] == [];
    UsageCounted(Start, file.name, file.rows, templates, file.written, Website);
    var next := RunRows(Start, file.name, file.rows, templates, file.written);
    assert FilesEnding(next, [], templates, []) == Completed;
    if !setupFails && !streamFails {
      assert FilesEnding(Start, [file], templates, [streamFails]) == FilesEnding(next, [], templates, []);
    }
  }
}

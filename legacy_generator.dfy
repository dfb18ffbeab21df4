/**
  `populateTemplate` and the row loop of `generatePages` in
  scripts/generate-pages.js: one template, one CSV file, and a page slug that
  always comes from `company_name`.
 */
module LegacyGenerator {
  import opened Optional
  import opened Text
  import opened Template
  import LegacySlug
  import opened Outcome

  /**
    `createSlug(row.company_name)`: this revision has no default argument,
    so a row without `company_name` throws (`None`).
   */
  function RowSlug(row: Row): (slug: Option<string>)
    ensures slug.Some? <==> Lookup(row, "company_name").Some?
    ensures slug.Some? ==> LegacySlug.IsSlug(slug.value)
  {
    match Lookup(row, "company_name")
    case None => None
    case Some(name) => Some(LegacySlug.CreateSlug(name))
  }

  /** A `company_slug` column, wherever it stands, plays no part in naming the page directory. */
  lemma SlugIgnoresSlugColumn(row: Row, i: int, v: string)
    requires 0 <= i <= |row|
    ensures RowSlug(row[..i] + [Field("company_slug", v)] + row[i..]) == RowSlug(row)
  {
    LookupInsert(row, i, Field("company_slug", v), "company_name");
  }

  const SlugPlaceholder: string := Placeholder("company_slug")

  /** The page `populateTemplate(template, row)` returns, or `None` when it throws. */
  function Populated(template: string, row: Row): (page: Option<string>)
    ensures page.Some? <==> Lookup(row, "company_name").Some?
  {
    match RowSlug(row)
    case None => None
    case Some(slug) => Some(ReplaceAll(ApplyFields(template, row), SlugPlaceholder, slug))
  }

  /** `populateTemplate`: the key loop, then the `{{company_slug}}` pass. */
  method PopulateTemplate(template: string, row: Row) returns (page: Option<string>)
    requires RegexSafe(row)
    ensures page == Populated(template, row)
  {
    var filled := FillFields(template, row);
    match Lookup(row, "company_name")
    case None =>
      page := None;
    case Some(name) =>
      var companySlug := LegacySlug.CreateSlug(name);
      page := Some(ReplaceAll(filled, SlugPlaceholder, companySlug));
  }

  /** A template without `{{` comes back unchanged from a row that has a name. */
  lemma PopulateNoBraces(template: string, row: Row)
    requires !Contains(template, "{{")
    requires Lookup(row, "company_name").Some?
    ensures Populated(template, row) == Some(template)
  {
    ApplyFieldsNoBraces(template, row);
    NoPlaceholder(template, "company_slug");
    ReplaceAllAbsent(template, SlugPlaceholder, RowSlug(row).value);
  }

  /**
    A placeholder whose key is neither a column of the row nor
    `company_slug` is left in the page literally.
   */
  lemma UnknownPlaceholderKept(a: string, h: string, b: string, row: Row)
    requires BraceFree(h) && h != "company_slug"
    requires forall i :: 0 <= i < |row| ==> BraceFree(row[i].key)
    requires Lookup(row, h).None? && Lookup(row, "company_name").Some?
    ensures Populated(a + Placeholder(h) + b, row).value
            == Populated(a, row).value + Placeholder(h) + Populated(b, row).value
  {
    SlugKeyBraceFree();
    ApplyFieldsAround(a, h, b, row);
    ReplaceAround(ApplyFields(a, row), h, ApplyFields(b, row), "company_slug", RowSlug(row).value);
  }

  /** A slug of this revision has no braces, so it never starts a placeholder. */
  lemma SlugIsPlain(s: string)
    requires LegacySlug.IsSlug(s)
    ensures Plain(s)
  {
    NoOpenBracePlain(s);
  }

  /**
    What a populated page holds for a named row: every placeholder whose key
    is a column gets the first such column's raw value; `{{company_slug}}`,
    when the row has no such column, gets `createSlug(company_name)`; every
    other placeholder stays.
   */
  lemma PopulatedIsFill(ps: seq<Piece>, row: Row, name: string)
    requires WellFormedPieces(ps) && PlainRow(row)
    requires Lookup(row, "company_name") == Some(name)
    ensures Populated(Render(ps), row)
            == Some(Fill(ps, row + [Field("company_slug", LegacySlug.CreateSlug(name))]))
  {
    var slug := LegacySlug.CreateSlug(name);
    var row' := row + [Field("company_slug", slug)];
    assert row'[..|row|] == row;
    SlugKeyBraceFree();
    SlugIsPlain(slug);
    assert PlainRow(row') by {
      forall i | 0 <= i < |row'| ensures BraceFree(row'[i].key) && Plain(row'[i].value) {
        if i < |row| {
          assert row'[i] == row[i];
        }
      }
    }
    ApplyFieldsFill(ps, row');
  }

  /**
    The computed `{{company_slug}}` is `createSlug(company_name)` whenever the
    row has no `company_slug` column, whatever other placeholders surround it.
   */
  lemma NameSlugFills(a: seq<Piece>, b: seq<Piece>, row: Row, name: string)
    requires WellFormedPieces(a) && WellFormedPieces(b) && PlainRow(row)
    requires Lookup(row, "company_slug").None? && Lookup(row, "company_name") == Some(name)
    ensures Populated(Render(a) + SlugPlaceholder + Render(b), row).value
            == Populated(Render(a), row).value + LegacySlug.CreateSlug(name) + Populated(Render(b), row).value
  {
    var row' := row + [Field("company_slug", LegacySlug.CreateSlug(name))];
    SlugKeyBraceFree();
    WellFormedAround(a, "company_slug", b);
    RenderAround(a, "company_slug", b);
    FillAround(a, "company_slug", b, row');
    LookupSnoc(row, Field("company_slug", LegacySlug.CreateSlug(name)), "company_slug");
    PopulatedIsFill(a + [Hole("company_slug")] + b, row, name);
    PopulatedIsFill(a, row, name);
    PopulatedIsFill(b, row, name);
  }

  /**
    One pass of the row loop: a row without a name throws and is skipped, a
    row whose directory or file cannot be written (`written` false) is
    skipped, and any other row writes its page under its slug.
   */
  function RowStep(pages: map<string, string>, template: string, row: Row, written: bool): map<string, string> {
    match RowSlug(row)
    case None => pages
    case Some(slug) => if written then pages[slug := Populated(template, row).value] else pages
  }

  /** The row loop, from the pages written so far. */
  function RunRows(pages: map<string, string>, template: string, rows: seq<Row>, written: seq<bool>): map<string, string>
    requires |written| == |rows|
    decreases |rows|
  {
    if rows == [] then pages
    else RunRows(RowStep(pages, template, rows[0], written[0]), template, rows[1..], written[1..])
  }

  /** The row loop of `generatePages`, starting from an empty output directory. */
  method GeneratePages(template: string, rows: seq<Row>, written: seq<bool>) returns (pages: map<string, string>)
    requires |written| == |rows|
    requires forall i :: 0 <= i < |rows| ==> RegexSafe(rows[i])
    ensures pages == RunRows(map[], template, rows, written)
  {
    pages := map[];
    var i := 0;
    while i < |rows|
      invariant 0 <= i <= |rows|
      invariant RunRows(pages, template, rows[i..], written[i..]) == RunRows(map[], template, rows, written)
    {
      var row := rows[i];
      match Lookup(row, "company_name") {
        case None =>
        case Some(name) =>
          var companySlug := LegacySlug.CreateSlug(name);
          var html := PopulateTemplate(template, row);
          if written[i] {
            pages := pages[companySlug := html.value];
          }
      }
      assert rows[i..][1..] == rows[i + 1..] && written[i..][1..] == written[i + 1..];
      i := i + 1;
    }
  }

  /**
    A row that fails, for want of a name or because its write fails, leaves
    the run exactly as if it were not in the file: the rows after it are
    still processed.
   */
  lemma {:induction false} FailedRowSkipped(pages: map<string, string>, template: string,
                                            rows: seq<Row>, written: seq<bool>, i: int)
    requires |written| == |rows| && 0 <= i < |rows|
    requires RowSlug(rows[i]).None? || !written[i]
    ensures RunRows(pages, template, rows, written)
            == RunRows(pages, template, rows[..i] + rows[i + 1..], written[..i] + written[i + 1..])
    decreases i
  {
    if i == 0 {
      assert rows[..0] + rows[1..] == rows[1..];
      assert written[..0] + written[1..] == written[1..];
    } else {
      var next := RowStep(pages, template, rows[0], written[0]);
      FailedRowSkipped(next, template, rows[1..], written[1..], i - 1);
      var rows', written' := rows[..i] + rows[i + 1..], written[..i] + written[i + 1..];
      CutTail(rows, i);
      CutTail(written, i);
      assert RunRows(pages, template, rows', written')
             == RunRows(next, template, rows'[1..], written'[1..]);
    }
  }

  /** Removing element `i` of a sequence keeps its head and removes element `i - 1` of its tail. */
  lemma CutTail<T>(s: seq<T>, i: int)
    requires 0 < i < |s|
    ensures (s[..i] + s[i + 1..])[0] == s[0]
    ensures (s[..i] + s[i + 1..])[1..] == s[1..][..i - 1] + s[1..][i..]
  {
  }

  /** A slug no written, named row produces keeps whatever page it had. */
  lemma {:induction false} PagesUntouched(pages: map<string, string>, template: string,
                                          rows: seq<Row>, written: seq<bool>, slug: string)
    requires |written| == |rows|
    requires forall i :: 0 <= i < |rows| && written[i] ==> RowSlug(rows[i]) != Some(slug)
    ensures slug in RunRows(pages, template, rows, written) <==> slug in pages
    ensures slug in pages ==> RunRows(pages, template, rows, written)[slug] == pages[slug]
    decreases |rows|
  {
    if rows != [] {
      PagesUntouched(RowStep(pages, template, rows[0], written[0]), template, rows[1..], written[1..], slug);
    }
  }

  /**
    Last write wins: the page of a slug is the one populated from the last
    written row with that slug.
   */
  lemma {:induction false} LastWriteWins(pages: map<string, string>, template: string,
                                         rows: seq<Row>, written: seq<bool>, i: int)
    requires |written| == |rows| && 0 <= i < |rows| && written[i]
    requires RowSlug(rows[i]).Some?
    requires forall j :: i < j < |rows| && written[j] ==> RowSlug(rows[j]) != RowSlug(rows[i])
    ensures RowSlug(rows[i]).value in RunRows(pages, template, rows, written)
    ensures RunRows(pages, template, rows, written)[RowSlug(rows[i]).value] == Populated(template, rows[i]).value
    decreases |rows|
  {
    var next := RowStep(pages, template, rows[0], written[0]);
    if i == 0 {
      PagesUntouched(next, template, rows[1..], written[1..], RowSlug(rows[0]).value);
    } else {
      LastWriteWins(next, template, rows[1..], written[1..], i - 1);
    }
  }

  /**
    How generate-pages.js ends when `fs.ensureDir` of the output directory
    fails (`dirFails`) or the csv-parser stream emits `'error'`, the one
    event wired to `reject` (`streamFails`). The stream's promise is
    returned from inside the `try` without `await`, so its rejection settles
    the function's promise after the `try` is left: the `catch` never sees
    it, and the direct call does not handle it. An error of the file read
    stream itself is not wired to `reject` and is not one of these endings.
    The template is loaded before the stream; its failure exits inside
    `loadTemplate` and is left out, as template loading is.
   */
  function RunEnding(dirFails: bool, streamFails: bool): (e: Ending)
    ensures dirFails ==> e == Reported
    ensures !dirFails && !streamFails ==> e == Completed
  {
    if dirFails then Reported
    else if streamFails then Unhandled
    else Completed
  }

  /** A csv-parser error ends the run without the script's own report, where the awaited form reports it. */
  lemma StreamErrorEscapes()
    ensures RunEnding(false, true) == Unhandled
    ensures AwaitedEnding(false, true) == Reported
  {
  }

  /** The evidently intended ending, as with `return await new Promise(...)`: every failure is reported. */
  function AwaitedEnding(dirFails: bool, streamFails: bool): (e: Ending)
    ensures e != Unhandled
    ensures e == Reported <==> dirFails || streamFails
  {
    if dirFails || streamFails then Reported else Completed
  }

  /** The two endings differ exactly when the directory is ready and the stream fails. */
  lemma AwaitedDiffersOnlyOnStream(dirFails: bool, streamFails: bool)
    ensures RunEnding(dirFails, streamFails) != AwaitedEnding(dirFails, streamFails)
            <==> !dirFails && streamFails
  {
  }
}

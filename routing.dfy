/**
  The small decisions `generatePages` of scripts/generate-pages.mjs makes
  before it populates a page: which CSV files to read, which delimiter a file
  uses, which template a row gets and which file holds that template.
 */
module Routing {
  import opened Optional
  import opened Text
  import opened Template

  /** The two kinds of landing page, counted separately in `templateUsage`. */
  datatype TemplateKind = Website | Abm

  /** The `templateType` string the row loop passes to `loadTemplate`. */
  function KindName(kind: TemplateKind): (name: string)
    ensures name == "abm" <==> kind == Abm
  {
    match kind
    case Website => "website"
    case Abm => "abm"
  }

  const AbmTemplateFile: string := "abm-landing-page.html"
  const WebsiteTemplateFile: string := "website-landing-page.html"

  /**
    The file `loadTemplate(templateType = 'website')` reads: the ABM page for
    exactly `"abm"`, the website page for anything else, a missing argument
    included.
   */
  function TemplateFileName(templateType: Option<string>): (file: string)
    ensures file == AbmTemplateFile || file == WebsiteTemplateFile
    ensures file == AbmTemplateFile <==> templateType == Some("abm")
  {
    if templateType.GetOr("website") == "abm" then AbmTemplateFile else WebsiteTemplateFile
  }

  /** Which kind of page a template file is for, if it is one of the two. */
  function KindOfTemplateFile(file: string): (kind: Option<TemplateKind>)
    ensures kind.Some? <==> file == AbmTemplateFile || file == WebsiteTemplateFile
  {
    if file == AbmTemplateFile then Some(Abm)
    else if file == WebsiteTemplateFile then Some(Website)
    else None
  }

  /** Each kind of page has a template file of its own, and the file tells the kind back. */
  lemma TemplateFileRoundTrip(kind: TemplateKind)
    ensures KindOfTemplateFile(TemplateFileName(Some(KindName(kind)))) == Some(kind)
  {
    assert AbmTemplateFile != WebsiteTemplateFile by {
      assert AbmTemplateFile[0] != WebsiteTemplateFile[0];
    }
  }

  /** A JavaScript value used with `||`: a missing column and an empty cell are both falsy. */
  predicate Truthy(v: Option<string>) {
    v.Some? && v.value != ""
  }

  /** `row.use_case || row['Use Case'] || csvFileName`. */
  function UseCase(row: Row, fileName: string): (u: string)
    ensures u == fileName || Lookup(row, "use_case") == Some(u) || Lookup(row, "Use Case") == Some(u)
    ensures u == "" <==> !Truthy(Lookup(row, "use_case")) && !Truthy(Lookup(row, "Use Case")) && fileName == ""
  {
    var a, b := Lookup(row, "use_case"), Lookup(row, "Use Case");
    if Truthy(a) then a.value else if Truthy(b) then b.value else fileName
  }

  /** The first non-empty of the two use-case columns wins over the file name. */
  lemma UseCasePriority(row: Row, fileName: string)
    ensures Truthy(Lookup(row, "use_case")) ==> UseCase(row, fileName) == Lookup(row, "use_case").value
    ensures !Truthy(Lookup(row, "use_case")) && Truthy(Lookup(row, "Use Case"))
            ==> UseCase(row, fileName) == Lookup(row, "Use Case").value
    ensures !Truthy(Lookup(row, "use_case")) && !Truthy(Lookup(row, "Use Case"))
            ==> UseCase(row, fileName) == fileName
  {
  }

  /** The template kind of one row (the `if` of the row loop). */
  function SelectTemplate(row: Row, fileName: string): (kind: TemplateKind)
    ensures fileName == "abm.csv" ==> kind == Abm
    ensures kind == Abm <==> fileName == "abm.csv" || Lower(UseCase(row, fileName)) == "abm"
  {
    if fileName == "abm.csv" || Lower(UseCase(row, fileName)) == "abm" then Abm else Website
  }

  /** The strings that lower-case to `"abm"`: the three letters in any mix of cases. */
  predicate IsAbmWord(u: string) {
    |u| == 3 && u[0] in {'a', 'A'} && u[1] in {'b', 'B'} && u[2] in {'m', 'M'}
  }

  lemma LowerIsAbm(u: string)
    ensures Lower(u) == "abm" <==> IsAbmWord(u)
  {
    if Lower(u) == "abm" {
      assert LowerChar(u[0]) == 'a' && LowerChar(u[1]) == 'b' && LowerChar(u[2]) == 'm';
    }
    if IsAbmWord(u) {
      assert Lower(u)[0] == 'a' && Lower(u)[1] == 'b' && Lower(u)[2] == 'm';
    }
  }

  /**
    Outside abm.csv, a non-empty `use_case` cell decides the kind on its own,
    case-insensitively, and the `Use Case` column is not consulted.
   */
  lemma UseCaseColumnDecides(row: Row, fileName: string)
    requires fileName != "abm.csv"
    requires Truthy(Lookup(row, "use_case"))
    ensures SelectTemplate(row, fileName) == Abm <==> IsAbmWord(Lookup(row, "use_case").value)
  {
    LowerIsAbm(Lookup(row, "use_case").value);
  }

  /**
    A row of websites.csv with no use case in either column gets the website
    template; a row of abm.csv always gets the ABM template.
   */
  lemma FileNameDecides(row: Row)
    requires !Truthy(Lookup(row, "use_case")) && !Truthy(Lookup(row, "Use Case"))
    ensures SelectTemplate(row, "websites.csv") == Website
    ensures SelectTemplate(row, "abm.csv") == Abm
  {
    LowerIsAbm("websites.csv");
  }

  /** The delimiter csv-parser is given. */
  datatype Separator = Comma | Tab

  /** `sample.split('\n')[0] || ''`: the text before the first line feed. */
  function FirstLine(sample: string): (line: string)
    ensures '\n' !in line
    ensures line <= sample
    ensures |line| < |sample| ==> sample[|line|] == '\n'
  {
    if sample == [] || sample[0] == '\n' then [] else [sample[0]] + FirstLine(sample[1..])
  }

  /** The first line is the prefix up to the first line feed, whatever follows it. */
  lemma {:induction false} FirstLineOf(line: string, rest: string)
    requires '\n' !in line
    ensures FirstLine(line + "\n" + rest) == line
  {
    if line != [] {
      assert (line + "\n" + rest)[1..] == line[1..] + "\n" + rest;
      FirstLineOf(line[1..], rest);
    } else {
      assert (line + "\n" + rest)[0] == '\n';
    }
  }

  /** `line.includes('\t')`. */
  predicate HasTab(line: string) {
    exists j :: 0 <= j < |line| && line[j] == '\t'
  }

  /**
    Delimiter sniffing: tab when the trimmed first line has a tab, comma
    otherwise, and comma when the file cannot be read (`sample` is `None`).
   */
  function DetectSeparator(sample: Option<string>): (sep: Separator)
    ensures sample.None? ==> sep == Comma
  {
    if sample.Some? && HasTab(Trim(FirstLine(sample.value))) then Tab else Comma
  }

  predicate NonSpaceBefore(line: string, j: int)
    requires 0 <= j <= |line|
  {
    exists i :: 0 <= i < j && line[i] !in Whitespace
  }

  predicate NonSpaceAfter(line: string, j: int)
    requires 0 <= j < |line|
  {
    exists k :: j < k < |line| && line[k] !in Whitespace
  }

  /** A tab with something other than white space on each side of it. */
  predicate InnerTab(line: string) {
    exists j :: 0 <= j < |line| && line[j] == '\t' && NonSpaceBefore(line, j) && NonSpaceAfter(line, j)
  }

  /**
    Since `trim` removes tabs at the ends too, a file is read as tab-separated
    exactly when its first line has a tab between two other characters that
    are not white space; a tab that only leads or trails the line is ignored.
   */
  lemma TabIffInnerTab(line: string)
    ensures HasTab(Trim(line)) <==> InnerTab(line)
  {
    if HasTab(Trim(line)) {
      TrimmedTabIsInner(line);
    }
    if InnerTab(line) {
      InnerTabSurvivesTrim(line);
    }
  }

  lemma TrimmedTabIsInner(line: string)
    requires HasTab(Trim(line))
    ensures InnerTab(line)
  {
    TrimRunsSlice(line, Whitespace);
    TabInSlice(line, LeadLen(line, Whitespace), Trim(line));
  }

  lemma TabInSlice(line: string, lo: int, r: string)
    requires 0 <= lo <= lo + |r| <= |line| && r == line[lo..lo + |r|]
    requires r != [] ==> r[0] !in Whitespace && r[|r| - 1] !in Whitespace
    requires HasTab(r)
    ensures InnerTab(line)
  {
    var j :| 0 <= j < |r| && r[j] == '\t';
    assert line[lo] == r[0] && line[lo + |r| - 1] == r[|r| - 1] && line[lo + j] == r[j];
    assert NonSpaceBefore(line, lo + j);
    assert NonSpaceAfter(line, lo + j);
  }

  lemma InnerTabSurvivesTrim(line: string)
    requires InnerTab(line)
    ensures HasTab(Trim(line))
  {
    var j :| 0 <= j < |line| && line[j] == '\t' && NonSpaceBefore(line, j) && NonSpaceAfter(line, j);
    var i :| 0 <= i < j && line[i] !in Whitespace;
    var k :| j < k < |line| && line[k] !in Whitespace;
    TabBetween(line, i, j, k);
  }

  /** `trim` stops at the first and last characters that are not white space. */
  lemma TabBetween(line: string, i: int, j: int, k: int)
    requires 0 <= i < j < k < |line| && line[j] == '\t'
    requires line[i] !in Whitespace && line[k] !in Whitespace
    ensures HasTab(Trim(line))
  {
    var t := DropRun(line, Whitespace);
    var d := |line| - |t|;
    DropRunSuffix(line, Whitespace);
    assert d <= i by {
      if i < d {
        assert false;
      }
    }
    var r := DropRunEnd(t, Whitespace);
    DropRunEndPrefix(t, Whitespace);
    assert t[k - d] == line[k];
    assert k - d < |r| by {
      if k - d >= |r| {
        assert false;
      }
    }
    assert r[j - d] == '\t';
  }

  /** Only the first line decides the delimiter: what comes after its line feed is not looked at. */
  lemma SeparatorFromFirstLine(line: string, rest: string)
    requires '\n' !in line
    ensures DetectSeparator(Some(line + "\n" + rest)) == Tab <==> InnerTab(line)
  {
    FirstLineOf(line, rest);
    TabIffInnerTab(line);
  }

  /** For any sample, line feed or not, the delimiter is a tab exactly when its first line has an inner tab. */
  lemma SeparatorFromSample(sample: string)
    ensures DetectSeparator(Some(sample)) == Tab <==> InnerTab(FirstLine(sample))
  {
    TabIffInnerTab(FirstLine(sample));
  }

  /** A sample without a line feed, such as a one-line file, is its own first line. */
  lemma SeparatorOfOneLine(line: string)
    requires '\n' !in line
    ensures DetectSeparator(Some(line)) == Tab <==> InnerTab(line)
  {
    SeparatorFromSample(line);
    assert FirstLine(line) == line;
  }

  /**
    The CSV files to process: the command-line argument alone when it is
    given and non-empty, else websites.csv and then abm.csv, each only when
    it exists.
   */
  method ListCsvFiles(csvFile: Option<string>, websitesExists: bool, abmExists: bool)
    returns (files: seq<string>)
    ensures Truthy(csvFile) ==> files == [csvFile.value]
    ensures !Truthy(csvFile) ==> ("websites.csv" in files <==> websitesExists)
    ensures !Truthy(csvFile) ==> ("abm.csv" in files <==> abmExists)
    ensures !Truthy(csvFile) ==> |files| == (if websitesExists then 1 else 0) + (if abmExists then 1 else 0)
    ensures !Truthy(csvFile) && |files| == 2 ==> files[0] == "websites.csv"
  {
    files := [];
    if Truthy(csvFile) {
      files := files + [csvFile.value];
    } else {
      if websitesExists {
        files := files + ["websites.csv"];
      }
      if abmExists {
        files := files + ["abm.csv"];
      }
    }
  }
}

/**
  The part of `populateTemplate` both generator scripts share: for every key
  of a CSV row, in the row's key order, every `{{key}}` in the page is
  replaced by the row's value.
 */
module Template {
  import opened Optional
  import opened Text

  /** One column of a CSV row: the (trimmed) header and the cell text. */
  datatype Field = Field(key: string, value: string)

  /**
    A CSV row as `Object.keys` enumerates it: the columns in header order.
    csv-parser produces only string cells.
   */
  type Row = seq<Field>

  /** `row[key]`: the value of the first column called `key`, or `undefined`. */
  function Lookup(row: Row, key: string): (r: Option<string>)
    ensures r.None? <==> forall i :: 0 <= i < |row| ==> row[i].key != key
    ensures r.Some? ==> exists i :: 0 <= i < |row| && row[i] == Field(key, r.value)
                                    && forall j :: 0 <= j < i ==> row[j].key != key
  {
    if row == [] then None
    else if row[0].key == key then Some(row[0].value)
    else
      var r := Lookup(row[1..], key);
      assert r.Some? ==> exists i :: 1 <= i < |row| && row[i] == Field(key, r.value)
                                     && forall j :: 0 <= j < i ==> row[j].key != key by {
        if r.Some? {
          var i :| 0 <= i < |row[1..]| && row[1..][i] == Field(key, r.value)
                   && forall j :: 0 <= j < i ==> row[1..][j].key != key;
          assert row[i + 1] == Field(key, r.value);
          assert forall j :: 1 <= j < i + 1 ==> row[j].key != key by {
            forall j | 1 <= j < i + 1 ensures row[j].key != key {
              assert row[j] == row[1..][j - 1];
            }
          }
        }
      }
      r
  }

  /** A lookup in a row extended at the end finds an earlier column first. */
  lemma {:induction false} LookupSnoc(row: Row, f: Field, key: string)
    ensures Lookup(row + [f], key) ==
      if Lookup(row, key).Some? then Lookup(row, key)
      else if f.key == key then Some(f.value) else None
  {
    if row != [] {
      assert (row + [f])[1..] == row[1..] + [f];
      LookupSnoc(row[1..], f, key);
    }
  }

  /** The token `{{key}}` that stands for a column in a template. */
  function Placeholder(key: string): (p: string)
    ensures |p| == |key| + 4
  {
    "{{" + key + "}}"
  }

  predicate BraceFree(s: string) {
    '{' !in s && '}' !in s
  }

  /** `company_slug` cannot open or close a placeholder by itself. */
  lemma SlugKeyBraceFree()
    ensures BraceFree("company_slug")
  {
  }

  const RegexMeta: set<char> := {'\\', '^', '$', '.', '|', '?', '*', '+', '(', ')', '[', ']', '{', '}'}

  predicate IsDigit(c: char) {
    '0' <= c <= '9'
  }

  /**
    A key for which `new RegExp('{{' + key + '}}', 'g')` matches exactly the
    literal placeholder: no regular-expression metacharacter, and not a run
    of digits and commas that would turn `{key}` into a `{n,m}` quantifier
    (such keys are also the ones `Object.keys` would move to the front).
   */
  predicate PlainKey(key: string) {
    && (forall i :: 0 <= i < |key| ==> key[i] !in RegexMeta)
    && !(key != [] && IsDigit(key[0]) && forall i :: 0 <= i < |key| ==> IsDigit(key[i]) || key[i] == ',')
  }

  /**
    A row on which the literal model of `populateTemplate` is exact: every key
    is plain and no value contains `$`, which `replace` would expand.
   */
  predicate RegexSafe(row: Row) {
    forall i :: 0 <= i < |row| ==> PlainKey(row[i].key) && '$' !in row[i].value
  }

  /** The page after the key loop has handled the columns of `row` in order. */
  function ApplyFields(template: string, row: Row): string
    decreases |row|
  {
    if row == [] then template
    else
      var f := row[|row| - 1];
      ReplaceAll(ApplyFields(template, row[..|row| - 1]), Placeholder(f.key), f.value)
  }

  /**
    The key loop of `populateTemplate`: `populatedTemplate` is reassigned once
    per column, in key order.
   */
  method FillFields(template: string, row: Row) returns (page: string)
    requires RegexSafe(row)
    ensures page == ApplyFields(template, row)
  {
    page := template;
    var i := 0;
    while i < |row|
      invariant 0 <= i <= |row|
      invariant page == ApplyFields(template, row[..i])
    {
      var f := row[i];
      assert row[..i + 1][..i] == row[..i];
      page := ReplaceAll(page, Placeholder(f.key), f.value);
      i := i + 1;
    }
    assert row[..|row|] == row;
  }

  lemma PlaceholderChars(key: string, j: int)
    requires BraceFree(key) && 0 <= j < |key| + 4
    ensures Placeholder(key)[j] == '{' <==> j <= 1
    ensures Placeholder(key)[j] == '}' <==> j >= |key| + 2
  {
    if 2 <= j < |key| + 2 {
      assert Placeholder(key)[j] == key[j - 2];
    }
  }

  /**
    With brace-free keys, an occurrence of `{{k}}` that meets the placeholder
    `{{h}}` placed in a page is that placeholder itself: placeholders cannot
    overlap one another.
   */
  lemma PlaceholderFramed(a: string, h: string, b: string, k: string, i: int)
    requires BraceFree(h) && BraceFree(k)
    requires OccursAt(a + Placeholder(h) + b, Placeholder(k), i)
    requires i < |a| + |h| + 4 && |a| < i + |k| + 4
    ensures i == |a| && h == k
  {
    var s := a + Placeholder(h) + b;
    var q := Placeholder(k);
    assert forall j :: 0 <= j < |q| ==> s[i + j] == q[j] by {
      forall j | 0 <= j < |q| ensures s[i + j] == q[j] {
        assert s[i..i + |q|][j] == q[j];
      }
    }
    assert forall j :: 0 <= j < |h| + 4 ==> s[|a| + j] == Placeholder(h)[j];
    if i < |a| {
      var j := |a| - i;
      PlaceholderChars(h, 0);
      PlaceholderChars(k, j);
      PlaceholderChars(h, 1);
      PlaceholderChars(k, 2);
      assert false;
    } else if i > |a| {
      var m := i - |a|;
      PlaceholderChars(k, 0);
      PlaceholderChars(h, m);
      PlaceholderChars(k, 1);
      PlaceholderChars(h, 2);
      assert false;
    } else if |k| < |h| {
      PlaceholderChars(k, |k| + 2);
      PlaceholderChars(h, |k| + 2);
      assert false;
    } else if |k| > |h| {
      PlaceholderChars(k, |h| + 2);
      PlaceholderChars(h, |h| + 2);
      assert false;
    } else {
      assert s[i..i + |q|] == Placeholder(h);
      assert k == q[2..|k| + 2] == Placeholder(h)[2..|h| + 2] == h;
    }
  }

  /**
    Replacing `{{k}}` in a page that holds the placeholder `{{h}}` works on the
    text on either side of it separately, and touches the placeholder only
    when it is `{{k}}` itself.
   */
  lemma ReplaceAround(a: string, h: string, b: string, k: string, v: string)
    requires BraceFree(h) && BraceFree(k)
    ensures ReplaceAll(a + Placeholder(h) + b, Placeholder(k), v)
            == ReplaceAll(a, Placeholder(k), v) + (if h == k then v else Placeholder(h))
               + ReplaceAll(b, Placeholder(k), v)
  {
    var p, q := Placeholder(h), Placeholder(k);
    NoMatchIntoPlaceholder(a, h, b, k);
    assert a + p + b == a + (p + b);
    ReplaceAllSplit(a, p + b, q, v);
    ReplaceFromPlaceholder(h, b, k, v);
  }

  /** The same, for a text that starts with the placeholder. */
  lemma ReplaceFromPlaceholder(h: string, b: string, k: string, v: string)
    requires BraceFree(h) && BraceFree(k)
    ensures ReplaceAll(Placeholder(h) + b, Placeholder(k), v)
            == (if h == k then v else Placeholder(h)) + ReplaceAll(b, Placeholder(k), v)
  {
    NoMatchOutOfPlaceholder(h, b, k);
    ReplaceAllSplit(Placeholder(h), b, Placeholder(k), v);
    ReplacePlaceholder(h, k, v);
  }

  /** No `{{k}}` starts before a placeholder and runs into it. */
  lemma NoMatchIntoPlaceholder(a: string, h: string, b: string, k: string)
    requires BraceFree(h) && BraceFree(k)
    ensures NoMatchAcross(a + Placeholder(h) + b, Placeholder(k), |a|)
  {
    forall i | 0 <= i < |a| < i + |Placeholder(k)| ensures !OccursAt(a + Placeholder(h) + b, Placeholder(k), i) {
      if OccursAt(a + Placeholder(h) + b, Placeholder(k), i) {
        PlaceholderFramed(a, h, b, k, i);
      }
    }
  }

  /** No `{{k}}` starts inside a placeholder and runs past its end. */
  lemma NoMatchOutOfPlaceholder(h: string, b: string, k: string)
    requires BraceFree(h) && BraceFree(k)
    ensures NoMatchAcross(Placeholder(h) + b, Placeholder(k), |Placeholder(h)|)
  {
    var p, q := Placeholder(h), Placeholder(k);
    forall i | 0 <= i < |p| < i + |q| ensures !OccursAt(p + b, q, i) {
      if OccursAt(p + b, q, i) {
        assert [] + p + b == p + b;
        PlaceholderFramed([], h, b, k, i);
      }
    }
  }

  /** A placeholder on its own is replaced exactly when it is the one searched for. */
  lemma ReplacePlaceholder(h: string, k: string, v: string)
    requires BraceFree(h) && BraceFree(k)
    ensures ReplaceAll(Placeholder(h), Placeholder(k), v) == if h == k then v else Placeholder(h)
  {
    var p, q := Placeholder(h), Placeholder(k);
    if h == k {
      assert p[..|q|] == q;
      assert p[|q|..] == [];
      assert ReplaceAll(p, q, v) == v + ReplaceAll([], q, v);
    } else {
      forall i | 0 <= i <= |p| ensures !OccursAt(p, q, i) {
        if OccursAt(p, q, i) {
          assert [] + p + [] == p;
          PlaceholderFramed([], h, [], k, i);
        }
      }
      ReplaceAllAbsent(p, q, v);
    }
  }

  /**
    A placeholder whose key is not a column of the row survives the key loop
    literally, and the text on either side is populated as if it stood alone.
   */
  lemma {:induction false} ApplyFieldsAround(a: string, h: string, b: string, row: Row)
    requires BraceFree(h)
    requires forall i :: 0 <= i < |row| ==> BraceFree(row[i].key) && row[i].key != h
    ensures ApplyFields(a + Placeholder(h) + b, row)
            == ApplyFields(a, row) + Placeholder(h) + ApplyFields(b, row)
    decreases |row|
  {
    if row != [] {
      var f := row[|row| - 1];
      ApplyFieldsAround(a, h, b, row[..|row| - 1]);
      ReplaceAround(ApplyFields(a, row[..|row| - 1]), h, ApplyFields(b, row[..|row| - 1]), f.key, f.value);
    }
  }

  /** Every placeholder starts with `{{`. */
  lemma PlaceholderHasBraces(s: string, k: string)
    requires Contains(s, Placeholder(k))
    ensures Contains(s, "{{")
  {
    var i :| 0 <= i <= |s| && OccursAt(s, Placeholder(k), i);
    assert s[i..i + 2] == s[i..i + |k| + 4][..2];
    assert OccursAt(s, "{{", i);
  }

  /** A page without `{{` has no placeholder, so the key loop leaves it alone. */
  lemma {:induction false} ApplyFieldsNoBraces(t: string, row: Row)
    requires !Contains(t, "{{")
    ensures ApplyFields(t, row) == t
    decreases |row|
  {
    if row != [] {
      var f := row[|row| - 1];
      ApplyFieldsNoBraces(t, row[..|row| - 1]);
      if Contains(t, Placeholder(f.key)) {
        PlaceholderHasBraces(t, f.key);
      }
      ReplaceAllAbsent(t, Placeholder(f.key), f.value);
    }
  }

  /** A page without `{{` holds no placeholder. */
  lemma NoPlaceholder(s: string, k: string)
    requires !Contains(s, "{{")
    ensures !Contains(s, Placeholder(k))
  {
    if Contains(s, Placeholder(k)) {
      PlaceholderHasBraces(s, k);
    }
  }

  /** Keys that cannot open or close a placeholder themselves. */
  predicate BraceFreeKeys(row: Row) {
    forall i :: 0 <= i < |row| ==> BraceFree(row[i].key)
  }

  /**
    Text that cannot take part in a placeholder: it holds no `{{`, and it
    does not end in a `{` that a following `{` would turn into one.
   */
  predicate Plain(t: string) {
    !Contains(t, "{{") && (t == [] || t[|t| - 1] != '{')
  }

  /** Text without `{` at all is plain. */
  lemma NoOpenBracePlain(t: string)
    requires forall i :: 0 <= i < |t| ==> t[i] != '{'
    ensures Plain(t)
  {
    forall i | 0 <= i <= |t| ensures !OccursAt(t, "{{", i) {
      if i + 2 <= |t| {
        assert t[i..i + 2][0] == t[i];
      }
    }
  }

  /**
    A row whose keys cannot open or close a placeholder and whose values
    cannot start one.
   */
  predicate PlainRow(row: Row) {
    forall i :: 0 <= i < |row| ==> BraceFree(row[i].key) && Plain(row[i].value)
  }

  /** A template read as a sequence of literal text and placeholders. */
  datatype Piece = Lit(text: string) | Hole(key: string)

  predicate WellFormedPiece(p: Piece) {
    match p
    case Lit(t) => Plain(t)
    case Hole(k) => BraceFree(k)
  }

  /** Every `{{` of the rendered template opens one of its placeholders. */
  predicate WellFormedPieces(ps: seq<Piece>) {
    forall i :: 0 <= i < |ps| ==> WellFormedPiece(ps[i])
  }

  function RenderPiece(p: Piece): string {
    match p
    case Lit(t) => t
    case Hole(k) => Placeholder(k)
  }

  /** The template text the pieces spell out. */
  function Render(ps: seq<Piece>): string
    decreases |ps|
  {
    if ps == [] then [] else RenderPiece(ps[0]) + Render(ps[1..])
  }

  function FillPiece(p: Piece, row: Row): string {
    match p
    case Lit(t) => t
    case Hole(k) => Lookup(row, k).GetOr(Placeholder(k))
  }

  /**
    The page a template is meant to become: each placeholder whose key is a
    column gets that column's value (the first such column's), and every
    other placeholder stays as it is.
   */
  function Fill(ps: seq<Piece>, row: Row): string
    decreases |ps|
  {
    if ps == [] then [] else FillPiece(ps[0], row) + Fill(ps[1..], row)
  }

  /** The placeholders of keys the row has turned into literal text holding their values. */
  function Subst(ps: seq<Piece>, row: Row): (r: seq<Piece>)
    ensures |r| == |ps|
    decreases |ps|
  {
    if ps == [] then []
    else
      var p := match ps[0]
        case Lit(t) => Lit(t)
        case Hole(k) => if Lookup(row, k).Some? then Lit(Lookup(row, k).value) else Hole(k);
      [p] + Subst(ps[1..], row)
  }

  lemma {:induction false} RenderConcat(x: seq<Piece>, y: seq<Piece>)
    ensures Render(x + y) == Render(x) + Render(y)
    decreases |x|
  {
    if x != [] {
      assert (x + y)[1..] == x[1..] + y;
      RenderConcat(x[1..], y);
    } else {
      assert x + y == y;
    }
  }

  lemma {:induction false} FillConcat(x: seq<Piece>, y: seq<Piece>, row: Row)
    ensures Fill(x + y, row) == Fill(x, row) + Fill(y, row)
    decreases |x|
  {
    if x != [] {
      assert (x + y)[1..] == x[1..] + y;
      FillConcat(x[1..], y, row);
    } else {
      assert x + y == y;
    }
  }

  /** The reference page is the substituted template, rendered. */
  lemma {:induction false} FillIsRenderedSubst(ps: seq<Piece>, row: Row)
    ensures Fill(ps, row) == Render(Subst(ps, row))
    decreases |ps|
  {
    if ps != [] {
      FillIsRenderedSubst(ps[1..], row);
      assert Subst(ps, row)[1..] == Subst(ps[1..], row);
    }
  }

  /** With plain values, substitution keeps a template well formed. */
  lemma {:induction false} SubstWellFormed(ps: seq<Piece>, row: Row)
    requires WellFormedPieces(ps) && PlainRow(row)
    ensures WellFormedPieces(Subst(ps, row))
    decreases |ps|
  {
    if ps != [] {
      assert WellFormedPiece(ps[0]);
      if ps[0].Hole? && Lookup(row, ps[0].key).Some? {
        var v := Lookup(row, ps[0].key).value;
        var i :| 0 <= i < |row| && row[i] == Field(ps[0].key, v) && forall j :: 0 <= j < i ==> row[j].key != ps[0].key;
        assert Plain(row[i].value);
      }
      assert WellFormedPieces(ps[1..]) by {
        forall i | 0 <= i < |ps[1..]| ensures WellFormedPiece(ps[1..][i]) {
          assert ps[1..][i] == ps[i + 1];
        }
      }
      SubstWellFormed(ps[1..], row);
    }
  }

  /** No row leaves the template as it is. */
  lemma {:induction false} SubstNone(ps: seq<Piece>)
    ensures Subst(ps, []) == ps
    decreases |ps|
  {
    if ps != [] {
      SubstNone(ps[1..]);
    }
  }

  /** Substituting a row and then one more column is substituting the longer row. */
  lemma {:induction false} SubstSnoc(ps: seq<Piece>, row: Row, f: Field)
    ensures Subst(Subst(ps, row), [f]) == Subst(ps, row + [f])
    decreases |ps|
  {
    if ps != [] {
      SubstSnoc(ps[1..], row, f);
      assert Subst(ps, row)[1..] == Subst(ps[1..], row);
      if ps[0].Hole? {
        LookupSnoc(row, f, ps[0].key);
        LookupSnoc([], f, ps[0].key);
      }
    }
  }

  /** No `{{k}}` begins in plain text and runs past its end. */
  lemma NoMatchOutOfPlain(t: string, r: string, k: string)
    requires Plain(t)
    ensures NoMatchAcross(t + r, Placeholder(k), |t|)
  {
    var s, q := t + r, Placeholder(k);
    assert q[0] == '{' && q[1] == '{';
    forall i | 0 <= i < |t| < i + |q| ensures !OccursAt(s, q, i) {
      if i + 1 < |t| {
        assert !OccursAt(t, "{{", i);
        assert t[i..i + 2] == [t[i], t[i + 1]];
        assert s[i] != '{' || s[i + 1] != '{';
      } else {
        assert s[i] == t[|t| - 1];
      }
      if i + |q| <= |s| {
        assert s[i..i + |q|][0] == s[i] && s[i..i + |q|][1] == s[i + 1];
      }
    }
  }

  /** One key step on a well-formed template replaces exactly the placeholders of that key. */
  lemma {:induction false} ReplaceRender(ps: seq<Piece>, k: string, v: string)
    requires WellFormedPieces(ps) && BraceFree(k)
    ensures ReplaceAll(Render(ps), Placeholder(k), v) == Render(Subst(ps, [Field(k, v)]))
    decreases |ps|
  {
    if ps != [] {
      var rest := Render(ps[1..]);
      assert WellFormedPiece(ps[0]);
      assert WellFormedPieces(ps[1..]) by {
        forall i | 0 <= i < |ps[1..]| ensures WellFormedPiece(ps[1..][i]) {
          assert ps[1..][i] == ps[i + 1];
        }
      }
      ReplaceRender(ps[1..], k, v);
      assert Subst(ps, [Field(k, v)])[1..] == Subst(ps[1..], [Field(k, v)]);
      match ps[0]
      case Hole(h) =>
        ReplaceFromPlaceholder(h, rest, k, v);
        assert Lookup([Field(k, v)], h) == if h == k then Some(v) else None;
      case Lit(t) =>
        NoMatchOutOfPlain(t, rest, k);
        ReplaceAllSplit(t, rest, Placeholder(k), v);
        NoPlaceholder(t, k);
        ReplaceAllAbsent(t, Placeholder(k), v);
    }
  }

  /** The key loop substitutes the row into a well-formed template. */
  lemma {:induction false} ApplyFieldsSubst(ps: seq<Piece>, row: Row)
    requires WellFormedPieces(ps) && PlainRow(row)
    ensures ApplyFields(Render(ps), row) == Render(Subst(ps, row))
    decreases |row|
  {
    if row == [] {
      SubstNone(ps);
    } else {
      var row', f := row[..|row| - 1], row[|row| - 1];
      assert row == row' + [f];
      assert PlainRow(row') by {
        forall i | 0 <= i < |row'| ensures BraceFree(row'[i].key) && Plain(row'[i].value) {
          assert row'[i] == row[i];
        }
      }
      ApplyFieldsSubst(ps, row');
      SubstWellFormed(ps, row');
      ReplaceRender(Subst(ps, row'), f.key, f.value);
      SubstSnoc(ps, row', f);
    }
  }

  /**
    The key loop does what the template means: on a template whose every
    `{{` opens a placeholder, with keys free of braces and values that cannot
    start a placeholder, it gives `Fill`.
   */
  lemma ApplyFieldsFill(ps: seq<Piece>, row: Row)
    requires WellFormedPieces(ps) && PlainRow(row)
    ensures ApplyFields(Render(ps), row) == Fill(ps, row)
  {
    ApplyFieldsSubst(ps, row);
    FillIsRenderedSubst(ps, row);
  }

  /**
    The first column called `h` puts its raw value in place of `{{h}}`,
    whatever other placeholders the template holds around it, and the text
    on either side is populated as if it stood alone.
   */
  lemma ApplyFieldsFills(a: seq<Piece>, h: string, b: seq<Piece>, row: Row, v: string)
    requires WellFormedPieces(a) && WellFormedPieces(b) && BraceFree(h)
    requires PlainRow(row) && Lookup(row, h) == Some(v)
    ensures ApplyFields(Render(a) + Placeholder(h) + Render(b), row)
            == ApplyFields(Render(a), row) + v + ApplyFields(Render(b), row)
  {
    var ps := a + [Hole(h)] + b;
    RenderAround(a, h, b);
    FillAround(a, h, b, row);
    WellFormedAround(a, h, b);
    ApplyFieldsFill(ps, row);
    ApplyFieldsFill(a, row);
    ApplyFieldsFill(b, row);
  }

  lemma RenderAround(a: seq<Piece>, h: string, b: seq<Piece>)
    ensures Render(a + [Hole(h)] + b) == Render(a) + Placeholder(h) + Render(b)
  {
    RenderConcat(a + [Hole(h)], b);
    RenderConcat(a, [Hole(h)]);
  }

  lemma FillAround(a: seq<Piece>, h: string, b: seq<Piece>, row: Row)
    ensures Fill(a + [Hole(h)] + b, row) == Fill(a, row) + Lookup(row, h).GetOr(Placeholder(h)) + Fill(b, row)
  {
    FillConcat(a + [Hole(h)], b, row);
    FillConcat(a, [Hole(h)], row);
  }

  lemma WellFormedAround(a: seq<Piece>, h: string, b: seq<Piece>)
    requires WellFormedPieces(a) && WellFormedPieces(b) && BraceFree(h)
    ensures WellFormedPieces(a + [Hole(h)] + b)
  {
    var ps := a + [Hole(h)] + b;
    forall i | 0 <= i < |ps| ensures WellFormedPiece(ps[i]) {
      if i < |a| {
        assert ps[i] == a[i];
      } else if i > |a| {
        assert ps[i] == b[i - |a| - 1];
      }
    }
  }

  /** Inserting a column with another key anywhere in a row does not change a lookup. */
  lemma {:induction false} LookupInsert(row: Row, i: int, f: Field, key: string)
    requires 0 <= i <= |row| && f.key != key
    ensures Lookup(row[..i] + [f] + row[i..], key) == Lookup(row, key)
    decreases i
  {
    var r := row[..i] + [f] + row[i..];
    if i == 0 {
      assert r[1..] == row;
    } else {
      LookupInsert(row[1..], i - 1, f, key);
      assert r[0] == row[0];
      assert r[1..] == row[1..][..i - 1] + [f] + row[1..][i - 1..];
    }
  }
}

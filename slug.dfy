/**
  `createSlug` of scripts/generate-pages.mjs: like the older revision, but
  hyphens and underscores in the name are kept, and the whole run of hyphens
  and underscores at each end is trimmed.
 */
module Slug {
  import opened Optional
  import opened Text
  import LegacySlug

  /** The two separator characters this revision keeps inside a slug. */
  const Separators: set<char> := {'-', '_'}

  /**
    What this revision promises of a slug: `[a-z0-9_-]`, no `--`, and no
    separator at either end.
   */
  predicate IsSlug(s: string) {
    && SlugChars(s)
    && NoAdjacent(s, {'-'})
    && (s != [] ==> s[0] !in Separators && s[|s| - 1] !in Separators)
  }

  /** Only `[a-z0-9_-]`. */
  predicate SlugChars(s: string) {
    forall i :: 0 <= i < |s| ==> IsAlnumLower(s[i]) || s[i] in Separators
  }

  lemma SlugCharsSlice(s: string, lo: int, r: string)
    requires 0 <= lo <= lo + |r| <= |s| && r == s[lo..lo + |r|]
    ensures SlugChars(s) ==> SlugChars(r)
  {
    assert forall i :: 0 <= i < |r| ==> r[i] == s[lo + i];
  }

  /** The first four steps: lower-case, filter, white space to hyphens, collapse hyphens. */
  function Collapsed(name: string): (c: string)
    ensures |c| <= |name|
    ensures SlugChars(c)
    ensures NoAdjacent(c, {'-'})
  {
    var kept := KeepAlnum(Lower(name), Whitespace + Separators);
    var spaced := SquashRuns(kept, Whitespace, '-');
    SquashRunsChars(kept, Whitespace, '-');
    assert forall i :: 0 <= i < |spaced| ==> IsAlnumLower(spaced[i]) || spaced[i] in Separators by {
      forall i | 0 <= i < |spaced| && spaced[i] != '-'
        ensures IsAlnumLower(spaced[i]) || spaced[i] in Separators
      {
        assert Occurs(spaced[i], kept);
        var j :| 0 <= j < |kept| && kept[j] == spaced[i];
      }
    }
    SquashRunsChars(spaced, {'-'}, '-');
    SquashRunsNoAdjacent(spaced, {'-'}, '-');
    SquashRuns(spaced, {'-'}, '-')
  }

  /** `.replace(/^[-_]+|[-_]+$/g, '')`: the separator runs at both ends are removed. */
  function TrimSeparators(s: string): (r: string)
    ensures |r| <= |s|
    ensures SlugChars(s) ==> SlugChars(r)
    ensures NoAdjacent(s, {'-'}) ==> NoAdjacent(r, {'-'})
    ensures r != [] ==> r[0] !in Separators && r[|r| - 1] !in Separators
  {
    TrimRunsEdges(s, Separators);
    TrimKeepsSlugChars(s);
    TrimKeepsNoAdjacent(s);
    TrimRuns(s, Separators)
  }

  lemma TrimKeepsSlugChars(s: string)
    ensures SlugChars(s) ==> SlugChars(TrimRuns(s, Separators))
  {
    TrimRunsSlice(s, Separators);
    SlugCharsSlice(s, LeadLen(s, Separators), TrimRuns(s, Separators));
  }

  lemma TrimKeepsNoAdjacent(s: string)
    ensures NoAdjacent(s, {'-'}) ==> NoAdjacent(TrimRuns(s, Separators), {'-'})
  {
    TrimRunsSlice(s, Separators);
    NoAdjacentSlice(s, {'-'}, LeadLen(s, Separators), TrimRuns(s, Separators));
  }

  /** `createSlug(companyName)` of scripts/generate-pages.mjs. */
  function CreateSlug(name: string): (slug: string)
    ensures IsSlug(slug)
    ensures |slug| <= |name|
    ensures KeepAlnum(slug, {}) == KeepAlnum(Lower(name), {})
  {
    CollapsedAlnums(name);
    TrimRunsAlnums(Collapsed(name), Separators);
    TrimSeparators(Collapsed(name))
  }

  /** Filtering and both collapsing steps keep every letter and digit of the lower-cased name, in order. */
  lemma CollapsedAlnums(name: string)
    ensures KeepAlnum(Collapsed(name), {}) == KeepAlnum(Lower(name), {})
  {
    var kept := KeepAlnum(Lower(name), Whitespace + Separators);
    var spaced := SquashRuns(kept, Whitespace, '-');
    SquashRunsAlnums(spaced, {'-'}, '-');
    SquashRunsAlnums(kept, Whitespace, '-');
    KeepAlnumTwice(Lower(name), Whitespace + Separators);
  }

  /**
    Two words separated by white space and followed by characters the filter
    drops slug to the lower-cased words joined by one hyphen, as "Acme
    Corp!!" gives "acme-corp".
   */
  lemma SpacedWords(x: string, w: string, y: string, z: string)
    requires x != [] && forall i :: 0 <= i < |x| ==> IsAlnumLower(LowerChar(x[i]))
    requires w != [] && forall i :: 0 <= i < |w| ==> w[i] in Whitespace
    requires y != [] && forall i :: 0 <= i < |y| ==> IsAlnumLower(LowerChar(y[i]))
    requires forall i :: 0 <= i < |z| ==> !IsAlnumLower(LowerChar(z[i])) && z[i] !in Whitespace + Separators
    ensures CreateSlug(x + w + y + z) == Lower(x) + "-" + Lower(y)
  {
    var name := x + w + y + z;
    LowerWords(x, w, y, z);
    KeepAlnumWords(Lower(x), w, Lower(y), Lower(z), Whitespace + Separators);
    SquashRunsWords(Lower(x), w, Lower(y), Whitespace, '-');
    var c := Lower(x) + "-" + Lower(y);
    JoinedWords(Lower(x), Lower(y), '-');
    SquashRunsIdentity(c, {'-'}, '-');
    assert Collapsed(name) == c;
    DropRunNone(c, Separators);
    DropRunEndNone(c, Separators);
  }

  /** "Acme Corp!!" slugs to "acme-corp". */
  lemma AcmeCorp()
    ensures CreateSlug("Acme Corp!!") == "acme-corp"
  {
    LegacySlug.AcmeWords();
    SpacedWords("Acme", " ", "Corp", "!!");
    LegacySlug.AcmeLower();
  }

  /** `createSlug(companyName = '')`: a missing argument is slugged as the empty string. */
  function CreateSlugOf(name: Option<string>): (slug: string)
    ensures IsSlug(slug)
    ensures name.None? ==> slug == ""
  {
    CreateSlug(name.GetOr(""))
  }

  /** A valid slug passes every step of the pipeline unchanged. */
  lemma SlugIsFixed(s: string)
    requires IsSlug(s)
    ensures CreateSlug(s) == s
  {
    CollapsedFixed(s);
    DropRunNone(s, Separators);
    DropRunEndNone(s, Separators);
  }

  /** The first four steps leave a string of slug characters without `--` alone. */
  lemma CollapsedFixed(s: string)
    requires SlugChars(s) && NoAdjacent(s, {'-'})
    ensures Collapsed(s) == s
  {
    LowerIdentity(s);
    KeepAlnumIdentity(s, Whitespace + Separators);
    assert forall i :: 0 <= i < |s| ==> s[i] !in Whitespace;
    SquashRunsIdentity(s, Whitespace, '-');
    SquashRunsIdentity(s, {'-'}, '-');
  }

  /** The strings this revision leaves as they are are exactly its valid slugs. */
  lemma SlugFixpoint(s: string)
    ensures CreateSlug(s) == s <==> IsSlug(s)
  {
    if IsSlug(s) {
      SlugIsFixed(s);
    }
  }

  /** Slugging a slug changes nothing, so a slug supplied in a CSV column survives re-slugging. */
  lemma SlugIdempotent(s: string)
    ensures CreateSlug(CreateSlug(s)) == CreateSlug(s)
  {
    SlugIsFixed(CreateSlug(s));
  }

  /** On a string without `-` and `_`, trimming separator runs drops the same hyphens as the older trim. */
  lemma TrimAgrees(c: string)
    requires NoAdjacent(c, {'-'})
    requires forall i :: 0 <= i < |c| ==> c[i] != '_'
    ensures TrimSeparators(c) == LegacySlug.TrimHyphen(c)
  {
    var t := if c != [] && c[0] == '-' then c[1..] else c;
    if c != [] && c[0] == '-' {
      DropRunOne(c, Separators);
    } else {
      DropRunNone(c, Separators);
    }
    if t != [] && t[|t| - 1] == '-' {
      DropRunEndOne(t, Separators);
    } else {
      DropRunEndNone(t, Separators);
    }
  }

  /**
    On names without `-` and `_` the two revisions agree: the later one only
    differs in what it does with those two characters.
   */
  lemma AgreesWithLegacy(s: string)
    requires forall i :: 0 <= i < |s| ==> s[i] != '-' && s[i] != '_'
    ensures CreateSlug(s) == LegacySlug.CreateSlug(s)
  {
    var lowered := Lower(s);
    assert forall i :: 0 <= i < |lowered| ==> lowered[i] !in Separators;
    KeepAlnumAgree(lowered, Whitespace + Separators, Whitespace);
    var kept := KeepAlnum(lowered, Whitespace);
    KeepAlnumFrom(lowered, Whitespace);
    var spaced := SquashRuns(kept, Whitespace, '-');
    SquashRunsChars(kept, Whitespace, '-');
    var c := SquashRuns(spaced, {'-'}, '-');
    SquashRunsChars(spaced, {'-'}, '-');
    assert forall i :: 0 <= i < |kept| ==> kept[i] != '_';
    assert forall i :: 0 <= i < |spaced| ==> spaced[i] != '_';
    assert forall i :: 0 <= i < |c| ==> c[i] != '_';
    assert Collapsed(s) == c == LegacySlug.Collapsed(s);
    TrimAgrees(c);
  }
}

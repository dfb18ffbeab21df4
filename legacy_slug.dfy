/**
  `createSlug` of scripts/generate-pages.js: lower-case the company name, keep
  only letters, digits and white space, turn each run of white space into a
  hyphen, collapse runs of hyphens and drop one hyphen at each end.
 */
module LegacySlug {
  import opened Text

  /** What this revision promises of a slug: `[a-z0-9-]`, no `--`, no hyphen at either end. */
  predicate IsSlug(s: string) {
    && (forall i :: 0 <= i < |s| ==> IsAlnumLower(s[i]) || s[i] == '-')
    && NoAdjacent(s, {'-'})
    && (s != [] ==> s[0] != '-' && s[|s| - 1] != '-')
  }

  /** The first four steps: lower-case, filter, white space to hyphens, collapse hyphens. */
  function Collapsed(name: string): (c: string)
    ensures |c| <= |KeepAlnum(Lower(name), Whitespace)| <= |name|
    ensures forall i :: 0 <= i < |c| ==> IsAlnumLower(c[i]) || c[i] == '-'
    ensures NoAdjacent(c, {'-'})
  {
    var kept := KeepAlnum(Lower(name), Whitespace);
    var spaced := SquashRuns(kept, Whitespace, '-');
    SquashRunsChars(kept, Whitespace, '-');
    assert forall i :: 0 <= i < |spaced| ==> IsAlnumLower(spaced[i]) || spaced[i] == '-' by {
      forall i | 0 <= i < |spaced| && spaced[i] != '-'
        ensures IsAlnumLower(spaced[i])
      {
        assert Occurs(spaced[i], kept);
        var j :| 0 <= j < |kept| && kept[j] == spaced[i];
      }
    }
    SquashRunsChars(spaced, {'-'}, '-');
    SquashRunsNoAdjacent(spaced, {'-'}, '-');
    SquashRuns(spaced, {'-'}, '-')
  }

  /** `.replace(/^-|-$/g, '')`: one hyphen is dropped at the start and one at the end. */
  function TrimHyphen(s: string): (r: string)
    requires NoAdjacent(s, {'-'})
    ensures |r| <= |s|
    ensures (forall i :: 0 <= i < |s| ==> IsAlnumLower(s[i]) || s[i] == '-')
            ==> forall i :: 0 <= i < |r| ==> IsAlnumLower(r[i]) || r[i] == '-'
    ensures NoAdjacent(r, {'-'})
    ensures r != [] ==> r[0] != '-' && r[|r| - 1] != '-'
  {
    var lo := if s != [] && s[0] == '-' then 1 else 0;
    var hi := if lo < |s| && s[|s| - 1] == '-' then |s| - 1 else |s|;
    NoAdjacentSlice(s, {'-'}, lo, s[lo..hi]);
    assert forall i :: 0 <= i < hi - lo ==> s[lo..hi][i] == s[lo + i];
    s[lo..hi]
  }

  /** `createSlug(companyName)` of scripts/generate-pages.js. */
  function CreateSlug(name: string): (slug: string)
    ensures IsSlug(slug)
    ensures |slug| <= |name|
    ensures KeepAlnum(slug, {}) == KeepAlnum(Lower(name), {})
  {
    CollapsedAlnums(name);
    TrimHyphenAlnums(Collapsed(name));
    TrimHyphen(Collapsed(name))
  }

  /** Filtering and both collapsing steps keep every letter and digit of the lower-cased name, in order. */
  lemma CollapsedAlnums(name: string)
    ensures KeepAlnum(Collapsed(name), {}) == KeepAlnum(Lower(name), {})
  {
    var kept := KeepAlnum(Lower(name), Whitespace);
    var spaced := SquashRuns(kept, Whitespace, '-');
    SquashRunsAlnums(spaced, {'-'}, '-');
    SquashRunsAlnums(kept, Whitespace, '-');
    KeepAlnumTwice(Lower(name), Whitespace);
  }

  /** Dropping a hyphen at either end keeps every letter and digit. */
  lemma TrimHyphenAlnums(s: string)
    requires NoAdjacent(s, {'-'})
    ensures KeepAlnum(TrimHyphen(s), {}) == KeepAlnum(s, {})
  {
    var lo := if s != [] && s[0] == '-' then 1 else 0;
    var hi := if lo < |s| && s[|s| - 1] == '-' then |s| - 1 else |s|;
    assert TrimHyphen(s) == s[lo..hi];
    KeepAlnumSlice(s, lo, hi, {});
  }

  /**
    Two words separated by white space and followed by characters the filter
    drops slug to the lower-cased words joined by one hyphen, as "Acme
    Corp!!" gives "acme-corp".
   */
  lemma SpacedWords(x: string, w: string, y: string, z: string)
    requires x != [] && forall i :: 0 <= i < |x| ==> IsAlnumLower(LowerChar(x[i]))
    requires w != [] && forall i :: 0 <= i < |w| ==> w[i] in Whitespace
    requires y != [] && forall i :: 0 <= i < |y| ==> IsAlnumLower(LowerChar(y[i]))
    requires forall i :: 0 <= i < |z| ==> !IsAlnumLower(LowerChar(z[i])) && z[i] !in Whitespace
    ensures CreateSlug(x + w + y + z) == Lower(x) + "-" + Lower(y)
  {
    var name := x + w + y + z;
    LowerWords(x, w, y, z);
    KeepAlnumWords(Lower(x), w, Lower(y), Lower(z), Whitespace);
    SquashRunsWords(Lower(x), w, Lower(y), Whitespace, '-');
    var c := Lower(x) + "-" + Lower(y);
    JoinedWords(Lower(x), Lower(y), '-');
    SquashRunsIdentity(c, {'-'}, '-');
    assert Collapsed(name) == c;
    assert c[0..|c|] == c;
  }

  /**
    A hyphen in the slug only ever comes from white space in the name: the
    filter drops the name's own hyphens, so "Acme-Corp" becomes "acmecorp".
   */
  lemma HyphensOnlyFromSpaces(name: string)
    requires forall i :: 0 <= i < |name| ==> name[i] !in Whitespace
    ensures forall i :: 0 <= i < |CreateSlug(name)| ==> IsAlnumLower(CreateSlug(name)[i])
  {
    CollapsedWithoutSpaces(name);
  }

  /** Without white space in the name, collapsing is just the filter, and keeps only letters and digits. */
  lemma CollapsedWithoutSpaces(name: string)
    requires forall i :: 0 <= i < |name| ==> name[i] !in Whitespace
    ensures Collapsed(name) == KeepAlnum(Lower(name), Whitespace)
    ensures forall i :: 0 <= i < |Collapsed(name)| ==> IsAlnumLower(Collapsed(name)[i])
  {
    var kept := KeepAlnum(Lower(name), Whitespace);
    KeepAlnumFrom(Lower(name), Whitespace);
    assert forall i :: 0 <= i < |kept| ==> IsAlnumLower(kept[i]) by {
      forall i | 0 <= i < |kept| ensures IsAlnumLower(kept[i]) {
        assert Occurs(kept[i], Lower(name));
        var j :| 0 <= j < |Lower(name)| && Lower(name)[j] == kept[i];
        assert LowerChar(name[j]) == kept[i];
      }
    }
    SquashRunsIdentity(kept, Whitespace, '-');
    SquashRunsIdentity(kept, {'-'}, '-');
  }

  /**
    Two words joined by a hyphen slug to the two words run together, as
    "Acme-Corp" gives "acmecorp".
   */
  lemma HyphenJoinDropped(x: string, y: string)
    requires forall i :: 0 <= i < |x| ==> IsAlnumLower(LowerChar(x[i]))
    requires forall i :: 0 <= i < |y| ==> IsAlnumLower(LowerChar(y[i]))
    ensures CreateSlug(x + "-" + y) == Lower(x) + Lower(y)
  {
    var name := x + "-" + y;
    assert forall i :: 0 <= i < |name| ==> name[i] !in Whitespace by {
      forall i | 0 <= i < |name| ensures name[i] !in Whitespace {
        if i < |x| {
          assert name[i] == x[i];
        } else if i > |x| {
          assert name[i] == y[i - |x| - 1];
        }
      }
    }
    CollapsedWithoutSpaces(name);
    JoinFiltered(x, y);
    var c := Lower(x) + Lower(y);
    assert c == [] || (c[0] != '-' && c[|c| - 1] != '-');
    assert c[0..|c|] == c;
  }

  lemma JoinFiltered(x: string, y: string)
    requires forall i :: 0 <= i < |x| ==> IsAlnumLower(LowerChar(x[i]))
    requires forall i :: 0 <= i < |y| ==> IsAlnumLower(LowerChar(y[i]))
    ensures KeepAlnum(Lower(x + "-" + y), Whitespace) == Lower(x) + Lower(y)
  {
    LowerJoin(x, y);
    KeepJoin(Lower(x), Lower(y));
  }

  lemma HyphenFiltered()
    ensures KeepAlnum("-", Whitespace) == ""
  {
    assert '-' !in Whitespace;
  }

  lemma LowerJoin(x: string, y: string)
    ensures Lower(x + "-" + y) == Lower(x) + "-" + Lower(y)
  {
  }

  lemma KeepJoin(x: string, y: string)
    requires forall i :: 0 <= i < |x| ==> IsAlnumLower(x[i])
    requires forall i :: 0 <= i < |y| ==> IsAlnumLower(y[i])
    ensures KeepAlnum(x + "-" + y, Whitespace) == x + y
  {
    assert KeepAlnum(x + "-", Whitespace) == x by {
      KeepAlnumConcat(x, "-", Whitespace);
      KeepAlnumIdentity(x, Whitespace);
      HyphenFiltered();
    }
    KeepAlnumConcat(x + "-", y, Whitespace);
    KeepAlnumIdentity(y, Whitespace);
  }

  /** "Acme Corp!!" slugs to "acme-corp" in this revision too. */
  lemma AcmeCorp()
    ensures CreateSlug("Acme Corp!!") == "acme-corp"
  {
    AcmeWords();
    SpacedWords("Acme", " ", "Corp", "!!");
    AcmeLower();
  }

  lemma AcmeWords()
    ensures "Acme Corp!!" == "Acme" + " " + "Corp" + "!!"
    ensures forall i :: 0 <= i < 4 ==> IsAlnumLower(LowerChar("Acme"[i]))
    ensures forall i :: 0 <= i < 4 ==> IsAlnumLower(LowerChar("Corp"[i]))
  {
  }

  lemma AcmeLower()
    ensures Lower("Acme") + "-" + Lower("Corp") == "acme-corp"
  {
    assert Lower("Acme") == "acme";
    assert Lower("Corp") == "corp";
  }

  /** A string of lower-case letters and digits is its own slug. */
  lemma AlnumIsFixed(s: string)
    requires forall i :: 0 <= i < |s| ==> IsAlnumLower(s[i])
    ensures CreateSlug(s) == s
  {
    LowerIdentity(s);
    KeepAlnumIdentity(s, Whitespace);
    SquashRunsIdentity(s, Whitespace, '-');
    SquashRunsIdentity(s, {'-'}, '-');
    assert Collapsed(s) == s;
  }

  /** A name this revision leaves as it is has no hyphen, since the filter would drop it. */
  lemma FixedIsAlnum(s: string)
    requires CreateSlug(s) == s
    ensures forall i :: 0 <= i < |s| ==> IsAlnumLower(s[i])
  {
    forall i | 0 <= i < |s| ensures IsAlnumLower(s[i]) {
      if !IsAlnumLower(s[i]) {
        HyphenShortens(s, i);
      }
    }
  }

  lemma HyphenShortens(s: string, i: int)
    requires 0 <= i < |s| && s[i] == '-'
    ensures |CreateSlug(s)| < |s|
  {
    assert Lower(s)[i] == '-';
    KeepAlnumDrops(Lower(s), Whitespace, i);
  }

  /**
    The names this revision leaves as they are are exactly the strings of
    lower-case letters and digits: a slug with a hyphen is not one of them.
   */
  lemma SlugFixpoint(s: string)
    ensures CreateSlug(s) == s <==> forall i :: 0 <= i < |s| ==> IsAlnumLower(s[i])
  {
    if CreateSlug(s) == s {
      FixedIsAlnum(s);
    }
    if forall i :: 0 <= i < |s| ==> IsAlnumLower(s[i]) {
      AlnumIsFixed(s);
    }
  }

  /** The filter is strictly shorter than its input when it drops a character. */
  lemma {:induction false} KeepAlnumDrops(s: string, extra: set<char>, i: int)
    requires 0 <= i < |s| && !IsAlnumLower(s[i]) && s[i] !in extra
    ensures |KeepAlnum(s, extra)| < |s|
    decreases |s|
  {
    if i > 0 {
      KeepAlnumDrops(s[1..], extra, i - 1);
    }
  }

  /**
    The second application drops the hyphens the first one introduced, so
    this revision is not idempotent: "a b" becomes "a-b", which becomes "ab".
   */
  lemma NotIdempotent()
    ensures CreateSlug("a b") == "a-b"
    ensures CreateSlug(CreateSlug("a b")) == "ab"
  {
    SpaceBecomesHyphen();
    HyphenIsDropped();
    assert TrimHyphen("a-b") == "a-b";
    AlnumIsFixed("ab");
  }

  lemma SpaceBecomesHyphen()
    ensures Collapsed("a b") == "a-b"
  {
    assert Lower("a b") == "a b";
    KeepAlnumIdentity("a b", Whitespace);
    assert "a b"[0] == 'a' && "a b"[1..] == " b" && " b"[1..] == "b" && "b"[0] == 'b';
    assert 'a' !in Whitespace && ' ' in Whitespace && 'b' !in Whitespace;
    assert DropRun("b", Whitespace) == "b";
    assert DropRun(" b", Whitespace) == "b";
    SquashRunsIdentity("b", Whitespace, '-');
    assert SquashRuns(" b", Whitespace, '-') == "-b";
    assert SquashRuns("a b", Whitespace, '-') == "a-b";
    SquashRunsIdentity("a-b", {'-'}, '-');
  }

  lemma HyphenIsDropped()
    ensures Collapsed("a-b") == "ab"
  {
    assert Lower("a-b") == "a" + "-" + "b";
    KeepAlnumConcat("a" + "-", "b", Whitespace);
    KeepAlnumConcat("a", "-", Whitespace);
    KeepAlnumIdentity("a", Whitespace);
    KeepAlnumIdentity("b", Whitespace);
    assert KeepAlnum("-", Whitespace) == "";
    SquashRunsIdentity("ab", Whitespace, '-');
    SquashRunsIdentity("ab", {'-'}, '-');
  }

  /** Applied twice, the slug no longer changes: the output settles after the second application. */
  lemma SettlesAfterTwo(s: string)
    ensures CreateSlug(CreateSlug(CreateSlug(s))) == CreateSlug(CreateSlug(s))
  {
    var once := CreateSlug(s);
    HyphensOnlyFromSpaces(once);
    SlugFixpoint(CreateSlug(once));
  }
}

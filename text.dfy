/**
  The ASCII subset of the JavaScript string operations the page generators
  use: `toLowerCase`, `trim`, the `\s` class, the character-class filters and
  run-collapsing replacements of `createSlug`, and `String.prototype.replace`
  with a global pattern that matches one literal string.
 */
module Text {

  /** The characters `\s` and `trim` treat as white space, restricted to ASCII. */
  const Whitespace: set<char> := {' ', '\t', '\n', '\r', '\U{000B}', '\U{000C}'}

  predicate IsAlnumLower(c: char) {
    'a' <= c <= 'z' || '0' <= c <= '9'
  }

  predicate IsUpper(c: char) {
    'A' <= c <= 'Z'
  }

  /** `toLowerCase` on one ASCII character; every other character is left alone. */
  function LowerChar(c: char): (d: char)
    ensures !IsUpper(d)
    ensures !IsUpper(c) ==> d == c
  {
    if IsUpper(c) then (c as int + 32) as char else c
  }

  function Lower(s: string): (r: string)
    ensures |r| == |s|
    ensures forall i :: 0 <= i < |s| ==> r[i] == LowerChar(s[i])
  {
    seq(|s|, i requires 0 <= i < |s| => LowerChar(s[i]))
  }

  /** `c` is one of the characters of `s`. */
  predicate Occurs(c: char, s: string) {
    exists j :: 0 <= j < |s| && s[j] == c
  }

  /** A character of a suffix is a character of the whole string. */
  lemma OccursInSuffix(s: string, k: int)
    requires 0 <= k <= |s|
    ensures forall c :: Occurs(c, s[k..]) ==> Occurs(c, s)
  {
    forall c | Occurs(c, s[k..]) ensures Occurs(c, s) {
      var j :| 0 <= j < |s[k..]| && s[k..][j] == c;
      assert s[k + j] == c;
    }
  }

  lemma LowerIdentity(s: string)
    requires forall i :: 0 <= i < |s| ==> !IsUpper(s[i])
    ensures Lower(s) == s
  {
  }

  /** No two neighbouring characters of `s` both belong to `sep`. */
  predicate NoAdjacent(s: string, sep: set<char>) {
    forall i :: 0 <= i < |s| - 1 ==> !(s[i] in sep && s[i + 1] in sep)
  }

  /** What remains of `s` once its leading run of `sep` characters is removed (`/^[sep]+/`). */
  function DropRun(s: string, sep: set<char>): (r: string)
    ensures |r| <= |s|
    ensures r != [] ==> r[0] !in sep
    ensures s != [] && s[0] in sep ==> |r| < |s|
    decreases |s|
  {
    if s != [] && s[0] in sep then DropRun(s[1..], sep) else s
  }

  /** The leading run is a prefix made of `sep` characters only, and what remains is the rest. */
  lemma {:induction false} DropRunSuffix(s: string, sep: set<char>)
    ensures DropRun(s, sep) == s[|s| - |DropRun(s, sep)|..]
    ensures forall i :: 0 <= i < |s| - |DropRun(s, sep)| ==> s[i] in sep
    decreases |s|
  {
    if s != [] && s[0] in sep {
      DropRunSuffix(s[1..], sep);
      var r := DropRun(s, sep);
      assert s[1..][|s| - 1 - |r|..] == s[|s| - |r|..];
      forall i | 0 < i < |s| - |r| ensures s[i] in sep {
        assert s[i] == s[1..][i - 1];
      }
    }
  }

  /** What remains of `s` once its trailing run of `sep` characters is removed (`/[sep]+$/`). */
  function DropRunEnd(s: string, sep: set<char>): (r: string)
    ensures |r| <= |s|
    ensures r != [] ==> r[|r| - 1] !in sep
    decreases |s|
  {
    if s != [] && s[|s| - 1] in sep then DropRunEnd(s[..|s| - 1], sep) else s
  }

  /** The trailing run is a suffix made of `sep` characters only, and what remains is the rest. */
  lemma {:induction false} DropRunEndPrefix(s: string, sep: set<char>)
    ensures DropRunEnd(s, sep) == s[..|DropRunEnd(s, sep)|]
    ensures forall i :: |DropRunEnd(s, sep)| <= i < |s| ==> s[i] in sep
    decreases |s|
  {
    if s != [] && s[|s| - 1] in sep {
      DropRunEndPrefix(s[..|s| - 1], sep);
      var r := DropRunEnd(s, sep);
      assert s[..|s| - 1][..|r|] == s[..|r|];
      forall i | |r| <= i < |s| - 1 ensures s[i] in sep {
        assert s[i] == s[..|s| - 1][i];
      }
    }
  }

  /** A string that starts outside `sep` has no leading run to drop. */
  lemma DropRunNone(s: string, sep: set<char>)
    requires s == [] || s[0] !in sep
    ensures DropRun(s, sep) == s
  {
  }

  /** A leading run of one character loses just that character. */
  lemma DropRunOne(s: string, sep: set<char>)
    requires s != [] && s[0] in sep && (|s| == 1 || s[1] !in sep)
    ensures DropRun(s, sep) == s[1..]
  {
    DropRunNone(s[1..], sep);
  }

  /** A string that ends outside `sep` has no trailing run to drop. */
  lemma DropRunEndNone(s: string, sep: set<char>)
    requires s == [] || s[|s| - 1] !in sep
    ensures DropRunEnd(s, sep) == s
  {
  }

  /** A trailing run of one character loses just that character. */
  lemma DropRunEndOne(s: string, sep: set<char>)
    requires s != [] && s[|s| - 1] in sep && (|s| == 1 || s[|s| - 2] !in sep)
    ensures DropRunEnd(s, sep) == s[..|s| - 1]
  {
    DropRunEndNone(s[..|s| - 1], sep);
  }

  /** Both `sep` runs removed: what `/^[sep]+|[sep]+$/g` replaced by `''` leaves. */
  function TrimRuns(s: string, sep: set<char>): (r: string)
    ensures |r| <= |s|
  {
    DropRunEnd(DropRun(s, sep), sep)
  }

  /** Nothing is left exactly when every character is a `sep` character. */
  lemma TrimRunsEmpty(s: string, sep: set<char>)
    ensures TrimRuns(s, sep) == [] <==> forall i :: 0 <= i < |s| ==> s[i] in sep
  {
    var t := DropRun(s, sep);
    DropRunSuffix(s, sep);
    DropRunEndPrefix(t, sep);
    assert TrimRuns(s, sep) == [] ==> t == [];
  }

  /** How many characters the leading run of `sep` takes up. */
  function LeadLen(s: string, sep: set<char>): (n: nat)
    ensures n + |TrimRuns(s, sep)| <= |s|
  {
    |s| - |DropRun(s, sep)|
  }

  /** Removing the `sep` runs at both ends keeps a slice of the input. */
  lemma TrimRunsSlice(s: string, sep: set<char>)
    ensures TrimRuns(s, sep) == s[LeadLen(s, sep)..LeadLen(s, sep) + |TrimRuns(s, sep)|]
  {
    var t := DropRun(s, sep);
    DropRunSuffix(s, sep);
    DropRunEndPrefix(t, sep);
    SliceOfSuffix(s, |s| - |t|, t, DropRunEnd(t, sep));
  }

  /** What is left after removing the `sep` runs at both ends neither starts nor ends in `sep`. */
  lemma TrimRunsEdges(s: string, sep: set<char>)
    ensures TrimRuns(s, sep) != [] ==> TrimRuns(s, sep)[0] !in sep && TrimRuns(s, sep)[|TrimRuns(s, sep)| - 1] !in sep
  {
    var t := DropRun(s, sep);
    var r := DropRunEnd(t, sep);
    DropRunEndPrefix(t, sep);
    if r != [] {
      assert r[0] == t[0];
    }
  }

  /** `String.prototype.trim`: the white space at both ends is removed. */
  function Trim(s: string): (r: string)
    ensures r != [] ==> r[0] !in Whitespace && r[|r| - 1] !in Whitespace
    ensures r == [] <==> forall i :: 0 <= i < |s| ==> s[i] in Whitespace
  {
    TrimRunsEdges(s, Whitespace);
    TrimRunsEmpty(s, Whitespace);
    TrimRuns(s, Whitespace)
  }

  /** A prefix of a suffix is a slice. */
  lemma SliceOfSuffix(s: string, lo: int, t: string, r: string)
    requires 0 <= lo <= |s| && t == s[lo..]
    requires |r| <= |t| && r == t[..|r|]
    ensures r == s[lo..lo + |r|]
  {
  }

  /**
    `s.replace(/[sep]+/g, rep)`: every maximal run of `sep` characters
    becomes the single character `rep`.
   */
  function SquashRuns(s: string, sep: set<char>, rep: char): (r: string)
    ensures |r| <= |s|
    decreases |s|
  {
    if s == [] then []
    else if s[0] in sep then [rep] + SquashRuns(DropRun(s, sep), sep, rep)
    else [s[0]] + SquashRuns(s[1..], sep, rep)
  }

  /** Every character of `r` is `rep` or a character of `s` outside `sep`. */
  predicate CharsFrom(r: string, s: string, sep: set<char>, rep: char) {
    forall i :: 0 <= i < |r| ==> r[i] == rep || (r[i] !in sep && Occurs(r[i], s))
  }

  /**
    Every character of the squashed string is `rep` or a character of the
    input outside `sep`, and it begins where the input begins.
   */
  lemma {:induction false} SquashRunsChars(s: string, sep: set<char>, rep: char)
    ensures CharsFrom(SquashRuns(s, sep, rep), s, sep, rep)
    ensures s != [] ==> SquashRuns(s, sep, rep) != []
                        && SquashRuns(s, sep, rep)[0] == (if s[0] in sep then rep else s[0])
    decreases |s|
  {
    if s != [] {
      var rest := if s[0] in sep then DropRun(s, sep) else s[1..];
      var head := if s[0] in sep then rep else s[0];
      DropRunSuffix(s, sep);
      assert rest == s[|s| - |rest|..];
      OccursInSuffix(s, |s| - |rest|);
      SquashRunsChars(rest, sep, rep);
      var tail := SquashRuns(rest, sep, rep);
      assert SquashRuns(s, sep, rep) == [head] + tail;
      assert Occurs(s[0], s);
      ConsCharsFrom(head, tail, rest, s, sep, rep);
    }
  }

  /** `CharsFrom` of a head character and a tail whose source is part of `s`. */
  lemma ConsCharsFrom(head: char, tail: string, rest: string, s: string, sep: set<char>, rep: char)
    requires head == rep || (head !in sep && Occurs(head, s))
    requires CharsFrom(tail, rest, sep, rep)
    requires forall c :: Occurs(c, rest) ==> Occurs(c, s)
    ensures CharsFrom([head] + tail, s, sep, rep)
  {
    forall i | 0 <= i < |[head] + tail|
      ensures ([head] + tail)[i] == rep || (([head] + tail)[i] !in sep && Occurs(([head] + tail)[i], s))
    {
      if i > 0 {
        assert ([head] + tail)[i] == tail[i - 1];
      }
    }
  }

  /** When `rep` is itself a `sep` character, no two `sep` characters end up side by side. */
  lemma {:induction false} SquashRunsNoAdjacent(s: string, sep: set<char>, rep: char)
    requires rep in sep
    ensures NoAdjacent(SquashRuns(s, sep, rep), sep)
    decreases |s|
  {
    if s != [] {
      var rest := if s[0] in sep then DropRun(s, sep) else s[1..];
      SquashRunsNoAdjacent(rest, sep, rep);
      SquashRunsChars(rest, sep, rep);
    }
  }

  /** A string whose `sep` characters are all `rep` and never neighbours is its own squashed form. */
  lemma {:induction false} SquashRunsIdentity(s: string, sep: set<char>, rep: char)
    requires forall i :: 0 <= i < |s| && s[i] in sep ==> s[i] == rep
    requires NoAdjacent(s, sep)
    ensures SquashRuns(s, sep, rep) == s
    decreases |s|
  {
    if s != [] {
      if s[0] in sep {
        assert DropRun(s[1..], sep) == s[1..];
        assert DropRun(s, sep) == s[1..];
      }
      SquashRunsIdentity(s[1..], sep, rep);
    }
  }

  /** `s.replace(/[^a-z0-9<extra>]/g, '')`: only lower-case letters, digits and `extra` are kept. */
  function KeepAlnum(s: string, extra: set<char>): (r: string)
    ensures |r| <= |s|
    ensures forall i :: 0 <= i < |r| ==> IsAlnumLower(r[i]) || r[i] in extra
    decreases |s|
  {
    if s == [] then []
    else if IsAlnumLower(s[0]) || s[0] in extra then [s[0]] + KeepAlnum(s[1..], extra)
    else KeepAlnum(s[1..], extra)
  }

  /** The filter only removes characters: whatever it keeps was in its input. */
  lemma {:induction false} KeepAlnumFrom(s: string, extra: set<char>)
    ensures forall i :: 0 <= i < |KeepAlnum(s, extra)| ==> Occurs(KeepAlnum(s, extra)[i], s)
    decreases |s|
  {
    if s != [] {
      OccursInSuffix(s, 1);
      assert Occurs(s[0], s);
      KeepAlnumFrom(s[1..], extra);
    }
  }

  /** A string made only of kept characters passes the filter unchanged. */
  lemma {:induction false} KeepAlnumIdentity(s: string, extra: set<char>)
    requires forall i :: 0 <= i < |s| ==> IsAlnumLower(s[i]) || s[i] in extra
    ensures KeepAlnum(s, extra) == s
    decreases |s|
  {
    if s != [] {
      KeepAlnumIdentity(s[1..], extra);
    }
  }

  /** The filter works character by character, so it distributes over concatenation. */
  lemma {:induction false} KeepAlnumConcat(x: string, y: string, extra: set<char>)
    ensures KeepAlnum(x + y, extra) == KeepAlnum(x, extra) + KeepAlnum(y, extra)
    decreases |x|
  {
    if x == [] {
      assert x + y == y;
    } else {
      assert (x + y)[1..] == x[1..] + y;
      KeepAlnumConcat(x[1..], y, extra);
    }
  }

  /** Two filters that agree on every character of `s` keep the same characters. */
  lemma {:induction false} KeepAlnumAgree(s: string, e1: set<char>, e2: set<char>)
    requires forall i :: 0 <= i < |s| ==> (s[i] in e1 <==> s[i] in e2)
    ensures KeepAlnum(s, e1) == KeepAlnum(s, e2)
    decreases |s|
  {
    if s != [] {
      KeepAlnumAgree(s[1..], e1, e2);
    }
  }

  /** Characters none of which is a lower-case letter or a digit. */
  predicate NoAlnum(sep: set<char>) {
    forall c :: c in sep ==> !IsAlnumLower(c)
  }

  /** Filtering to letters and digits after any filter that keeps them is filtering once. */
  lemma {:induction false} KeepAlnumTwice(s: string, extra: set<char>)
    ensures KeepAlnum(KeepAlnum(s, extra), {}) == KeepAlnum(s, {})
    decreases |s|
  {
    if s != [] {
      KeepAlnumTwice(s[1..], extra);
      if IsAlnumLower(s[0]) || s[0] in extra {
        assert ([s[0]] + KeepAlnum(s[1..], extra))[1..] == KeepAlnum(s[1..], extra);
      }
    }
  }

  /** A string of characters the filter drops is dropped entirely. */
  lemma {:induction false} KeepAlnumDropsAll(s: string, extra: set<char>)
    requires forall i :: 0 <= i < |s| ==> !IsAlnumLower(s[i]) && s[i] !in extra
    ensures KeepAlnum(s, extra) == []
    decreases |s|
  {
    if s != [] {
      KeepAlnumDropsAll(s[1..], extra);
    }
  }

  /** Characters the filter drops on both sides of `mid` do not change what it keeps. */
  lemma KeepAlnumFramed(head: string, mid: string, tail: string, extra: set<char>)
    requires forall i :: 0 <= i < |head| ==> !IsAlnumLower(head[i]) && head[i] !in extra
    requires forall i :: 0 <= i < |tail| ==> !IsAlnumLower(tail[i]) && tail[i] !in extra
    ensures KeepAlnum(head + mid + tail, extra) == KeepAlnum(mid, extra)
  {
    KeepAlnumConcat(head + mid, tail, extra);
    KeepAlnumConcat(head, mid, extra);
    KeepAlnumDropsAll(head, extra);
    KeepAlnumDropsAll(tail, extra);
  }

  /** A slice whose cut-off ends hold only dropped characters filters like the whole string. */
  lemma KeepAlnumSlice(s: string, lo: int, hi: int, extra: set<char>)
    requires 0 <= lo <= hi <= |s|
    requires forall i :: 0 <= i < lo ==> !IsAlnumLower(s[i]) && s[i] !in extra
    requires forall i :: hi <= i < |s| ==> !IsAlnumLower(s[i]) && s[i] !in extra
    ensures KeepAlnum(s[lo..hi], extra) == KeepAlnum(s, extra)
  {
    assert s == s[..lo] + s[lo..hi] + s[hi..];
    assert forall i :: 0 <= i < |s[hi..]| ==> s[hi..][i] == s[hi + i];
    KeepAlnumFramed(s[..lo], s[lo..hi], s[hi..], extra);
  }

  /** Collapsing runs of non-alphanumeric characters into one keeps the letters and digits. */
  lemma {:induction false} SquashRunsAlnums(s: string, sep: set<char>, rep: char)
    requires NoAlnum(sep) && !IsAlnumLower(rep)
    ensures KeepAlnum(SquashRuns(s, sep, rep), {}) == KeepAlnum(s, {})
    decreases |s|
  {
    if s != [] {
      var r := SquashRuns(s, sep, rep);
      if s[0] in sep {
        var rest := DropRun(s, sep);
        SquashRunsAlnums(rest, sep, rep);
        assert r[1..] == SquashRuns(rest, sep, rep);
        DropRunAlnums(s, sep);
      } else {
        SquashRunsAlnums(s[1..], sep, rep);
        assert r[1..] == SquashRuns(s[1..], sep, rep);
      }
    }
  }

  /** Dropping a leading run of non-alphanumeric characters keeps the letters and digits. */
  lemma DropRunAlnums(s: string, sep: set<char>)
    requires NoAlnum(sep)
    ensures KeepAlnum(DropRun(s, sep), {}) == KeepAlnum(s, {})
  {
    var r := DropRun(s, sep);
    DropRunSuffix(s, sep);
    var d := |s| - |r|;
    assert s == s[..d] + r;
    KeepAlnumConcat(s[..d], r, {});
    KeepAlnumDropsAll(s[..d], {});
  }

  /** Dropping a trailing run of non-alphanumeric characters keeps the letters and digits. */
  lemma DropRunEndAlnums(s: string, sep: set<char>)
    requires NoAlnum(sep)
    ensures KeepAlnum(DropRunEnd(s, sep), {}) == KeepAlnum(s, {})
  {
    var r := DropRunEnd(s, sep);
    DropRunEndPrefix(s, sep);
    assert s == r + s[|r|..];
    KeepAlnumConcat(r, s[|r|..], {});
    KeepAlnumDropsAll(s[|r|..], {});
  }

  /** Removing runs of non-alphanumeric characters at both ends keeps the letters and digits. */
  lemma TrimRunsAlnums(s: string, sep: set<char>)
    requires NoAlnum(sep)
    ensures KeepAlnum(TrimRuns(s, sep), {}) == KeepAlnum(s, {})
  {
    DropRunAlnums(s, sep);
    DropRunEndAlnums(DropRun(s, sep), sep);
  }

  lemma LowerConcat(x: string, y: string)
    ensures Lower(x + y) == Lower(x) + Lower(y)
  {
  }

  /** A prefix without `sep` characters passes the collapsing replace untouched. */
  lemma {:induction false} SquashRunsPrefix(x: string, rest: string, sep: set<char>, rep: char)
    requires forall i :: 0 <= i < |x| ==> x[i] !in sep
    ensures SquashRuns(x + rest, sep, rep) == x + SquashRuns(rest, sep, rep)
    decreases |x|
  {
    if x != [] {
      assert (x + rest)[1..] == x[1..] + rest;
      SquashRunsPrefix(x[1..], rest, sep, rep);
    } else {
      assert x + rest == rest;
    }
  }

  /** A leading run followed by a character outside `sep` is dropped exactly. */
  lemma {:induction false} DropRunPrefix(w: string, y: string, sep: set<char>)
    requires forall i :: 0 <= i < |w| ==> w[i] in sep
    requires y == [] || y[0] !in sep
    ensures DropRun(w + y, sep) == y
    decreases |w|
  {
    if w != [] {
      assert (w + y)[1..] == w[1..] + y;
      DropRunPrefix(w[1..], y, sep);
    } else {
      assert w + y == y;
      DropRunNone(y, sep);
    }
  }

  /** Letters and digits, white space kept by `extra`, letters and digits, then only dropped characters. */
  lemma KeepAlnumWords(a: string, w: string, b: string, z: string, extra: set<char>)
    requires forall i :: 0 <= i < |a| ==> IsAlnumLower(a[i])
    requires forall i :: 0 <= i < |w| ==> w[i] in extra
    requires forall i :: 0 <= i < |b| ==> IsAlnumLower(b[i])
    requires forall i :: 0 <= i < |z| ==> !IsAlnumLower(z[i]) && z[i] !in extra
    ensures KeepAlnum(a + w + b + z, extra) == a + w + b
  {
    var k := a + w + b;
    assert forall i :: 0 <= i < |k| ==> IsAlnumLower(k[i]) || k[i] in extra by {
      forall i | 0 <= i < |k| ensures IsAlnumLower(k[i]) || k[i] in extra {
        if i < |a| {
          assert k[i] == a[i];
        } else if i < |a| + |w| {
          assert k[i] == w[i - |a|];
        } else {
          assert k[i] == b[i - |a| - |w|];
        }
      }
    }
    KeepAlnumIdentity(k, extra);
    KeepAlnumConcat(k, z, extra);
    KeepAlnumDropsAll(z, extra);
  }

  /** Lower-casing a name made of two words, a gap of white space and a tail. */
  lemma LowerWords(x: string, w: string, y: string, z: string)
    requires forall i :: 0 <= i < |w| ==> w[i] in Whitespace
    ensures Lower(x + w + y + z) == Lower(x) + w + Lower(y) + Lower(z)
  {
    LowerConcat(x + w + y, z);
    LowerConcat(x + w, y);
    LowerConcat(x, w);
    LowerIdentity(w);
  }

  /** Two non-empty words of letters and digits joined by one other character. */
  lemma JoinedWords(a: string, b: string, rep: char)
    requires a != [] && forall i :: 0 <= i < |a| ==> IsAlnumLower(a[i])
    requires b != [] && forall i :: 0 <= i < |b| ==> IsAlnumLower(b[i])
    requires !IsAlnumLower(rep)
    ensures NoAdjacent(a + [rep] + b, {rep})
    ensures (a + [rep] + b)[0] == a[0]
    ensures (a + [rep] + b)[|a + [rep] + b| - 1] == b[|b| - 1]
  {
    var c := a + [rep] + b;
    forall i | 0 <= i < |c| - 1 ensures !(c[i] in {rep} && c[i + 1] in {rep}) {
      if i < |a| {
        assert c[i] == a[i];
      } else {
        assert c[i + 1] == b[i - |a|];
      }
    }
  }

  /** Two pieces without `sep` around one run of `sep`: the run becomes one `rep`. */
  lemma SquashRunsWords(x: string, w: string, y: string, sep: set<char>, rep: char)
    requires forall i :: 0 <= i < |x| ==> x[i] !in sep
    requires forall i :: 0 <= i < |y| ==> y[i] !in sep
    requires w != [] && forall i :: 0 <= i < |w| ==> w[i] in sep
    ensures SquashRuns(x + w + y, sep, rep) == x + [rep] + y
  {
    assert x + w + y == x + (w + y);
    SquashRunsPrefix(x, w + y, sep, rep);
    assert (w + y)[0] in sep;
    DropRunPrefix(w, y, sep);
    SquashRunsIdentity(y, sep, rep);
  }

  /** `p` occurs in `s` starting at index `i`. */
  predicate OccursAt(s: string, p: string, i: int) {
    0 <= i && i + |p| <= |s| && s[i..i + |p|] == p
  }

  predicate Contains(s: string, p: string) {
    exists i :: 0 <= i <= |s| && OccursAt(s, p, i)
  }

  /**
    `s.replace(new RegExp(p, 'g'), v)` for a pattern that matches only the
    literal string `p` and a replacement with no `$` pattern: the string is
    scanned left to right and every non-overlapping occurrence of `p` is
    replaced by `v`; the scan resumes after the replaced text, so `v` is never
    rescanned.
   */
  function ReplaceAll(s: string, p: string, v: string): string
    requires p != []
    decreases |s|
  {
    if |s| < |p| then s
    else if s[..|p|] == p then v + ReplaceAll(s[|p|..], p, v)
    else [s[0]] + ReplaceAll(s[1..], p, v)
  }

  /** Dropping a prefix of length `d` shifts every occurrence by `d`. */
  lemma OccursAtShift(s: string, p: string, d: int, i: int)
    requires 0 <= d <= |s| && 0 <= i
    ensures OccursAt(s[d..], p, i) <==> OccursAt(s, p, i + d)
  {
    if i + |p| <= |s| - d {
      assert s[d..][i..i + |p|] == s[i + d..i + d + |p|];
    }
  }

  /** A string without an occurrence of `p` comes back unchanged. */
  lemma {:induction false} ReplaceAllAbsent(s: string, p: string, v: string)
    requires p != []
    requires !Contains(s, p)
    ensures ReplaceAll(s, p, v) == s
    decreases |s|
  {
    if |s| >= |p| {
      assert !OccursAt(s, p, 0);
      assert s[..|p|] != p;
      forall i | 0 <= i ensures !OccursAt(s[1..], p, i) {
        OccursAtShift(s, p, 1, i);
      }
      ReplaceAllAbsent(s[1..], p, v);
    }
  }

  /** No occurrence of `p` in `s` begins before `cut` and ends after it. */
  predicate NoMatchAcross(s: string, p: string, cut: int) {
    forall i :: 0 <= i < cut < i + |p| ==> !OccursAt(s, p, i)
  }

  /** Dropping `d` characters of the left part keeps the cut free of straddling matches. */
  lemma NoMatchAcrossShift(x: string, y: string, p: string, d: int)
    requires 0 < d <= |x|
    requires NoMatchAcross(x + y, p, |x|)
    ensures (x + y)[d..] == x[d..] + y
    ensures NoMatchAcross(x[d..] + y, p, |x| - d)
  {
    var s := x + y;
    assert s[d..] == x[d..] + y;
    forall i | 0 <= i < |x| - d < i + |p| ensures !OccursAt(x[d..] + y, p, i) {
      OccursAtShift(s, p, d, i);
    }
  }

  /**
    Replacement works piecewise on `x + y` when no occurrence straddles the
    boundary: the left-to-right scan reaches the boundary in step.
   */
  lemma {:induction false} ReplaceAllSplit(x: string, y: string, p: string, v: string)
    requires p != []
    requires NoMatchAcross(x + y, p, |x|)
    ensures ReplaceAll(x + y, p, v) == ReplaceAll(x, p, v) + ReplaceAll(y, p, v)
    decreases |x|
  {
    var s := x + y;
    if x == [] {
      assert s == y;
    } else if |s| < |p| {
    } else if s[..|p|] == p {
      assert OccursAt(s, p, 0);
      assert |p| <= |x|;
      assert x[..|p|] == p;
      var x' := x[|p|..];
      NoMatchAcrossShift(x, y, p, |p|);
      ReplaceAllSplit(x', y, p, v);
    } else {
      var x' := x[1..];
      NoMatchAcrossShift(x, y, p, 1);
      ReplaceAllSplit(x', y, p, v);
      if |x| >= |p| {
        assert x[..|p|] == s[..|p|];
      } else {
        assert |x'| < |p|;
        assert [x[0]] + x' == x;
      }
    }
  }

  /** A piece of a string has no neighbouring `sep` characters when the whole has none. */
  lemma NoAdjacentSlice(s: string, sep: set<char>, lo: int, r: string)
    requires 0 <= lo <= lo + |r| <= |s| && r == s[lo..lo + |r|]
    ensures NoAdjacent(s, sep) ==> NoAdjacent(r, sep)
  {
    if NoAdjacent(s, sep) {
      forall k | 0 <= k < |r| - 1 ensures !(r[k] in sep && r[k + 1] in sep) {
        assert r[k] == s[lo + k] && r[k + 1] == s[lo + k + 1];
      }
    }
  }
}

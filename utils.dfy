/**
 * The two string normalisers of src/utils.ts: `slugify`, which turns a title
 * into a lower-case, dash-separated identifier, and `cleanLineItem`, which
 * strips one bullet, one pair of quotes and one numeric marker from a line.
 */
module Utils {
  import opened Text

  // ---------------------------------------------------------------- slugify

  /** `toLowerCase`, on ASCII letters only. */
  function LowerAscii(s: string): (r: string)
    ensures |r| == |s|
    ensures forall i | 0 <= i < |s| :: r[i] == LowerChar(s[i])
  {
    if s == [] then [] else [LowerChar(s[0])] + LowerAscii(s[1..])
  }

  /** `[a-z0-9]` */
  predicate IsSlugChar(c: char) {
    IsLower(c) || IsDigit(c)
  }

  /** Only slug characters and '-'. */
  predicate SlugAlphabet(s: string) {
    forall i | 0 <= i < |s| :: IsSlugChar(s[i]) || s[i] == '-'
  }

  /** No two neighbouring dashes. */
  ghost predicate NoDoubleDash(s: string) {
    forall i, j | 0 <= i < j < |s| && j == i + 1 :: s[i] != '-' || s[j] != '-'
  }

  /** What `slugify` promises of its result. */
  ghost predicate IsSlug(s: string) {
    SlugAlphabet(s) && NoDoubleDash(s) && (s == [] || (s[0] != '-' && s[|s| - 1] != '-'))
  }

  /**
   * `replace(/[^a-z0-9]+/g, '-')`: every maximal run of other characters
   * becomes one '-', written where the run ends.
   */
  function Collapse(s: string): (r: string)
    ensures SlugAlphabet(r) && NoDoubleDash(r)
    ensures s != [] && IsSlugChar(s[0]) ==> r != [] && r[0] == s[0]
    ensures s != [] && !IsSlugChar(s[0]) ==> r != [] && r[0] == '-'
  {
    if s == [] then []
    else if IsSlugChar(s[0]) then [s[0]] + Collapse(s[1..])
    else if |s| > 1 && !IsSlugChar(s[1]) then Collapse(s[1..])
    else "-" + Collapse(s[1..])
  }

  /** The `^-+` alternative: drops the leading run of dashes. */
  function DropLeadingDashes(s: string): (r: string)
    ensures |r| <= |s| && r == s[|s| - |r|..]
    ensures r == [] || r[0] != '-'
    ensures forall i | 0 <= i < |s| - |r| :: s[i] == '-'
  {
    if s != [] && s[0] == '-' then DropLeadingDashes(s[1..]) else s
  }

  /** The `-+$` alternative: drops the trailing run of dashes. */
  function DropTrailingDashes(s: string): (r: string)
    ensures |r| <= |s| && r == s[..|r|]
    ensures r == [] || r[|r| - 1] != '-'
    ensures forall i | |r| <= i < |s| :: s[i] == '-'
  {
    if s != [] && s[|s| - 1] == '-' then DropTrailingDashes(s[..|s| - 1]) else s
  }

  /**
   * `replace(/^-+|-+$/g, '')`. A string made only of dashes is consumed whole by
   * the first alternative; otherwise the two runs are disjoint.
   */
  function TrimDashes(s: string): (r: string)
    ensures r == [] || (r[0] != '-' && r[|r| - 1] != '-')
  {
    var u := DropLeadingDashes(s);
    var r := DropTrailingDashes(u);
    assert r != [] ==> r[0] == u[0];
    r
  }

  /** A prefix `r` of a suffix `u` of `s`, with dashes around it, is a piece of `s` with dashes around it. */
  lemma DashFramedPiece(s: string, u: string, r: string) returns (k: nat)
    requires |u| <= |s| && u == s[|s| - |u|..] && forall i | 0 <= i < |s| - |u| :: s[i] == '-'
    requires |r| <= |u| && r == u[..|r|] && forall i | |r| <= i < |u| :: u[i] == '-'
    ensures k + |r| <= |s| && r == s[k..k + |r|]
    ensures forall i | 0 <= i < k :: s[i] == '-'
    ensures forall i | k + |r| <= i < |s| :: s[i] == '-'
  {
    k := |s| - |u|;
    assert s[k..][..|r|] == s[k..k + |r|];
    forall i | k + |r| <= i < |s|
      ensures s[i] == '-'
    {
      assert s[i] == u[i - k];
    }
  }

  /** `TrimDashes` keeps a middle piece of its input and drops only dashes around it. */
  lemma TrimDashesParts(s: string) returns (k: nat)
    ensures k + |TrimDashes(s)| <= |s|
    ensures TrimDashes(s) == s[k..k + |TrimDashes(s)|]
    ensures forall i | 0 <= i < k :: s[i] == '-'
    ensures forall i | k + |TrimDashes(s)| <= i < |s| :: s[i] == '-'
  {
    k := DashFramedPiece(s, DropLeadingDashes(s), DropTrailingDashes(DropLeadingDashes(s)));
  }

  /** A piece of a string keeps its alphabet and its lack of double dashes. */
  lemma SliceKeepsShape(s: string, i: nat, j: nat)
    requires i <= j <= |s|
    requires SlugAlphabet(s) && NoDoubleDash(s)
    ensures SlugAlphabet(s[i..j]) && NoDoubleDash(s[i..j])
  {
    var t := s[i..j];
    forall m, n | 0 <= m < n < |t| && n == m + 1
      ensures t[m] != '-' || t[n] != '-'
    {
      assert t[m] == s[i + m] && t[n] == s[i + n];
    }
  }

  lemma TrimDashesKeepsShape(s: string)
    requires SlugAlphabet(s) && NoDoubleDash(s)
    ensures SlugAlphabet(TrimDashes(s)) && NoDoubleDash(TrimDashes(s))
  {
    var k := TrimDashesParts(s);
    SliceKeepsShape(s, k, k + |TrimDashes(s)|);
  }

  /** `slugify` */
  function Slugify(s: string): (r: string)
    ensures IsSlug(r)
    ensures s == [] ==> r == []
  {
    var c := Collapse(LowerAscii(s));
    TrimDashesKeepsShape(c);
    TrimDashes(c)
  }

  /** A run of separators followed by a slug character becomes exactly one '-'. */
  lemma {:induction false} CollapseRun(x: string, b: string)
    requires x != [] && forall i | 0 <= i < |x| :: !IsSlugChar(x[i])
    requires b != [] && IsSlugChar(b[0])
    ensures Collapse(x + b) == "-" + Collapse(b)
  {
    var s := x + b;
    if |x| == 1 {
      assert s[1..] == b;
    } else {
      assert s[1..] == x[1..] + b;
      assert s[1] == x[1];
      CollapseRun(x[1..], b);
    }
  }

  /** A run of separators that reaches the end of the string also becomes one '-'. */
  lemma {:induction false} CollapseSeparators(x: string)
    requires x != [] && forall i | 0 <= i < |x| :: !IsSlugChar(x[i])
    ensures Collapse(x) == "-"
  {
    if |x| > 1 {
      CollapseSeparators(x[1..]);
    }
  }

  /**
   * Collapsing works piece by piece across a slug character: the runs before it
   * and the runs after it are collapsed independently.
   */
  lemma {:induction false} CollapseAppend(a: string, t: string)
    requires a != [] && IsSlugChar(a[|a| - 1])
    ensures Collapse(a + t) == Collapse(a) + Collapse(t)
  {
    var s := a + t;
    if |a| == 1 {
      assert s[1..] == t;
      assert Collapse(a) == [a[0]] + Collapse([]);
    } else {
      assert s[1..] == a[1..] + t;
      assert s[1] == a[1];
      CollapseAppend(a[1..], t);
      var ra, rt := Collapse(a[1..]), Collapse(t);
      if IsSlugChar(a[0]) {
        assert [a[0]] + (ra + rt) == [a[0]] + ra + rt;
      } else if !IsSlugChar(a[1]) {
      } else {
        assert "-" + (ra + rt) == "-" + ra + rt;
      }
    }
  }

  /**
   * A maximal run of separators between two slug characters becomes exactly
   * one '-' at its place.
   */
  lemma CollapseSeparates(a: string, x: string, b: string)
    requires a != [] && IsSlugChar(a[|a| - 1])
    requires x != [] && forall i | 0 <= i < |x| :: !IsSlugChar(x[i])
    requires b != [] && IsSlugChar(b[0])
    ensures Collapse(a + x + b) == Collapse(a) + "-" + Collapse(b)
  {
    Regroup(a, x, b);
    CollapseRun(x, b);
    CollapseAppend(a, x + b);
    Regroup(Collapse(a), "-", Collapse(b));
  }

  /**
   * Regrouping a concatenation of three. Stated on its own because the same step,
   * written inline on longer terms, leaves the solver too much to search.
   */
  lemma Regroup(p: string, q: string, r: string)
    ensures p + q + r == p + (q + r)
  {
  }

  /** Collapsing keeps a final slug character last. */
  lemma {:induction false} CollapseLast(a: string)
    requires a != [] && IsSlugChar(a[|a| - 1])
    ensures Collapse(a) != [] && Collapse(a)[|Collapse(a)| - 1] == a[|a| - 1]
  {
    if |a| > 1 {
      CollapseLast(a[1..]);
    } else {
      assert Collapse(a) == [a[0]] + Collapse([]);
    }
  }

  /** The letters and digits of `s`, in order. */
  function Letters(s: string): (r: string)
    ensures |r| <= |s|
  {
    if s == [] then [] else (if IsSlugChar(s[0]) then [s[0]] else []) + Letters(s[1..])
  }

  /** `s` with every '-' deleted. */
  function RemoveDashes(s: string): (r: string)
    ensures |r| <= |s|
  {
    if s == [] then [] else (if s[0] != '-' then [s[0]] else []) + RemoveDashes(s[1..])
  }

  lemma {:induction false} LettersAppend(a: string, b: string)
    ensures Letters(a + b) == Letters(a) + Letters(b)
  {
    if a != [] {
      assert (a + b)[1..] == a[1..] + b;
      LettersAppend(a[1..], b);
    } else {
      assert a + b == b;
    }
  }

  lemma {:induction false} LettersOfDashes(s: string)
    requires forall i | 0 <= i < |s| :: s[i] == '-'
    ensures Letters(s) == []
  {
    if s != [] {
      LettersOfDashes(s[1..]);
    }
  }

  /** On the slug alphabet, deleting the dashes leaves exactly the letters and digits. */
  lemma {:induction false} RemoveDashesOnAlphabet(s: string)
    requires SlugAlphabet(s)
    ensures RemoveDashes(s) == Letters(s)
  {
    if s != [] {
      RemoveDashesOnAlphabet(s[1..]);
    }
  }

  /** Collapsing runs removes no letter or digit and adds none. */
  lemma {:induction false} CollapseLetters(s: string)
    ensures Letters(Collapse(s)) == Letters(s)
  {
    if s != [] {
      CollapseLetters(s[1..]);
      var rest := Collapse(s[1..]);
      if IsSlugChar(s[0]) {
        assert ([s[0]] + rest)[1..] == rest;
      } else if |s| > 1 && !IsSlugChar(s[1]) {
      } else {
        assert ("-" + rest)[1..] == rest;
      }
    }
  }

  /** A piece of `s` with only dashes around it has the letters and digits of `s`. */
  lemma LettersOfFramed(s: string, k: nat, r: string)
    requires k + |r| <= |s| && r == s[k..k + |r|]
    requires forall i | 0 <= i < k :: s[i] == '-'
    requires forall i | k + |r| <= i < |s| :: s[i] == '-'
    ensures Letters(r) == Letters(s)
  {
    var head, mid, tail := s[..k], s[k..], s[k + |r|..];
    assert s == head + mid;
    assert mid == r + tail by {
      assert mid[..|r|] == r && mid[|r|..] == tail;
    }
    LettersAppend(head, mid);
    LettersAppend(r, tail);
    LettersOfDashes(head);
    LettersOfDashes(tail);
  }

  lemma TrimDashesLetters(s: string)
    ensures Letters(TrimDashes(s)) == Letters(s)
  {
    var k := TrimDashesParts(s);
    LettersOfFramed(s, k, TrimDashes(s));
  }

  /**
   * Deleting the dashes of a slug gives back the letters and digits of the
   * lower-cased input, in order: `slugify` only lowers, and turns the rest into
   * separators.
   */
  lemma SlugifyLetters(s: string)
    ensures RemoveDashes(Slugify(s)) == Letters(LowerAscii(s))
  {
    var c := Collapse(LowerAscii(s));
    RemoveDashesOnAlphabet(Slugify(s));
    TrimDashesLetters(c);
    CollapseLetters(LowerAscii(s));
  }

  /** The slug is empty exactly when the input has no ASCII letter or digit. */
  lemma SlugifyEmpty(s: string)
    ensures Slugify(s) == [] <==> Letters(LowerAscii(s)) == []
  {
    SlugifyLetters(s);
    var r := Slugify(s);
    if r != [] {
      assert IsSlugChar(r[0]);
      assert RemoveDashes(r)[0] == r[0];
    }
  }

  lemma LowerAsciiOnAlphabet(s: string)
    requires SlugAlphabet(s)
    ensures LowerAscii(s) == s
  {
  }

  lemma {:induction false} CollapseOnSlug(s: string)
    requires SlugAlphabet(s) && NoDoubleDash(s)
    ensures Collapse(s) == s
  {
    if s != [] {
      SliceKeepsShape(s, 1, |s|);
      CollapseOnSlug(s[1..]);
      if !IsSlugChar(s[0]) && |s| > 1 {
        assert s[0] == '-' && IsSlugChar(s[1]);
      }
    }
  }

  /** A slug is exactly a string that `slugify` leaves unchanged. */
  lemma SlugifyFixed(w: string)
    ensures Slugify(w) == w <==> IsSlug(w)
  {
    if IsSlug(w) {
      LowerAsciiOnAlphabet(w);
      CollapseOnSlug(w);
      assert DropLeadingDashes(w) == w;
      assert DropTrailingDashes(w) == w;
    }
  }

  /** `slugify` is idempotent. */
  lemma SlugifyIdempotent(s: string)
    ensures Slugify(Slugify(s)) == Slugify(s)
  {
    SlugifyFixed(Slugify(s));
  }

  lemma LowerAsciiAppend(a: string, b: string)
    ensures LowerAscii(a + b) == LowerAscii(a) + LowerAscii(b)
  {
    var l, la, lb := LowerAscii(a + b), LowerAscii(a), LowerAscii(b);
    forall i | 0 <= i < |l|
      ensures l[i] == (la + lb)[i]
    {
      if i < |a| {
        assert (a + b)[i] == a[i];
      } else {
        assert (a + b)[i] == b[i - |a|];
      }
    }
  }

  /** Leading dashes stop at the first other character, so what follows it is kept. */
  lemma {:induction false} DropLeadingBefore(u: string, v: string)
    requires u != [] && u[|u| - 1] != '-'
    ensures DropLeadingDashes(u + v) == DropLeadingDashes(u) + v
  {
    if u[0] == '-' {
      assert (u + v)[1..] == u[1..] + v;
      DropLeadingBefore(u[1..], v);
    }
  }

  /** Trailing dashes stop at the last other character, so what precedes it is kept. */
  lemma {:induction false} DropTrailingAfter(u: string, v: string)
    requires v != [] && v[0] != '-'
    ensures DropTrailingDashes(u + v) == u + DropTrailingDashes(v)
  {
    if v[|v| - 1] == '-' {
      assert (u + v)[..|u + v| - 1] == u + v[..|v| - 1];
      DropTrailingAfter(u, v[..|v| - 1]);
    }
  }

  /** The leading dashes of `c1 + "-" + c2` are those of `c1`, when `c1` ends in another character. */
  lemma DropLeadingFramed(c1: string, c2: string)
    requires c1 != [] && c1[|c1| - 1] != '-'
    ensures DropLeadingDashes(c1 + "-" + c2) == DropLeadingDashes(c1) + "-" + c2
  {
    Regroup(c1, "-", c2);
    DropLeadingBefore(c1, "-" + c2);
    Regroup(DropLeadingDashes(c1), "-", c2);
  }

  /** The trailing dashes of `d + "-" + c2` are those of `c2`, when `c2` starts with another character. */
  lemma DropTrailingFramed(d: string, c2: string)
    requires c2 != [] && c2[0] != '-'
    ensures DropTrailingDashes(d + "-" + c2) == d + "-" + DropTrailingDashes(c2)
  {
    DropTrailingAfter(d + "-", c2);
  }

  /** Removing the dashes at both ends of `c1 + "-" + c2` keeps that inner '-'. */
  lemma TrimDashesAround(c1: string, c2: string)
    requires c1 != [] && c1[|c1| - 1] != '-'
    requires c2 != [] && c2[0] != '-'
    ensures TrimDashes(c1 + "-" + c2) == TrimDashes(c1) + "-" + TrimDashes(c2)
  {
    var d1 := DropLeadingDashes(c1);
    DropLeadingFramed(c1, c2);
    DropTrailingFramed(d1, c2);
    assert d1 != [] && d1[|d1| - 1] == c1[|c1| - 1];
    assert TrimDashes(c1) == d1;
    assert TrimDashes(c2) == DropTrailingDashes(c2);
  }

  /**
   * Word breaks become single dashes: the maximal run of separators between a
   * letter or digit of `a` and one of `b` turns into exactly one '-', and the two
   * sides are slugged independently.
   */
  lemma SlugifySeparates(a: string, x: string, b: string)
    requires a != [] && IsSlugChar(LowerChar(a[|a| - 1]))
    requires x != [] && forall i | 0 <= i < |x| :: !IsSlugChar(LowerChar(x[i]))
    requires b != [] && IsSlugChar(LowerChar(b[0]))
    ensures Slugify(a + x + b) == Slugify(a) + "-" + Slugify(b)
  {
    var la, lx, lb := LowerAscii(a), LowerAscii(x), LowerAscii(b);
    LowerAsciiAppend(a, x);
    LowerAsciiAppend(a + x, b);
    assert LowerAscii(a + x + b) == la + lx + lb;
    CollapseSeparates(la, lx, lb);
    var c1, c2 := Collapse(la), Collapse(lb);
    CollapseLast(la);
    TrimDashesAround(c1, c2);
  }

  /** A word of letters and digits alone lowers to a slug with no dash at all. */
  lemma LowerWordIsSlug(w: string)
    requires forall i | 0 <= i < |w| :: IsSlugChar(LowerChar(w[i]))
    ensures IsSlug(LowerAscii(w))
  {
    var l := LowerAscii(w);
    forall i | 0 <= i < |l|
      ensures IsSlugChar(l[i]) && l[i] != '-'
    {
      assert l[i] == LowerChar(w[i]);
    }
  }

  /** A word of letters and digits alone is slugged to its lower-case form, with no dash inside. */
  lemma SlugifyWord(w: string)
    requires forall i | 0 <= i < |w| :: IsSlugChar(LowerChar(w[i]))
    ensures Slugify(w) == LowerAscii(w)
  {
    var l := LowerAscii(w);
    LowerWordIsSlug(w);
    LowerAsciiOnAlphabet(l);
    SlugifyFixed(l);
  }

  /** Dashes in front of a character that is not one are all dropped. */
  lemma {:induction false} DropLeadingRun(p: string, v: string)
    requires forall i | 0 <= i < |p| :: p[i] == '-'
    requires v != [] && v[0] != '-'
    ensures DropLeadingDashes(p + v) == v
  {
    if p != [] {
      assert (p + v)[1..] == p[1..] + v;
      DropLeadingRun(p[1..], v);
    }
  }

  /** Dashes after a character that is not one are all dropped. */
  lemma {:induction false} DropTrailingRun(u: string, q: string)
    requires u != [] && u[|u| - 1] != '-'
    requires forall i | 0 <= i < |q| :: q[i] == '-'
    ensures DropTrailingDashes(u + q) == u
  {
    if q != [] {
      assert (u + q)[..|u + q| - 1] == u + q[..|q| - 1];
      DropTrailingRun(u, q[..|q| - 1]);
    }
  }

  /** Removing the dashes at both ends takes away exactly the runs of dashes around `m`. */
  lemma TrimDashesFramedBy(p: string, m: string, q: string)
    requires forall i | 0 <= i < |p| :: p[i] == '-'
    requires m != [] && m[0] != '-' && m[|m| - 1] != '-'
    requires forall i | 0 <= i < |q| :: q[i] == '-'
    ensures TrimDashes(p + m + q) == m
  {
    Regroup(p, m, q);
    DropLeadingRun(p, m + q);
    DropTrailingRun(m, q);
  }

  /** Collapsing `lx + t + ly`: separators on either side become at most one '-' each. */
  lemma CollapseFramedBy(lx: string, t: string, ly: string)
    requires forall i | 0 <= i < |lx| :: !IsSlugChar(lx[i])
    requires t != [] && IsSlugChar(t[0]) && IsSlugChar(t[|t| - 1])
    requires forall i | 0 <= i < |ly| :: !IsSlugChar(ly[i])
    ensures Collapse(lx + t + ly) ==
      (if lx == [] then "" else "-") + Collapse(t) + (if ly == [] then "" else "-")
  {
    var pre: string, post: string := if lx == [] then "" else "-", if ly == [] then "" else "-";
    var ct := Collapse(t);
    CollapseAppend(t, ly);
    if ly == [] {
      assert t + ly == t;
    } else {
      CollapseSeparators(ly);
    }
    assert Collapse(t + ly) == ct + post;
    Regroup(lx, t, ly);
    if lx == [] {
      assert lx + (t + ly) == t + ly;
    } else {
      CollapseRun(lx, t + ly);
    }
    Regroup(pre, ct, post);
  }

  /**
   * Separators before the first and after the last letter or digit leave no
   * trace: the slug of the text is that of its core `s`.
   */
  lemma SlugifyEnds(x: string, s: string, y: string)
    requires forall i | 0 <= i < |x| :: !IsSlugChar(LowerChar(x[i]))
    requires s != [] && IsSlugChar(LowerChar(s[0])) && IsSlugChar(LowerChar(s[|s| - 1]))
    requires forall i | 0 <= i < |y| :: !IsSlugChar(LowerChar(y[i]))
    ensures Slugify(x + s + y) == Slugify(s)
  {
    var lx, ls, ly := LowerAscii(x), LowerAscii(s), LowerAscii(y);
    LowerAsciiAppend(x, s);
    LowerAsciiAppend(x + s, y);
    assert LowerAscii(x + s + y) == lx + ls + ly;
    CollapseFramedBy(lx, ls, ly);
    var cs := Collapse(ls);
    CollapseLast(ls);
    TrimDashesFramedBy(if lx == [] then "" else "-", cs, if ly == [] then "" else "-");
    assert DropLeadingDashes(cs) == cs;
    assert DropTrailingDashes(cs) == cs;
  }

  // ---------------------------------------------------------------- cleanLineItem

  /** The bullet glyphs `[•*\-–—]`. */
  predicate IsBullet(c: char) {
    c == '\U{2022}' || c == '*' || c == '-' || c == '\U{2013}' || c == '\U{2014}'
  }

  predicate StartsWithBullet(s: string) {
    s != [] && IsBullet(s[0])
  }

  /** `replace(/^[•*\-–—]\s*\/, '')`: one bullet and the whitespace after it. */
  function StripBullet(s: string): (r: string)
    ensures |r| <= |s| && r == s[|s| - |r|..]
    ensures StartsWithBullet(s) ==>
      1 <= |s| - |r| && AllWhitespace(s[1..|s| - |r|]) && (r == [] || !IsWhitespace(r[0]))
    ensures !StartsWithBullet(s) ==> r == s
  {
    if StartsWithBullet(s) then
      var t := s[1..];
      TrimStartParts(t);
      assert t[..|t| - |TrimStart(t)|] == s[1..|s| - |TrimStart(t)|];
      TrimStart(t)
    else s
  }

  /** Starts and ends with the same straight quote; a lone quote counts, as it does for `startsWith`/`endsWith`. */
  predicate IsQuoted(s: string) {
    s != [] && ((s[0] == '"' && s[|s| - 1] == '"') || (s[0] == '\'' && s[|s| - 1] == '\''))
  }

  /**
   * The quote test and `slice(1, -1)`, which gives "" on a one-character string.
   * Putting the matching quote back on both ends of the result gives the input.
   */
  function StripQuotes(s: string): (r: string)
    ensures IsQuoted(s) && |s| >= 2 ==> |r| == |s| - 2 && s == [s[0]] + r + [s[0]]
    ensures IsQuoted(s) && |s| == 1 ==> r == []
    ensures !IsQuoted(s) ==> r == s
  {
    if IsQuoted(s) then
      if |s| >= 2 then
        assert s == [s[0]] + s[1..|s| - 1] + [s[|s| - 1]];
        s[1..|s| - 1]
      else []
    else s
  }

  /** `^\d+[.)]`: one or more digits, then '.' or ')'. */
  predicate StartsWithNumbering(s: string) {
    var t := TrimDigits(s);
    |t| < |s| && t != [] && (t[0] == '.' || t[0] == ')')
  }

  /** `replace(/^\d+[.)]\s*\/, '')`: one numeric marker and the whitespace after it. */
  function StripNumbering(s: string): (r: string)
    ensures |r| <= |s| && r == s[|s| - |r|..]
    ensures StartsWithNumbering(s) ==>
      var d := |s| - |TrimDigits(s)|;
      1 <= d < |s| - |r| && (forall i | 0 <= i < d :: IsDigit(s[i])) && (s[d] == '.' || s[d] == ')')
      && AllWhitespace(s[d + 1..|s| - |r|]) && (r == [] || !IsWhitespace(r[0]))
    ensures !StartsWithNumbering(s) ==> r == s
  {
    if StartsWithNumbering(s) then
      var t := TrimDigits(s);
      TrimDigitsParts(s);
      var d := |s| - |t|;
      var u := t[1..];
      assert u == s[d + 1..];
      TrimStartParts(u);
      assert u[..|u| - |TrimStart(u)|] == s[d + 1..|s| - |TrimStart(u)|];
      TrimStart(u)
    else s
  }

  /** `cleanLineItem`: trim, one bullet, one quote pair, one numeric marker, trim. */
  function CleanLineItem(line: string): (r: string)
    ensures IsTrimmed(r)
    ensures |r| <= |line|
  {
    Trim(StripNumbering(StripQuotes(StripBullet(Trim(line)))))
  }

  /** `t` reads, character for character, as `line` from index `n` on. */
  predicate PieceAt(t: string, line: string, n: nat) {
    n + |t| <= |line| && forall j | 0 <= j < |t| :: t[j] == line[n + j]
  }

  /** Stripping a bullet from a piece of `line` leaves a piece of `line`. */
  lemma BulletKeepsPiece(line: string, u: string, o: nat) returns (n: nat)
    requires PieceAt(u, line, o)
    ensures PieceAt(StripBullet(u), line, n)
  {
    var k := |u| - |StripBullet(u)|;
    assert StripBullet(u) == u[k..];
    n := o + k;
    forall j | 0 <= j < |StripBullet(u)|
      ensures StripBullet(u)[j] == line[n + j]
    {
      assert StripBullet(u)[j] == u[k + j];
    }
  }

  lemma QuotesKeepPiece(line: string, u: string, o: nat) returns (n: nat)
    requires PieceAt(u, line, o)
    ensures PieceAt(StripQuotes(u), line, n)
  {
    var k := if IsQuoted(u) && |u| >= 2 then 1 else 0;
    n := o + k;
    forall j | 0 <= j < |StripQuotes(u)|
      ensures StripQuotes(u)[j] == line[n + j]
    {
      assert StripQuotes(u)[j] == u[k + j];
    }
  }

  lemma NumberingKeepsPiece(line: string, u: string, o: nat) returns (n: nat)
    requires PieceAt(u, line, o)
    ensures PieceAt(StripNumbering(u), line, n)
  {
    var k := |u| - |StripNumbering(u)|;
    assert StripNumbering(u) == u[k..];
    n := o + k;
    forall j | 0 <= j < |StripNumbering(u)|
      ensures StripNumbering(u)[j] == line[n + j]
    {
      assert StripNumbering(u)[j] == u[k + j];
    }
  }

  lemma TrimKeepsPiece(line: string, u: string, o: nat) returns (n: nat)
    requires PieceAt(u, line, o)
    ensures PieceAt(Trim(u), line, n)
  {
    var k := TrimParts(u);
    n := o + k;
    var t := Trim(u);
    forall j | 0 <= j < |t|
      ensures t[j] == line[n + j]
    {
      assert t[j] == u[k + j];
      assert u[k + j] == line[o + (k + j)];
    }
  }

  /** A pointwise piece is the slice of `line` that starts at `n`. */
  lemma PieceSlice(t: string, line: string, n: nat)
    requires PieceAt(t, line, n)
    ensures t == line[n..n + |t|]
  {
  }

  lemma TrimIsPiece(line: string) returns (n: nat)
    ensures PieceAt(Trim(line), line, n)
  {
    n := TrimParts(line);
  }

  lemma AfterNumberingPiece(line: string, u: string, o: nat) returns (n: nat)
    requires PieceAt(u, line, o)
    ensures PieceAt(Trim(StripNumbering(u)), line, n)
  {
    var m := NumberingKeepsPiece(line, u, o);
    n := TrimKeepsPiece(line, StripNumbering(u), m);
  }

  lemma AfterQuotesPiece(line: string, u: string, o: nat) returns (n: nat)
    requires PieceAt(u, line, o)
    ensures PieceAt(Trim(StripNumbering(StripQuotes(u))), line, n)
  {
    var m := QuotesKeepPiece(line, u, o);
    n := AfterNumberingPiece(line, StripQuotes(u), m);
  }

  lemma AfterBulletPiece(line: string, u: string, o: nat) returns (n: nat)
    requires PieceAt(u, line, o)
    ensures PieceAt(Trim(StripNumbering(StripQuotes(StripBullet(u)))), line, n)
  {
    var m := BulletKeepsPiece(line, u, o);
    n := AfterQuotesPiece(line, StripBullet(u), m);
  }

  /** The five steps of `cleanLineItem`, applied to `line`, give a piece of it. */
  lemma StepsPiece(line: string) returns (n: nat)
    ensures PieceAt(Trim(StripNumbering(StripQuotes(StripBullet(Trim(line))))), line, n)
  {
    var o := TrimIsPiece(line);
    n := AfterBulletPiece(line, Trim(line), o);
  }

  lemma CleanPieceSlice(line: string, n: nat)
    requires PieceAt(Trim(StripNumbering(StripQuotes(StripBullet(Trim(line))))), line, n)
    ensures n + |CleanLineItem(line)| <= |line| && CleanLineItem(line) == line[n..n + |CleanLineItem(line)|]
  {
    PieceSlice(CleanLineItem(line), line, n);
  }

  /** The cleaned item is a contiguous piece `line[i..i + |CleanLineItem(line)|]` of the line. */
  lemma CleanLineItemPiece(line: string) returns (i: nat)
    ensures i + |CleanLineItem(line)| <= |line| && CleanLineItem(line) == line[i..i + |CleanLineItem(line)|]
  {
    i := StepsPiece(line);
    CleanPieceSlice(line, i);
  }

  /**
   * A line comes back unchanged exactly when it is already trimmed, starts with
   * no bullet, is not wrapped in a quote pair and starts with no numeric marker.
   */
  lemma CleanLineItemUnchanged(line: string)
    ensures CleanLineItem(line) == line <==>
      IsTrimmed(line) && !StartsWithBullet(line) && !IsQuoted(line) && !StartsWithNumbering(line)
  {
    TrimUnchanged(line);
    var trimmed := Trim(line);
    var unbulleted := StripBullet(trimmed);
    var unquoted := StripQuotes(unbulleted);
    assert IsQuoted(unbulleted) ==> |unquoted| < |unbulleted|;
    var unnumbered := StripNumbering(unquoted);
    TrimUnchanged(unnumbered);
    if IsTrimmed(line) && !StartsWithBullet(line) && !IsQuoted(line) && !StartsWithNumbering(line) {
      assert unnumbered == line;
    }
  }

  /** A line that trims to a lone quote is cleaned to "". */
  lemma CleanLoneQuote(line: string)
    requires Trim(line) == "\"" || Trim(line) == "'"
    ensures CleanLineItem(line) == ""
  {
    assert !StartsWithBullet(Trim(line)) && IsQuoted(Trim(line));
    assert StartsWithNumbering([]) == false;
  }
}

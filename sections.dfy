/**
 * The shape shared by the two section walks of src/parser.ts: skip lines up
 * to a header, then keep the trims of selected lines until a line ends the
 * section. A walk is a fold of one step over the lines; it is proved equal
 * to an index-based description (first header, first end after it, the lines
 * kept in between), with the classifiers as parameters.
 */
module Sections {
  import opened Text

  /** Where a section walk stands: before its header, inside the section, or past its end. */
  datatype SectionState = Outside | Inside | Stopped

  /** The walk after some lines: its state and the items kept so far. */
  datatype Walk = Walk(state: SectionState, items: seq<string>)

  /** Index of the first line at or after `from` that satisfies `p`, or `|lines|`. */
  function FirstFrom(lines: seq<string>, from: nat, p: string -> bool): (k: nat)
    requires from <= |lines|
    ensures from <= k <= |lines|
    ensures forall j | from <= j < k :: !p(lines[j])
    ensures k < |lines| ==> p(lines[k])
    decreases |lines| - from
  {
    if from == |lines| || p(lines[from]) then from else FirstFrom(lines, from + 1, p)
  }

  /** Between `from` and the first hit, a line satisfies `p` exactly when it is the first hit. */
  lemma FirstFromHit(lines: seq<string>, from: nat, p: string -> bool, i: nat)
    requires from <= i < |lines| && i <= FirstFrom(lines, from, p)
    ensures p(lines[i]) <==> i == FirstFrom(lines, from, p)
  {
  }

  /** A line at or after `from` that satisfies `p` bounds the first hit. */
  lemma FirstFromHitBefore(lines: seq<string>, from: nat, p: string -> bool, j: nat)
    requires from <= j < |lines| && p(lines[j])
    ensures FirstFrom(lines, from, p) <= j
  {
  }

  /** `FirstFrom` is the only index with its two properties. */
  lemma FirstFromUnique(lines: seq<string>, from: nat, p: string -> bool, k: nat)
    requires from <= k <= |lines|
    requires forall j | from <= j < k :: !p(lines[j])
    requires k < |lines| ==> p(lines[k])
    ensures FirstFrom(lines, from, p) == k
  {
  }

  /** The trims of the lines of `seg` that `keep` selects, in order. */
  function Selected(seg: seq<string>, keep: string -> bool): (items: seq<string>)
    ensures |items| <= |seg|
  {
    if seg == [] then []
    else Selected(seg[..|seg| - 1], keep) + if keep(seg[|seg| - 1]) then [Trim(seg[|seg| - 1])] else []
  }

  /** Extending the window by one line adds that line's trim exactly when `keep` selects it. */
  lemma SelectedStep(lines: seq<string>, lo: nat, i: nat, keep: string -> bool)
    requires lo <= i < |lines|
    ensures Selected(lines[lo..i + 1], keep) == Selected(lines[lo..i], keep) + if keep(lines[i]) then [Trim(lines[i])] else []
  {
    assert lines[lo..i + 1][..i - lo] == lines[lo..i];
  }

  /** The indices of `seg` that `keep` selects, in order: where each item of `Selected` comes from. */
  function Positions(seg: seq<string>, keep: string -> bool): (ps: seq<nat>)
    ensures |ps| == |Selected(seg, keep)|
    ensures forall k | 0 <= k < |ps| :: ps[k] < |seg|
  {
    if seg == [] then []
    else Positions(seg[..|seg| - 1], keep) + if keep(seg[|seg| - 1]) then [|seg| - 1] else []
  }

  /** Item `k` of the selection is the trim of line `Positions(..)[k]`, and that line is kept. */
  lemma {:induction false} PositionsKept(seg: seq<string>, keep: string -> bool)
    ensures forall k | 0 <= k < |Positions(seg, keep)| ::
      keep(seg[Positions(seg, keep)[k]]) && Selected(seg, keep)[k] == Trim(seg[Positions(seg, keep)[k]])
  {
    if seg != [] {
      var n := |seg| - 1;
      PositionsKept(seg[..n], keep);
      var qs := Positions(seg[..n], keep);
      forall k | 0 <= k < |qs|
        ensures seg[..n][qs[k]] == seg[qs[k]]
      {
      }
    }
  }

  /** The positions are strictly increasing, so the selection keeps document order. */
  lemma {:induction false} PositionsIncrease(seg: seq<string>, keep: string -> bool)
    ensures forall k, m | 0 <= k < m < |Positions(seg, keep)| :: Positions(seg, keep)[k] < Positions(seg, keep)[m]
  {
    if seg != [] {
      PositionsIncrease(seg[..|seg| - 1], keep);
    }
  }

  /** Every line that `keep` selects has its position listed: nothing kept is dropped. */
  lemma {:induction false} PositionsComplete(seg: seq<string>, keep: string -> bool)
    ensures forall j | 0 <= j < |seg| && keep(seg[j]) :: j in Positions(seg, keep)
  {
    if seg != [] {
      var n := |seg| - 1;
      PositionsComplete(seg[..n], keep);
      forall j | 0 <= j < n
        ensures seg[..n][j] == seg[j]
      {
      }
    }
  }

  /**
   * One line of a walk. A stopped walk ignores the rest; a header line (re-)enters
   * the section; inside, a line that ends the section stops the walk and a kept
   * line adds its trim.
   */
  function Step(w: Walk, line: string, isHeader: string -> bool, ends: string -> bool, keep: string -> bool): Walk {
    if w.state == Stopped then w
    else if isHeader(line) then Walk(Inside, w.items)
    else if w.state == Outside then w
    else if ends(line) then Walk(Stopped, w.items)
    else if keep(line) then Walk(Inside, w.items + [Trim(line)])
    else w
  }

  /** The walk over all of `lines`, from outside with nothing kept. */
  function WalkLines(lines: seq<string>, isHeader: string -> bool, ends: string -> bool, keep: string -> bool): Walk {
    if lines == [] then Walk(Outside, [])
    else Step(WalkLines(lines[..|lines| - 1], isHeader, ends, keep), lines[|lines| - 1], isHeader, ends, keep)
  }

  /**
   * The index-based description of a walk: `h` is the first header; with none the
   * walk never enters. Otherwise `e` is the first line after `h` that ends the
   * section, and the walk keeps the selected lines strictly between them.
   */
  function SectionSpec(lines: seq<string>, isHeader: string -> bool, ends: string -> bool, keep: string -> bool): Walk {
    var h := FirstFrom(lines, 0, isHeader);
    if h == |lines| then Walk(Outside, [])
    else
      var e := FirstFrom(lines, h + 1, ends);
      Walk(if e == |lines| then Inside else Stopped, Selected(lines[h + 1..e], keep))
  }

  /** The first hit in `lines` from the first hit in all but its last line. */
  lemma FirstFromLast(lines: seq<string>, from: nat, p: string -> bool)
    requires from < |lines|
    ensures var n := |lines| - 1; var k := FirstFrom(lines[..n], from, p);
      FirstFrom(lines, from, p) == if k < n then k else if p(lines[n]) then n else n + 1
  {
    var n := |lines| - 1;
    var init := lines[..n];
    var k := FirstFrom(init, from, p);
    forall j | from <= j < k
      ensures !p(lines[j])
    {
      assert init[j] == lines[j];
    }
    if k < n {
      assert init[k] == lines[k];
      FirstFromUnique(lines, from, p, k);
    } else if p(lines[n]) {
      FirstFromUnique(lines, from, p, n);
    } else {
      FirstFromUnique(lines, from, p, n + 1);
    }
  }

  /** One more line of the walk is one more step. */
  lemma WalkLinesNext(lines: seq<string>, i: nat, isHeader: string -> bool, ends: string -> bool, keep: string -> bool)
    requires i < |lines|
    ensures WalkLines(lines[..i + 1], isHeader, ends, keep) == Step(WalkLines(lines[..i], isHeader, ends, keep), lines[i], isHeader, ends, keep)
  {
    assert lines[..i + 1][..i] == lines[..i];
  }

  /** Once stopped, a walk stays as it is to the end of the lines. */
  lemma {:induction false} WalkStaysStopped(lines: seq<string>, i: nat, isHeader: string -> bool, ends: string -> bool, keep: string -> bool)
    requires i <= |lines|
    requires WalkLines(lines[..i], isHeader, ends, keep).state == Stopped
    ensures WalkLines(lines, isHeader, ends, keep) == WalkLines(lines[..i], isHeader, ends, keep)
    decreases |lines|
  {
    if i == |lines| {
      assert lines[..i] == lines;
    } else {
      var n := |lines| - 1;
      assert lines[..n][..i] == lines[..i];
      WalkStaysStopped(lines[..n], i, isHeader, ends, keep);
    }
  }

  /** Adding a line to lines with no header yet: a header line enters the section, any other line changes nothing. */
  lemma SpecStepBeforeHeader(lines: seq<string>, isHeader: string -> bool, ends: string -> bool, keep: string -> bool)
    requires lines != [] && FirstFrom(lines[..|lines| - 1], 0, isHeader) == |lines| - 1
    ensures SectionSpec(lines, isHeader, ends, keep) == Step(SectionSpec(lines[..|lines| - 1], isHeader, ends, keep), lines[|lines| - 1], isHeader, ends, keep)
  {
    FirstFromLast(lines, 0, isHeader);
  }

  /** Adding a line after the header: the description moves exactly as one step of the walk. */
  lemma SpecStepAfterHeader(lines: seq<string>, isHeader: string -> bool, ends: string -> bool, keep: string -> bool)
    requires forall l :: isHeader(l) ==> !ends(l) && !keep(l)
    requires lines != [] && FirstFrom(lines[..|lines| - 1], 0, isHeader) < |lines| - 1
    ensures SectionSpec(lines, isHeader, ends, keep) == Step(SectionSpec(lines[..|lines| - 1], isHeader, ends, keep), lines[|lines| - 1], isHeader, ends, keep)
  {
    var n := |lines| - 1;
    var init := lines[..n];
    FirstFromLast(lines, 0, isHeader);
    var h := FirstFrom(init, 0, isHeader);
    assert FirstFrom(lines, 0, isHeader) == h;
    FirstFromLast(lines, h + 1, ends);
    var e := FirstFrom(init, h + 1, ends);
    if e < n {
      assert FirstFrom(lines, h + 1, ends) == e;
      PrefixSlice(lines, n, h + 1, e);
      SpecFromBounds(init, h, e, isHeader, ends, keep);
      SpecFromBounds(lines, h, e, isHeader, ends, keep);
    } else {
      SpecStepInside(lines, h, isHeader, ends, keep);
    }
  }

  /** A slice of a prefix is the same slice of the whole. */
  lemma PrefixSlice(lines: seq<string>, n: nat, lo: nat, hi: nat)
    requires lo <= hi <= n <= |lines|
    ensures lines[..n][lo..hi] == lines[lo..hi]
  {
  }

  /** One step from inside the section, on a line that is no header or is neither an end nor kept. */
  lemma StepFromInside(items: seq<string>, line: string, isHeader: string -> bool, ends: string -> bool, keep: string -> bool)
    requires isHeader(line) ==> !ends(line) && !keep(line)
    ensures Step(Walk(Inside, items), line, isHeader, ends, keep) ==
      if ends(line) then Walk(Stopped, items) else Walk(Inside, items + if keep(line) then [Trim(line)] else [])
  {
  }

  /** The description once the header `h` and the end `e` are known. */
  lemma SpecFromBounds(lines: seq<string>, h: nat, e: nat, isHeader: string -> bool, ends: string -> bool, keep: string -> bool)
    requires h < |lines| && FirstFrom(lines, 0, isHeader) == h && FirstFrom(lines, h + 1, ends) == e
    ensures SectionSpec(lines, isHeader, ends, keep) == Walk(if e == |lines| then Inside else Stopped, Selected(lines[h + 1..e], keep))
  {
  }

  /** The step inside the section: the last line ends it, is kept, or is passed over. */
  lemma SpecStepInside(lines: seq<string>, h: nat, isHeader: string -> bool, ends: string -> bool, keep: string -> bool)
    requires forall l :: isHeader(l) ==> !ends(l) && !keep(l)
    requires lines != [] && h < |lines| - 1
    requires FirstFrom(lines, 0, isHeader) == h
    requires FirstFrom(lines[..|lines| - 1], 0, isHeader) == h
    requires FirstFrom(lines[..|lines| - 1], h + 1, ends) == |lines| - 1
    requires FirstFrom(lines, h + 1, ends) == if ends(lines[|lines| - 1]) then |lines| - 1 else |lines|
    ensures SectionSpec(lines, isHeader, ends, keep) == Step(SectionSpec(lines[..|lines| - 1], isHeader, ends, keep), lines[|lines| - 1], isHeader, ends, keep)
  {
    var n := |lines| - 1;
    var line := lines[n];
    PrefixSlice(lines, n, h + 1, n);
    var items := Selected(lines[h + 1..n], keep);
    SpecFromBounds(lines[..n], h, n, isHeader, ends, keep);
    var before := SectionSpec(lines[..n], isHeader, ends, keep);
    assert before == Walk(Inside, items);
    StepFromInside(items, line, isHeader, ends, keep);
    var after := Step(before, line, isHeader, ends, keep);
    if ends(line) {
      assert after == Walk(Stopped, items);
      SpecFromBounds(lines, h, n, isHeader, ends, keep);
      assert SectionSpec(lines, isHeader, ends, keep) == Walk(Stopped, items);
    } else {
      var more := items + if keep(line) then [Trim(line)] else [];
      assert after == Walk(Inside, more);
      SpecFromBounds(lines, h, n + 1, isHeader, ends, keep);
      SelectedStep(lines, h + 1, n, keep);
      var sel := Selected(lines[h + 1..n + 1], keep);
      assert sel == more;
      assert SectionSpec(lines, isHeader, ends, keep) == Walk(Inside, sel);
    }
  }

  /**
   * The fold and the index-based description agree, provided a header line
   * neither ends the section nor is kept.
   */
  lemma {:induction false} WalkMatchesSpec(lines: seq<string>, isHeader: string -> bool, ends: string -> bool, keep: string -> bool)
    requires forall l :: isHeader(l) ==> !ends(l) && !keep(l)
    ensures WalkLines(lines, isHeader, ends, keep) == SectionSpec(lines, isHeader, ends, keep)
  {
    if lines != [] {
      var n := |lines| - 1;
      WalkMatchesSpec(lines[..n], isHeader, ends, keep);
      if FirstFrom(lines[..n], 0, isHeader) == n {
        SpecStepBeforeHeader(lines, isHeader, ends, keep);
      } else {
        SpecStepAfterHeader(lines, isHeader, ends, keep);
      }
    }
  }

  /** A hit inside `lines` is still the first hit once more lines follow. */
  lemma FirstFromAppend(lines: seq<string>, rest: seq<string>, from: nat, p: string -> bool)
    requires from <= |lines| && FirstFrom(lines, from, p) < |lines|
    ensures FirstFrom(lines + rest, from, p) == FirstFrom(lines, from, p)
  {
    var k := FirstFrom(lines, from, p);
    assert forall j | from <= j <= k :: (lines + rest)[j] == lines[j];
    FirstFromUnique(lines + rest, from, p, k);
  }

  /** Lines put in front move every hit at or after `|pre|` by `|pre|`. */
  lemma FirstFromShift(pre: seq<string>, lines: seq<string>, from: nat, p: string -> bool)
    requires from <= |lines|
    ensures FirstFrom(pre + lines, |pre| + from, p) == |pre| + FirstFrom(lines, from, p)
  {
    var k := FirstFrom(lines, from, p);
    assert forall j | from <= j < |lines| :: (pre + lines)[|pre| + j] == lines[j];
    FirstFromUnique(pre + lines, |pre| + from, p, |pre| + k);
  }

  /** Lines put in front that `p` rejects are skipped by the search from 0. */
  lemma FirstFromSkip(pre: seq<string>, lines: seq<string>, p: string -> bool)
    requires forall j | 0 <= j < |pre| :: !p(pre[j])
    ensures FirstFrom(pre + lines, 0, p) == |pre| + FirstFrom(lines, 0, p)
  {
    FirstFromShift(pre, lines, 0, p);
    var k := FirstFrom(lines, 0, p);
    forall j | 0 <= j < |pre| + k
      ensures !p((pre + lines)[j])
    {
      if j < |pre| {
        assert (pre + lines)[j] == pre[j];
      }
    }
    FirstFromUnique(pre + lines, 0, p, |pre| + k);
  }

  /** With a header, the items are the selection over the lines strictly between the header and the end. */
  lemma SectionWindow(lines: seq<string>, isHeader: string -> bool, ends: string -> bool, keep: string -> bool)
    returns (h: nat, e: nat)
    requires FirstFrom(lines, 0, isHeader) < |lines|
    ensures h == FirstFrom(lines, 0, isHeader) && e == FirstFrom(lines, h + 1, ends) && h < e <= |lines|
    ensures SectionSpec(lines, isHeader, ends, keep).items == Selected(lines[h + 1..e], keep)
  {
    h := FirstFrom(lines, 0, isHeader);
    e := FirstFrom(lines, h + 1, ends);
  }

  /**
   * Where the items of a walk come from: `ps` lists, in increasing order, exactly
   * the lines strictly between the header `h` and the end `e` that `keep` selects,
   * and item `k` is the trim of line `ps[k]`.
   */
  lemma SectionProvenance(lines: seq<string>, isHeader: string -> bool, ends: string -> bool, keep: string -> bool)
    returns (h: nat, e: nat, ps: seq<nat>)
    requires FirstFrom(lines, 0, isHeader) < |lines|
    ensures h == FirstFrom(lines, 0, isHeader) && e == FirstFrom(lines, h + 1, ends)
    ensures |ps| == |SectionSpec(lines, isHeader, ends, keep).items|
    ensures forall k | 0 <= k < |ps| ::
      h < ps[k] < e && keep(lines[ps[k]]) && SectionSpec(lines, isHeader, ends, keep).items[k] == Trim(lines[ps[k]])
    ensures forall k, m | 0 <= k < m < |ps| :: ps[k] < ps[m]
    ensures forall j | h < j < e && keep(lines[j]) :: j in ps
  {
    h, e := SectionWindow(lines, isHeader, ends, keep);
    var items := SectionSpec(lines, isHeader, ends, keep).items;
    assert items == Selected(lines[h + 1..e], keep);
    ps := WindowPositions(lines, h + 1, e, keep);
    WindowKept(lines, h + 1, e, keep);
    WindowIncrease(lines, h + 1, e, keep);
    WindowComplete(lines, h + 1, e, keep);
    forall k | 0 <= k < |ps|
      ensures h < ps[k] < e && keep(lines[ps[k]]) && items[k] == Trim(lines[ps[k]])
    {
    }
  }

  /** `Positions` of the window `lines[lo..hi]`, as indices into `lines`. */
  function WindowPositions(lines: seq<string>, lo: nat, hi: nat, keep: string -> bool): (ps: seq<nat>)
    requires lo <= hi <= |lines|
    ensures |ps| == |Selected(lines[lo..hi], keep)|
    ensures forall k | 0 <= k < |ps| :: lo <= ps[k] < hi && ps[k] == Positions(lines[lo..hi], keep)[k] + lo
  {
    var qs := Positions(lines[lo..hi], keep);
    seq(|qs|, k requires 0 <= k < |qs| => qs[k] + lo)
  }

  lemma WindowKept(lines: seq<string>, lo: nat, hi: nat, keep: string -> bool)
    requires lo <= hi <= |lines|
    ensures forall k | 0 <= k < |WindowPositions(lines, lo, hi, keep)| ::
      var j := WindowPositions(lines, lo, hi, keep)[k];
      keep(lines[j]) && Selected(lines[lo..hi], keep)[k] == Trim(lines[j])
  {
    var seg := lines[lo..hi];
    PositionsKept(seg, keep);
    var qs := Positions(seg, keep);
    forall k | 0 <= k < |qs|
      ensures lines[qs[k] + lo] == seg[qs[k]]
    {
    }
  }

  lemma WindowIncrease(lines: seq<string>, lo: nat, hi: nat, keep: string -> bool)
    requires lo <= hi <= |lines|
    ensures forall k, m | 0 <= k < m < |WindowPositions(lines, lo, hi, keep)| ::
      WindowPositions(lines, lo, hi, keep)[k] < WindowPositions(lines, lo, hi, keep)[m]
  {
    PositionsIncrease(lines[lo..hi], keep);
  }

  lemma WindowComplete(lines: seq<string>, lo: nat, hi: nat, keep: string -> bool)
    requires lo <= hi <= |lines|
    ensures forall j | lo <= j < hi && keep(lines[j]) :: j in WindowPositions(lines, lo, hi, keep)
  {
    var seg := lines[lo..hi];
    var qs := Positions(seg, keep);
    var ps := WindowPositions(lines, lo, hi, keep);
    PositionsComplete(seg, keep);
    forall j | lo <= j < hi && keep(lines[j])
      ensures j in ps
    {
      assert seg[j - lo] == lines[j];
      var k :| 0 <= k < |qs| && qs[k] == j - lo;
      assert ps[k] == j;
    }
  }

  /** A walk that has stopped ignores every line after the one that stopped it. */
  lemma SectionCut(lines: seq<string>, rest: seq<string>, isHeader: string -> bool, ends: string -> bool, keep: string -> bool)
    requires SectionSpec(lines, isHeader, ends, keep).state == Stopped
    ensures SectionSpec(lines + rest, isHeader, ends, keep) == SectionSpec(lines, isHeader, ends, keep)
  {
    var h := FirstFrom(lines, 0, isHeader);
    FirstFromAppend(lines, rest, 0, isHeader);
    FirstFromAppend(lines, rest, h + 1, ends);
    var e := FirstFrom(lines, h + 1, ends);
    assert (lines + rest)[h + 1..e] == lines[h + 1..e];
    assert SectionSpec(lines, isHeader, ends, keep) == Walk(Stopped, Selected(lines[h + 1..e], keep));
  }

  /** Lines without a header in front of a document do not change its walk. */
  lemma SectionIgnoresPrefix(pre: seq<string>, lines: seq<string>, isHeader: string -> bool, ends: string -> bool, keep: string -> bool)
    requires forall j | 0 <= j < |pre| :: !isHeader(pre[j])
    ensures SectionSpec(pre + lines, isHeader, ends, keep) == SectionSpec(lines, isHeader, ends, keep)
  {
    FirstFromSkip(pre, lines, isHeader);
    var h := FirstFrom(lines, 0, isHeader);
    if h < |lines| {
      FirstFromShift(pre, lines, h + 1, ends);
      var e := FirstFrom(lines, h + 1, ends);
      assert (pre + lines)[|pre| + h + 1..|pre| + e] == lines[h + 1..e];
    }
  }

  /** The walk continued from `w` over `more`. */
  function WalkAfter(w: Walk, more: seq<string>, isHeader: string -> bool, ends: string -> bool, keep: string -> bool): Walk {
    if more == [] then w
    else Step(WalkAfter(w, more[..|more| - 1], isHeader, ends, keep), more[|more| - 1], isHeader, ends, keep)
  }

  /** Walking `lines + more` is walking `lines`, then walking on over `more`. */
  lemma {:induction false} WalkLinesAppend(lines: seq<string>, more: seq<string>, isHeader: string -> bool, ends: string -> bool, keep: string -> bool)
    ensures WalkLines(lines + more, isHeader, ends, keep) == WalkAfter(WalkLines(lines, isHeader, ends, keep), more, isHeader, ends, keep)
    decreases |more|
  {
    if more == [] {
      assert lines + more == lines;
    } else {
      var n := |more| - 1;
      WalkLinesAppend(lines, more[..n], isHeader, ends, keep);
      assert (lines + more)[..|lines + more| - 1] == lines + more[..n];
    }
  }

  /**
   * Once the walk has met a header, a further header line changes nothing:
   * it neither stops the walk nor is kept.
   */
  lemma SectionSkipsHeader(lines: seq<string>, x: string, more: seq<string>, isHeader: string -> bool, ends: string -> bool, keep: string -> bool)
    requires forall l :: isHeader(l) ==> !ends(l) && !keep(l)
    requires FirstFrom(lines, 0, isHeader) < |lines| && isHeader(x)
    ensures SectionSpec(lines + [x] + more, isHeader, ends, keep) == SectionSpec(lines + more, isHeader, ends, keep)
  {
    WalkMatchesSpec(lines, isHeader, ends, keep);
    WalkMatchesSpec(lines + [x], isHeader, ends, keep);
    WalkMatchesSpec(lines + [x] + more, isHeader, ends, keep);
    WalkMatchesSpec(lines + more, isHeader, ends, keep);
    assert (lines + [x])[..|lines|] == lines;
    assert WalkLines(lines + [x], isHeader, ends, keep) == WalkLines(lines, isHeader, ends, keep);
    WalkLinesAppend(lines + [x], more, isHeader, ends, keep);
    WalkLinesAppend(lines, more, isHeader, ends, keep);
  }
}

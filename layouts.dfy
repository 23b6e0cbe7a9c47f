/**
 * The global regexes on text laid out as the export writes it: noteHeading/noteText pairs, or plain `<div>`
 * blocks, one after another with whitespace around them. The `exec` loop over such text finds one match per
 * pair or block, in order, with the written heading, text or block content as its groups.
 */
module Layouts {
  import opened Wrappers
  import opened Strings
  import opened Patterns

  /** A noteHeading/noteText pair written out as the pattern expects: the opener, a heading, `</div>`,
      whitespace, the noteText opener, a text and `</div>`. */
  function PairText(heading: string, gap: string, text: string): (r: string)
    ensures |r| == |heading| + |gap| + |text| + 59
  {
    DivTag("noteHeading") + (heading + (CLOSE_DIV + (gap + (DivTag("noteText") + (text + CLOSE_DIV)))))
  }

  /** The noteText half after a heading closer at `e`: `</div>`, whitespace, the noteText opener, a text without
      `</div>` and `</div>`. It succeeds, capturing the text, and ends after the last `</div>`. */
  lemma NoteTextAfterText(s: string, e: nat, gap: string, text: string, style: TagStyle) returns (end: nat)
    requires var rest := CLOSE_DIV + (gap + (DivTag("noteText") + (text + CLOSE_DIV)));
      e + |rest| <= |s| && s[e..e + |rest|] == rest
    requires !Contains(text, CLOSE_DIV)
    requires forall i :: 0 <= i < |gap| ==> IsSpace(gap[i])
    ensures end == e + |gap| + |text| + 34
    ensures PairEnd(s, e, style)
    ensures NoteTextAfter(s, e, style) == Some((text, end))
  {
    var n, t, c := NoteTextSlices(s, e, gap, text);
    GapSkip(s, e + |CLOSE_DIV|, gap);
    end := c + |CLOSE_DIV|;
    NoteTextAfterFrom(s, e, n, t, c, end, text, style);
  }

  /** The noteText half with the whitespace ending at `n`, the literal noteText opener there ending at `t` and
      the first `</div>` after it at `c`. */
  lemma NoteTextAfterFrom(s: string, e: nat, n: nat, t: nat, c: nat, end: nat, text: string, style: TagStyle)
    requires e + |CLOSE_DIV| <= |s| && SkipSpace(s, e + |CLOSE_DIV|) == n
    requires StartsAt(s, DivTag("noteText"), n) && t == n + |DivTag("noteText")|
    requires t <= c && StartsAt(s, CLOSE_DIV, c) && end == c + |CLOSE_DIV|
    requires s[t..c] == text && !Contains(text, CLOSE_DIV)
    ensures NoteTextAfter(s, e, style) == Some((text, end))
  {
    OpenDivTag(s, n, "noteText", style);
    CloseDivUnbordered();
    FindAfterFree(s, CLOSE_DIV, t, c);
    NoteTextAfterAt(s, e, style, n, t, c);
  }

  /** Where the parts of a written-out noteText half lie. */
  lemma NoteTextSlices(s: string, e: nat, gap: string, text: string) returns (n: nat, t: nat, c: nat)
    requires var rest := CLOSE_DIV + (gap + (DivTag("noteText") + (text + CLOSE_DIV)));
      e + |rest| <= |s| && s[e..e + |rest|] == rest
    ensures n == e + |CLOSE_DIV| + |gap| && t == n + |DivTag("noteText")| && c == t + |text| && c + |CLOSE_DIV| <= |s|
    ensures StartsAt(s, CLOSE_DIV, e) && s[e + |CLOSE_DIV|..n] == gap && StartsAt(s, DivTag("noteText"), n)
    ensures s[t..c] == text && StartsAt(s, CLOSE_DIV, c)
  {
    var nt := DivTag("noteText");
    n := e + |CLOSE_DIV| + |gap|;
    t := n + |nt|;
    c := t + |text|;
    SliceSplit(s, e, CLOSE_DIV, gap + (nt + (text + CLOSE_DIV)));
    SliceSplit(s, e + |CLOSE_DIV|, gap, nt + (text + CLOSE_DIV));
    SliceSplit(s, n, nt, text + CLOSE_DIV);
    SliceSplit(s, t, text, CLOSE_DIV);
  }

  /** Whitespace at `i` followed by a `<`: `\s*` from `i` stops at the `<`. */
  lemma GapSkip(s: string, i: nat, gap: string)
    requires i + |gap| < |s| && s[i..i + |gap|] == gap && s[i + |gap|] == '<'
    requires forall k :: 0 <= k < |gap| ==> IsSpace(gap[k])
    ensures SkipSpace(s, i) == i + |gap|
  {
    forall k | i <= k < i + |gap| ensures IsSpace(s[k]) {
      assert s[k] == s[i..i + |gap|][k - i];
    }
    SkipSpaceTo(s, i, i + |gap|);
  }

  /** The pair regex at `p` where the noteHeading opener, ending at `q`, is followed by a heading without
      `</div>` ending at `e` and then by a noteText half that captures `text` and ends at `end`: the heading is the
      first group, and the rest is that half. */
  lemma AttemptPairHeading(s: string, p: nat, q: nat, e: nat, heading: string, text: string, end: nat,
                           style: TagStyle)
    requires StartsAt(s, DivTag("noteHeading"), p) && q == p + |DivTag("noteHeading")|
    requires e == q + |heading| <= |s| && s[q..e] == heading && !Contains(heading, CLOSE_DIV)
    requires StartsAt(s, CLOSE_DIV, e) && e + |CLOSE_DIV| <= |s| && NoteTextAfter(s, e, style) == Some((text, end))
    ensures AttemptAt(NotePair(style), s, p) == Some(Match(heading, text, end))
  {
    OpenDivTag(s, p, "noteHeading", style);
    CloseDivUnbordered();
    FindAfterFree(s, CLOSE_DIV, q, e);
    AttemptPairAt(s, p, style, q, e);
  }

  /** The pair regex at the start of a written-out pair whose heading and text hold no `</div>` matches the
      whole pair, with the heading and the text as its groups. */
  lemma AttemptPairText(s: string, p: nat, heading: string, gap: string, text: string, style: TagStyle)
    requires p + |PairText(heading, gap, text)| <= |s|
    requires s[p..p + |PairText(heading, gap, text)|] == PairText(heading, gap, text)
    requires !Contains(heading, CLOSE_DIV) && !Contains(text, CLOSE_DIV)
    requires forall i :: 0 <= i < |gap| ==> IsSpace(gap[i])
    ensures AttemptAt(NotePair(style), s, p) == Some(Match(heading, text, p + |PairText(heading, gap, text)|))
  {
    var q, e := PairSlices(s, p, heading, gap, text);
    var end := NoteTextAfterText(s, e, gap, text, style);
    assert end == p + |PairText(heading, gap, text)|;
    AttemptPairHeading(s, p, q, e, heading, text, end, style);
    assert AttemptAt(NotePair(style), s, p) == Some(Match(heading, text, end));
    assert Match(heading, text, end) == Match(heading, text, p + |PairText(heading, gap, text)|);
  }

  /** Where the heading of a written-out pair lies, and that the noteText half follows it. */
  lemma PairSlices(s: string, p: nat, heading: string, gap: string, text: string) returns (q: nat, e: nat)
    requires p + |PairText(heading, gap, text)| <= |s|
    requires s[p..p + |PairText(heading, gap, text)|] == PairText(heading, gap, text)
    ensures q == p + |DivTag("noteHeading")| && e == q + |heading| && StartsAt(s, DivTag("noteHeading"), p)
    ensures e + |gap| + |text| + 34 == p + |PairText(heading, gap, text)|
    ensures s[q..e] == heading
    ensures var rest := CLOSE_DIV + (gap + (DivTag("noteText") + (text + CLOSE_DIV)));
      e + |rest| <= |s| && s[e..e + |rest|] == rest
  {
    var nh := DivTag("noteHeading");
    var rest := CLOSE_DIV + (gap + (DivTag("noteText") + (text + CLOSE_DIV)));
    q := p + |nh|;
    e := q + |heading|;
    SliceSplit(s, p, nh, heading + rest);
    SliceSplit(s, q, heading, rest);
  }

  /** `exec` passes over text without `<`: the match it returns is the one at the end of that text. */
  lemma NextAfterText(re: Regex, s: string, from: nat, p: nat)
    requires from <= p <= |s| && forall k :: from <= k < p ==> s[k] != '<'
    requires AttemptAt(re, s, p).Some?
    ensures Next(re, s, from) == AttemptAt(re, s, p)
  {
    forall k | from <= k < p ensures AttemptAt(re, s, k).None? {
      AttemptNoTag(re, s, k);
    }
    NextAt(re, s, from, p);
  }

  /** One written-out pair after leading text without `<` (whitespace, as the export lays them out). */
  datatype PairLayout = PairLayout(lead: string, heading: string, gap: string, text: string)

  /** A layout the pair regex reads as written: no tag in the leading text, whitespace between the two blocks,
      no `</div>` in the heading or the text. */
  predicate WellFormedPair(x: PairLayout) {
    && (forall i :: 0 <= i < |x.lead| ==> x.lead[i] != '<')
    && (forall i :: 0 <= i < |x.gap| ==> IsSpace(x.gap[i]))
    && !Contains(x.heading, CLOSE_DIV) && !Contains(x.text, CLOSE_DIV)
  }

  function PairsText(xs: seq<PairLayout>): string {
    if xs == [] then "" else xs[0].lead + (PairText(xs[0].heading, xs[0].gap, xs[0].text) + PairsText(xs[1..]))
  }

  /** With no `<` left from `from`, `exec` returns `null`. */
  lemma NextNoneText(re: Regex, s: string, from: nat)
    requires from <= |s| && forall k :: from <= k < |s| ==> s[k] != '<'
    ensures Next(re, s, from).None?
  {
    forall p | from <= p <= |s| ensures AttemptAt(re, s, p).None? {
      AttemptNoTag(re, s, p);
    }
    NextNone(re, s, from);
  }

  /** Text that starts with `a`, then `b`, then the rest: `a` and `b` are found at their offsets. */
  lemma LayoutSlices(s: string, from: nat, a: string, b: string, rest: string)
    requires from <= |s| && s[from..] == a + (b + rest)
    ensures from + |a| + |b| <= |s|
    ensures s[from..from + |a|] == a && s[from + |a|..from + |a| + |b|] == b && s[from + |a| + |b|..] == rest
  {
    SuffixSplit(s, from, a, b + rest);
    SuffixSplit(s, from + |a|, b, rest);
  }

  /** `exec` from the start of a well-formed pair's leading text returns that pair's match. */
  lemma NextPair(s: string, from: nat, p: nat, e: nat, x: PairLayout, style: TagStyle)
    requires from <= p && p == from + |x.lead| && WellFormedPair(x)
    requires e == p + |PairText(x.heading, x.gap, x.text)| && e <= |s|
    requires s[from..p] == x.lead && s[p..e] == PairText(x.heading, x.gap, x.text)
    ensures Next(NotePair(style), s, from) == Some(Match(x.heading, x.text, e))
  {
    forall k | from <= k < p ensures s[k] != '<' {
      assert s[k] == s[from..p][k - from];
    }
    var m := Match(x.heading, x.text, e);
    AttemptPairText(s, p, x.heading, x.gap, x.text, style);
    assert AttemptAt(NotePair(style), s, p) == Some(m);
    NextAfterText(NotePair(style), s, from, p);
    assert Next(NotePair(style), s, from) == Some(m);
  }

  /** The matches the pair regex should find in pairs laid out from `from`: each pair's heading and text, ending
      after the pair. */
  function PairMatches(xs: seq<PairLayout>, from: nat): seq<Match>
    decreases |xs|
  {
    if xs == [] then []
    else
      var end := from + |xs[0].lead| + |PairText(xs[0].heading, xs[0].gap, xs[0].text)|;
      [Match(xs[0].heading, xs[0].text, end)] + PairMatches(xs[1..], end)
  }

  /** The first expected match, then those of the other pairs from where it ends. */
  lemma PairMatchesCons(xs: seq<PairLayout>, from: nat) returns (e: nat)
    requires |xs| > 0
    ensures e == from + |xs[0].lead| + |PairText(xs[0].heading, xs[0].gap, xs[0].text)|
    ensures PairMatches(xs, from) == [Match(xs[0].heading, xs[0].text, e)] + PairMatches(xs[1..], e)
  {
    e := from + |xs[0].lead| + |PairText(xs[0].heading, xs[0].gap, xs[0].text)|;
  }

  /** `exec` over pairs returns the first pair's match, which ends where the text of the other pairs begins. */
  lemma NextPairs(s: string, from: nat, xs: seq<PairLayout>, trail: string, style: TagStyle) returns (e: nat)
    requires from <= |s| && |xs| > 0 && s[from..] == PairsText(xs) + trail && WellFormedPair(xs[0])
    ensures e == from + |xs[0].lead| + |PairText(xs[0].heading, xs[0].gap, xs[0].text)| && e <= |s|
    ensures s[e..] == PairsText(xs[1..]) + trail
    ensures Next(NotePair(style), s, from) == Some(Match(xs[0].heading, xs[0].text, e))
  {
    var x := xs[0];
    var t := PairText(x.heading, x.gap, x.text);
    var rest := PairsText(xs[1..]) + trail;
    assert s[from..] == x.lead + (t + rest);
    LayoutSlices(s, from, x.lead, t, rest);
    var p := from + |x.lead|;
    e := p + |t|;
    NextPair(s, from, p, e, x, style);
    assert s[e..] == rest;
  }

  /** The `exec` loop over well-formed pairs followed by text without `<` finds exactly one match per pair, in
      order, with the pair's heading and text as its groups. */
  lemma {:induction false} AllFromPairs(s: string, from: nat, xs: seq<PairLayout>, trail: string, style: TagStyle)
    requires from <= |s| && s[from..] == PairsText(xs) + trail
    requires forall i :: 0 <= i < |xs| ==> WellFormedPair(xs[i])
    requires forall i :: 0 <= i < |trail| ==> trail[i] != '<'
    ensures AllFrom(NotePair(style), s, from) == PairMatches(xs, from)
    decreases |xs|
  {
    if xs == [] {
      forall k | from <= k < |s| ensures s[k] != '<' {
        assert s[k] == s[from..][k - from];
      }
      NextNoneText(NotePair(style), s, from);
    } else {
      var e := NextPairs(s, from, xs, trail, style);
      var e' := PairMatchesCons(xs, from);
      assert e' == e;
      var m := Match(xs[0].heading, xs[0].text, e);
      AllFromStep(NotePair(style), s, from, m);
      AllFromPairs(s, e, xs[1..], trail, style);
      assert AllFrom(NotePair(style), s, from) == [m] + PairMatches(xs[1..], e);
    }
  }

  /** The same over a whole text that starts with the pairs. */
  lemma AllPairs(xs: seq<PairLayout>, trail: string, style: TagStyle)
    requires forall i :: 0 <= i < |xs| ==> WellFormedPair(xs[i])
    requires forall i :: 0 <= i < |trail| ==> trail[i] != '<'
    ensures AllFrom(NotePair(style), PairsText(xs) + trail, 0) == PairMatches(xs, 0)
  {
    var s := PairsText(xs) + trail;
    assert s[0..] == s;
    AllFromPairs(s, 0, xs, trail, style);
  }

  // ---------------------------------------------------------------------------------------------
  // Plain `<div>` blocks and the generic `<div[^>]*>(.*?)<\/div>`

  /** A plain block `<div>x</div>`. */
  function DivText(x: string): (r: string)
    ensures |r| == |x| + 11
  {
    "<div>" + (x + CLOSE_DIV)
  }

  /** The `div` regex at the start of a plain block whose content has no `<` captures that content and ends
      after the block. */
  lemma AttemptDivText(s: string, p: nat, x: string)
    requires p + |DivText(x)| <= |s| && s[p..p + |DivText(x)|] == DivText(x)
    requires forall i :: 0 <= i < |x| ==> x[i] != '<'
    ensures AttemptAt(DivBlock, s, p) == Some(Match(x, "", p + |DivText(x)|))
  {
    var c := DivSlices(s, p, x);
    StartsAtChar(s, '>', p + 4);
    FindFromAt(s, ">", p + 4, p + 4);
    NoLessFree(x, CLOSE_DIV);
    CloseDivUnbordered();
    FindAfterFree(s, CLOSE_DIV, p + 5, c);
    AttemptDivAt(s, p, p + 4, c);
  }

  /** Where the parts of a plain block lie: `<div`, its `>`, the content and the closer at `c`. */
  lemma DivSlices(s: string, p: nat, x: string) returns (c: nat)
    requires p + |DivText(x)| <= |s| && s[p..p + |DivText(x)|] == DivText(x)
    ensures c == p + 5 + |x| && c + |CLOSE_DIV| == p + |DivText(x)|
    ensures StartsAt(s, "<div", p) && s[p + 4] == '>' && s[p + 5..c] == x && StartsAt(s, CLOSE_DIV, c)
  {
    c := p + 5 + |x|;
    SliceSplit(s, p, "<div>", x + CLOSE_DIV);
    SliceSplit(s, p + 5, x, CLOSE_DIV);
    assert s[p..p + 4] == s[p..p + 5][..4];
    assert s[p + 4] == s[p..p + 5][4];
  }

  /** One plain block after leading text without `<`. */
  datatype BlockLayout = BlockLayout(lead: string, content: string)

  predicate WellFormedBlock(y: BlockLayout) {
    && (forall i :: 0 <= i < |y.lead| ==> y.lead[i] != '<')
    && (forall i :: 0 <= i < |y.content| ==> y.content[i] != '<')
  }

  function BlocksText(ys: seq<BlockLayout>): string {
    if ys == [] then "" else ys[0].lead + (DivText(ys[0].content) + BlocksText(ys[1..]))
  }

  /** `exec` from the start of a well-formed block's leading text returns that block's match. */
  lemma NextBlock(s: string, from: nat, p: nat, e: nat, y: BlockLayout)
    requires from <= p && p == from + |y.lead| && WellFormedBlock(y)
    requires e == p + |DivText(y.content)| && e <= |s|
    requires s[from..p] == y.lead && s[p..e] == DivText(y.content)
    ensures Next(DivBlock, s, from) == Some(Match(y.content, "", e))
  {
    forall k | from <= k < p ensures s[k] != '<' {
      assert s[k] == s[from..p][k - from];
    }
    AttemptDivText(s, p, y.content);
    NextAfterText(DivBlock, s, from, p);
  }

  /** The matches the `div` regex should find in blocks laid out from `from`: each block's content, ending
      after the block. */
  function BlockMatches(ys: seq<BlockLayout>, from: nat): seq<Match>
    decreases |ys|
  {
    if ys == [] then []
    else
      var end := from + |ys[0].lead| + |DivText(ys[0].content)|;
      [Match(ys[0].content, "", end)] + BlockMatches(ys[1..], end)
  }

  /** The first expected match, then those of the other blocks from where it ends. */
  lemma BlockMatchesCons(ys: seq<BlockLayout>, from: nat) returns (e: nat)
    requires |ys| > 0
    ensures e == from + |ys[0].lead| + |DivText(ys[0].content)|
    ensures BlockMatches(ys, from) == [Match(ys[0].content, "", e)] + BlockMatches(ys[1..], e)
  {
    e := from + |ys[0].lead| + |DivText(ys[0].content)|;
  }

  /** `exec` over blocks returns the first block's match, which ends where the text of the other blocks begins. */
  lemma NextBlocks(s: string, from: nat, ys: seq<BlockLayout>, trail: string) returns (e: nat)
    requires from <= |s| && |ys| > 0 && s[from..] == BlocksText(ys) + trail && WellFormedBlock(ys[0])
    ensures e == from + |ys[0].lead| + |DivText(ys[0].content)| && e <= |s|
    ensures s[e..] == BlocksText(ys[1..]) + trail
    ensures Next(DivBlock, s, from) == Some(Match(ys[0].content, "", e))
  {
    var y := ys[0];
    var t := DivText(y.content);
    var rest := BlocksText(ys[1..]) + trail;
    assert s[from..] == y.lead + (t + rest);
    LayoutSlices(s, from, y.lead, t, rest);
    var p := from + |y.lead|;
    e := p + |t|;
    NextBlock(s, from, p, e, y);
    assert s[e..] == rest;
  }

  /** The `exec` loop of the `div` regex over well-formed blocks followed by text without `<` finds exactly one
      match per block, in order, capturing the block's content. */
  lemma {:induction false} AllFromBlocks(s: string, from: nat, ys: seq<BlockLayout>, trail: string)
    requires from <= |s| && s[from..] == BlocksText(ys) + trail
    requires forall i :: 0 <= i < |ys| ==> WellFormedBlock(ys[i])
    requires forall i :: 0 <= i < |trail| ==> trail[i] != '<'
    ensures AllFrom(DivBlock, s, from) == BlockMatches(ys, from)
    decreases |ys|
  {
    if ys == [] {
      forall k | from <= k < |s| ensures s[k] != '<' {
        assert s[k] == s[from..][k - from];
      }
      NextNoneText(DivBlock, s, from);
    } else {
      var e := NextBlocks(s, from, ys, trail);
      var e' := BlockMatchesCons(ys, from);
      assert e' == e;
      var m := Match(ys[0].content, "", e);
      AllFromStep(DivBlock, s, from, m);
      AllFromBlocks(s, e, ys[1..], trail);
      assert AllFrom(DivBlock, s, from) == [m] + BlockMatches(ys[1..], e);
    }
  }

  /** The same over a whole text that starts with the blocks. */
  lemma AllBlocks(ys: seq<BlockLayout>, trail: string)
    requires forall i :: 0 <= i < |ys| ==> WellFormedBlock(ys[i])
    requires forall i :: 0 <= i < |trail| ==> trail[i] != '<'
    ensures AllFrom(DivBlock, BlocksText(ys) + trail, 0) == BlockMatches(ys, 0)
  {
    var s := BlocksText(ys) + trail;
    assert s[0..] == s;
    AllFromBlocks(s, 0, ys, trail);
  }

  // ---------------------------------------------------------------------------------------------
  // Text whose only tags are plain `<div>` and `</div>`

  /** Every `<` starts `</…` or a tag whose fifth character is `>`, as in `<div>`: no tag carries an attribute. */
  predicate PlainDivs(s: string) {
    forall k :: 0 <= k < |s| && s[k] == '<' ==> k + 4 < |s| && (s[k + 1] == '/' || s[k + 4] == '>')
  }

  lemma PlainDivsFree(s: string)
    requires forall i :: 0 <= i < |s| ==> s[i] != '<'
    ensures PlainDivs(s)
  {
  }

  lemma PlainDivsConcat(a: string, b: string)
    requires PlainDivs(a) && PlainDivs(b)
    ensures PlainDivs(a + b)
  {
    var s := a + b;
    forall k | 0 <= k < |s| && s[k] == '<' ensures k + 4 < |s| && (s[k + 1] == '/' || s[k + 4] == '>') {
      if k < |a| {
        assert s[k] == a[k] && s[k + 1] == a[k + 1] && s[k + 4] == a[k + 4];
      } else {
        assert s[k] == b[k - |a|] && s[k + 1] == b[k - |a| + 1] && s[k + 4] == b[k - |a| + 4];
      }
    }
  }

  lemma PlainDivsBlock(x: string)
    requires forall i :: 0 <= i < |x| ==> x[i] != '<'
    ensures PlainDivs(DivText(x))
  {
    assert PlainDivs("<div>");
    assert PlainDivs(CLOSE_DIV);
    PlainDivsFree(x);
    PlainDivsConcat(x, CLOSE_DIV);
    PlainDivsConcat("<div>", x + CLOSE_DIV);
  }

  lemma {:induction false} PlainDivsBlocks(ys: seq<BlockLayout>, trail: string)
    requires forall i :: 0 <= i < |ys| ==> WellFormedBlock(ys[i])
    requires forall i :: 0 <= i < |trail| ==> trail[i] != '<'
    ensures PlainDivs(BlocksText(ys) + trail)
    decreases |ys|
  {
    if ys == [] {
      assert BlocksText(ys) + trail == trail;
      PlainDivsFree(trail);
    } else {
      PlainDivsBlocks(ys[1..], trail);
      PlainDivsBlock(ys[0].content);
      PlainDivsFree(ys[0].lead);
      PlainDivsConcat(DivText(ys[0].content), BlocksText(ys[1..]) + trail);
      PlainDivsConcat(ys[0].lead, DivText(ys[0].content) + (BlocksText(ys[1..]) + trail));
      assert BlocksText(ys) + trail == ys[0].lead + (DivText(ys[0].content) + (BlocksText(ys[1..]) + trail));
    }
  }

  /** A tag that starts `<d` and has a space as its fifth character, such as a `div` tag with a class, occurs
      nowhere in such text. */
  lemma PlainDivsNoClass(s: string, m: string)
    requires PlainDivs(s) && |m| >= 5 && m[0] == '<' && m[1] == 'd' && m[4] == ' '
    ensures !Contains(s, m)
  {
    forall k | 0 <= k ensures !StartsAt(s, m, k) {
    }
    FindFromAbsent(s, m, 0);
  }

  /** Neither pair regex matches anywhere in such text: the exact noteHeading opener never occurs, and a loose
      one finds its first `>` right after `<div`, with no `class` attribute before it. */
  lemma PlainDivsNoPair(s: string, style: TagStyle, from: nat)
    requires PlainDivs(s)
    ensures Next(NotePair(style), s, from).None?
  {
    var tag := DivTag("noteHeading");
    assert tag[1] == 'd' && tag[4] == ' ';
    PlainDivsNoClass(s, tag);
    forall p | from <= p <= |s| ensures AttemptAt(NotePair(style), s, p).None? {
      assert !StartsAt(s, tag, p);
      if style == Loose && StartsAt(s, "<div", p) {
        assert s[p] == s[p..p + 4][0] && s[p + 1] == s[p..p + 4][1];
        OpenDivLoose(s, p, "noteHeading", p + 4);
        assert !Contains(s[p + 4..p + 4], ClassAttr("noteHeading"));
      }
    }
    NextNone(NotePair(style), s, from);
  }
}

/**
 * The fixed regular expressions of src/kindle-parser.ts, each written out as a scan over the input that
 * follows JavaScript's matching order: the leftmost start index whose attempt succeeds wins, a lazy
 * group `(.*?)` tries the shortest extension first, `.` crosses line terminators only under the `s` flag,
 * and a global regex driven by `exec` resumes at the end of the previous match.
 */
module Patterns {
  import opened Wrappers
  import opened Strings

  const CLOSE_DIV := "</div>"

  // ---------------------------------------------------------------------------------------------
  // `open(.*?)close` with the `s` flag, matched once (`String.prototype.match` without `g`).

  /** A literal opener and closer around a lazy capture. The title and author patterns
      `open\s*(.*?)\s*close` are used only through `.trim()` of their capture, and then the two `\s*`
      make no difference: the trimmed capture is the trimmed text between the opener and the first
      closer after it. */
  datatype Enclosure = Enclosure(open: string, close: string)

  /** With the opener at `p`: the lazy capture up to the first closer after it. */
  function CaptureAfter(s: string, e: Enclosure, p: nat): Option<string> {
    match FindFrom(s, e.close, p + |e.open|)
    case Some(c) => Some(s[p + |e.open|..c])
    case None => None
  }

  /** The attempt at index `p`: the opener at `p`, then the lazy capture up to the first closer. */
  function EnclosedAt(s: string, e: Enclosure, p: nat): Option<string> {
    if StartsAt(s, e.open, p) then CaptureAfter(s, e, p) else None
  }

  /** The capture of the leftmost successful attempt at or after `from`. */
  function EnclosedFrom(s: string, e: Enclosure, from: nat): (r: Option<string>)
    decreases |s| - from
  {
    if from > |s| then None
    else
      match EnclosedAt(s, e, from)
      case Some(v) => Some(v)
      case None => EnclosedFrom(s, e, from + 1)
  }

  /** `s.match(re)?.[1]` for the regex `e.open(.*?)e.close` with the `s` flag. */
  function MatchEnclosed(s: string, e: Enclosure): Option<string> {
    EnclosedFrom(s, e, 0)
  }

  /** A reference reading of the same match: take the FIRST opener, then the first closer after it. */
  function FirstEnclosed(s: string, e: Enclosure): Option<string> {
    match FindFrom(s, e.open, 0)
    case None => None
    case Some(p) => CaptureAfter(s, e, p)
  }

  /** Successive searches: if the first occurrence from `i` lies beyond `i`, it is also the first from `i + 1`. */
  lemma FindFromStep(s: string, pat: string, i: nat, p: nat)
    requires FindFrom(s, pat, i) == Some(p) && i < p
    ensures FindFrom(s, pat, i + 1) == Some(p)
  {
  }

  /** Once the first opener at `p` has no closer after it, no attempt at or after `q > p` succeeds. */
  lemma {:induction false} EnclosedFromNone(s: string, e: Enclosure, p: nat, q: nat)
    requires p < q && FindFrom(s, e.close, p + |e.open|).None?
    ensures EnclosedFrom(s, e, q).None?
    decreases |s| - q
  {
    if q <= |s| {
      assert EnclosedAt(s, e, q).None? by {
        if StartsAt(s, e.open, q) {
          assert FindFrom(s, e.close, q + |e.open|).None?;
        }
      }
      EnclosedFromNone(s, e, p, q + 1);
    }
  }

  /** When no opener occurs at or after `from`, nothing matches from there. */
  lemma {:induction false} EnclosedFromNoOpener(s: string, e: Enclosure, from: nat)
    requires FindFrom(s, e.open, from).None?
    ensures EnclosedFrom(s, e, from).None?
    decreases |s| - from
  {
    if from <= |s| {
      assert !StartsAt(s, e.open, from);
      EnclosedFromNoOpener(s, e, from + 1);
    }
  }

  /** The regex's leftmost-attempt search gives what the reference reading gives. */
  lemma {:induction false} EnclosedFromFirst(s: string, e: Enclosure, from: nat)
    ensures EnclosedFrom(s, e, from) == (
      match FindFrom(s, e.open, from)
      case None => None
      case Some(p) => CaptureAfter(s, e, p))
    decreases |s| - from
  {
    match FindFrom(s, e.open, from)
    case None => EnclosedFromNoOpener(s, e, from);
    case Some(p) =>
      if p == from {
        if FindFrom(s, e.close, p + |e.open|).None? {
          EnclosedFromNone(s, e, p, p + 1);
        }
      } else {
        assert !StartsAt(s, e.open, from);
        FindFromStep(s, e.open, from, p);
        EnclosedFromFirst(s, e, from + 1);
      }
  }

  /** `match` finds the first opener and the first closer after it; it fails exactly when one of them is missing. */
  lemma MatchEnclosedIsFirst(s: string, e: Enclosure)
    ensures MatchEnclosed(s, e) == FirstEnclosed(s, e)
  {
    EnclosedFromFirst(s, e, 0);
  }

  /** With the first opener at `p` and the first closer after it at `c`, the match captures what lies between. */
  lemma MatchEnclosedAt(s: string, e: Enclosure, p: nat, q: nat, c: nat)
    requires FindFrom(s, e.open, 0) == Some(p) && q == p + |e.open| && FindFrom(s, e.close, q) == Some(c)
    ensures MatchEnclosed(s, e) == Some(s[q..c])
  {
    MatchEnclosedIsFirst(s, e);
    assert CaptureAfter(s, e, p) == Some(s[q..c]);
    assert FirstEnclosed(s, e) == CaptureAfter(s, e, p);
  }

  /** Text before the first opener, the opener, a capture without the closer and the closer: the match captures
      exactly that text, when opener and closer are unbordered. */
  lemma MatchEnclosedAfter(a: string, e: Enclosure, c: string, b: string)
    requires Unbordered(e.open) && Unbordered(e.close)
    requires !Contains(a, e.open) && !Contains(c, e.close)
    ensures MatchEnclosed(a + (e.open + (c + (e.close + b))), e) == Some(c)
  {
    var s := a + (e.open + (c + (e.close + b)));
    var p := FindAfterSuffix(s, 0, a, e.open, c + (e.close + b));
    var q := p + |e.open|;
    var r := FindAfterSuffix(s, q, c, e.close, b);
    MatchEnclosedAt(s, e, p, q, r);
  }

  // ---------------------------------------------------------------------------------------------
  // The colour regex `/<span class="highlight_(.*?)">.*?<\/span>/`, WITHOUT the `s` flag.

  const COLOR_OPEN := "<span class=\"highlight_"
  const COLOR_GROUP_END := "\">"
  const SPAN_CLOSE := "</span>"

  /** `.*?<\/span>` from `r`: a `</span>` is reached before any line terminator. */
  predicate SpanTail(s: string, r: nat)
    decreases |s| - r
  {
    if StartsAt(s, SPAN_CLOSE, r) then true
    else if r >= |s| || IsLineTerminator(s[r]) then false
    else SpanTail(s, r + 1)
  }

  /** The lazy group `(.*?)` followed by `">` and the tail, with the group grown from index `j` on: the index
      of the `">` that ends the group, if any. The group cannot grow over a line terminator. */
  function ColorGroupEnd(s: string, j: nat): (r: Option<nat>)
    ensures r.Some? ==> j <= r.value && StartsAt(s, COLOR_GROUP_END, r.value)
    ensures r.Some? ==> SpanTail(s, r.value + 2)
    ensures r.Some? ==> forall k :: j <= k < r.value ==> !IsLineTerminator(s[k])
    ensures r.Some? ==> forall k :: j <= k < r.value ==> !(StartsAt(s, COLOR_GROUP_END, k) && SpanTail(s, k + 2))
    decreases |s| - j
  {
    if StartsAt(s, COLOR_GROUP_END, j) && SpanTail(s, j + 2) then Some(j)
    else if j >= |s| || IsLineTerminator(s[j]) then None
    else ColorGroupEnd(s, j + 1)
  }

  /** The attempt at index `p`; the capture is the group. */
  function ColorAt(s: string, p: nat): (r: Option<string>)
    ensures r.Some? ==> SingleLine(r.value)
  {
    if StartsAt(s, COLOR_OPEN, p) then
      var q := p + |COLOR_OPEN|;
      match ColorGroupEnd(s, q)
      case Some(j) =>
        assert forall k :: 0 <= k < j - q ==> s[q..j][k] == s[q + k];
        Some(s[q..j])
      case None => None
    else None
  }

  function ColorFrom(s: string, from: nat): (r: Option<string>)
    ensures r.Some? ==> SingleLine(r.value)
    decreases |s| - from
  {
    if from > |s| then None
    else
      match ColorAt(s, from)
      case Some(c) => Some(c)
      case None => ColorFrom(s, from + 1)
  }

  /** `heading.match(/<span class="highlight_(.*?)">.*?<\/span>/)?.[1]`. */
  function MatchColor(s: string): (r: Option<string>)
    ensures r.Some? ==> SingleLine(r.value)
  {
    ColorFrom(s, 0)
  }

  /** `.*?<\/span>` succeeds from `r` when a `</span>` starts at `f` and no line terminator lies between. */
  lemma {:induction false} SpanTailReach(s: string, r: nat, f: nat)
    requires r <= f && StartsAt(s, SPAN_CLOSE, f)
    requires forall k :: r <= k < f ==> !IsLineTerminator(s[k])
    ensures SpanTail(s, r)
    decreases f - r
  {
    if r < f && !StartsAt(s, SPAN_CLOSE, r) {
      SpanTailReach(s, r + 1, f);
    }
  }

  /** The lazy group grown from `j` ends at `e` when a `">` followed by a successful tail sits at `e`, and
      before `e` there is neither a line terminator nor an earlier `">`. */
  lemma {:induction false} ColorGroupEndReach(s: string, j: nat, e: nat)
    requires j <= e && StartsAt(s, COLOR_GROUP_END, e) && SpanTail(s, e + 2)
    requires forall k :: j <= k < e ==> !IsLineTerminator(s[k]) && !StartsAt(s, COLOR_GROUP_END, k)
    ensures ColorGroupEnd(s, j) == Some(e)
    decreases e - j
  {
    if j < e {
      ColorGroupEndReach(s, j + 1, e);
    }
  }

  /** No attempt before `p` can start without the opener, so the search from `from` is the search from `p`. */
  lemma {:induction false} ColorFromSkip(s: string, from: nat, p: nat)
    requires from <= p <= |s|
    requires forall k :: from <= k < p ==> !StartsAt(s, COLOR_OPEN, k)
    ensures ColorFrom(s, from) == ColorFrom(s, p)
    decreases p - from
  {
    if from < p {
      ColorFromSkip(s, from + 1, p);
    }
  }

  /** With the first opener at `p`, a group from `q` to `e` that holds no line terminator and no `">`, and a
      tail from `e + 2` to a `</span>` at `f` without line terminators, the match captures exactly that group. */
  lemma MatchColorFirstSpan(s: string, p: nat, e: nat, f: nat)
    requires FindFrom(s, COLOR_OPEN, 0) == Some(p)
    requires p + |COLOR_OPEN| <= e && StartsAt(s, COLOR_GROUP_END, e)
    requires forall k :: p + |COLOR_OPEN| <= k < e ==> !IsLineTerminator(s[k]) && !StartsAt(s, COLOR_GROUP_END, k)
    requires e + 2 <= f && StartsAt(s, SPAN_CLOSE, f)
    requires forall k :: e + 2 <= k < f ==> !IsLineTerminator(s[k])
    ensures MatchColor(s) == Some(s[p + |COLOR_OPEN|..e])
  {
    var q := p + |COLOR_OPEN|;
    var g := e + 2;
    ColorFromSkip(s, 0, p);
    SpanTailReach(s, g, f);
    ColorGroupEndReach(s, q, e);
    ColorFromFound(s, p, q, e);
  }

  /** The attempt at an opener at `p` whose lazy group, from `q`, ends at `e` succeeds with that group. */
  lemma ColorFromFound(s: string, p: nat, q: nat, e: nat)
    requires StartsAt(s, COLOR_OPEN, p) && q == p + |COLOR_OPEN| && ColorGroupEnd(s, q) == Some(e)
    ensures ColorFrom(s, p) == Some(s[q..e])
  {
  }

  // ---------------------------------------------------------------------------------------------
  // The global regexes driven by `exec`: the noteHeading/noteText pair (exact tags in the section
  // path, `[^>]*`-tolerant tags in the document-wide fallback) and the generic `<div[^>]*>(.*?)<\/div>`.

  /** How a `div` opener of a given class is written in a pattern: `<div class="C">` exactly, or
      `<div[^>]*class="C"[^>]*>`. */
  datatype TagStyle = Exact | Loose

  /** The attribute `class="cls"`. */
  function ClassAttr(cls: string): (r: string)
    ensures |r| == |cls| + 8 && r[..7] == "class=\"" && r[7..|cls| + 7] == cls && r[|cls| + 7] == '"'
  {
    "class=\"" + cls + "\""
  }

  /** The literal opener `<div class="cls">`. */
  function DivTag(cls: string): (r: string)
    ensures |r| == |cls| + 14 && r[0] == '<'
  {
    "<div" + ((" " + ClassAttr(cls)) + ">")
  }

  /** The attribute of a class without `c` holds `c` only if `c` is one of the characters `class="`. */
  lemma ClassAttrChars(cls: string, c: char)
    requires forall i :: 0 <= i < |cls| ==> cls[i] != c
    requires c !in "class=\""
    ensures forall i :: 0 <= i < |ClassAttr(cls)| ==> ClassAttr(cls)[i] != c
  {
    var a := ClassAttr(cls);
    forall i | 0 <= i < |a| ensures a[i] != c {
      if i < 7 {
        assert a[i] == a[..7][i];
      } else if i < |cls| + 7 {
        assert a[i] == a[7..|cls| + 7][i - 7];
      }
    }
  }

  /** A `div` opener of class `cls` at index `p`: the index just after it. A loose opener ends at the first
      `>` after `<div`, and the class attribute has to lie before that `>`. */
  function OpenDivAt(s: string, p: nat, cls: string, style: TagStyle): (r: Option<nat>)
    ensures r.Some? ==> p < r.value <= |s|
  {
    match style
    case Exact =>
      var tag := DivTag(cls);
      if StartsAt(s, tag, p) then Some(p + |tag|) else None
    case Loose =>
      if StartsAt(s, "<div", p) then
        match FindFrom(s, ">", p + 4)
        case Some(g) => if Contains(s[p + 4..g], ClassAttr(cls)) then Some(g + 1) else None
        case None => None
      else None
  }

  /** An exact opener is recognised exactly where the literal tag `<div class="cls">` occurs, and ends after it. */
  lemma OpenDivExact(s: string, p: nat, cls: string)
    ensures OpenDivAt(s, p, cls, Exact).Some? <==> StartsAt(s, DivTag(cls), p)
    ensures OpenDivAt(s, p, cls, Exact).Some? ==> OpenDivAt(s, p, cls, Exact).value == p + |DivTag(cls)|
  {
  }

  /** A loose opener `<div[^>]*class="cls"[^>]*>` at `p` whose first `>` is at `g`: it is recognised, ending
      after that `>`, exactly when the attribute text between `<div` and `>` holds `class="cls"`. */
  lemma OpenDivLoose(s: string, p: nat, cls: string, g: nat)
    requires StartsAt(s, "<div", p) && p + 4 <= g < |s| && s[g] == '>'
    requires forall k :: p + 4 <= k < g ==> s[k] != '>'
    ensures OpenDivAt(s, p, cls, Loose) == if Contains(s[p + 4..g], ClassAttr(cls)) then Some(g + 1) else None
  {
    StartsAtChar(s, '>', g);
    forall k | p + 4 <= k < g ensures !StartsAt(s, ">", k) {
      StartsAtChar(s, '>', k);
    }
    FindFromAt(s, ">", p + 4, g);
  }

  /** A loose opener with no `>` after `<div` is never recognised. */
  lemma OpenDivLooseUnclosed(s: string, p: nat, cls: string)
    requires forall k :: p + 4 <= k < |s| ==> s[k] != '>'
    ensures OpenDivAt(s, p, cls, Loose).None?
  {
    forall k | p + 4 <= k ensures !StartsAt(s, ">", k) {
      StartsAtChar(s, '>', k);
    }
    FindFromAbsent(s, ">", p + 4);
  }

  /** The literal opener of a class without `<` is unbordered: its `<` does not recur in it. */
  lemma DivTagUnbordered(cls: string)
    requires forall i :: 0 <= i < |cls| ==> cls[i] != '<'
    ensures Unbordered(DivTag(cls))
  {
    var a := ClassAttr(cls);
    ClassAttrChars(cls, '<');
    var tag := DivTag(cls);
    forall d | 0 < d < |tag| ensures tag[d] != '<' {
      if 5 <= d < |tag| - 1 {
        assert tag[d] == a[d - 5];
      }
    }
  }

  /** The literal opener of a class without `>` is recognised in either style, and ends after it: the loose
      pattern's `[^>]*` parts take the space before `class` and nothing after it. */
  lemma OpenDivTag(s: string, p: nat, cls: string, style: TagStyle)
    requires StartsAt(s, DivTag(cls), p)
    requires forall i :: 0 <= i < |cls| ==> cls[i] != '>'
    ensures OpenDivAt(s, p, cls, style) == Some(p + |DivTag(cls)|)
  {
    if style == Loose {
      var g := p + |cls| + 13;
      DivTagParts(s, p, cls);
      SpacedAttrChars(cls);
      forall k | p + 4 <= k < g ensures s[k] != '>' {
        assert s[k] == s[p + 4..g][k - p - 4];
      }
      SpacedContains(ClassAttr(cls));
      OpenDivLoose(s, p, cls, g);
    }
  }

  /** The literal opener at `p` is `<div`, then the spaced attribute, then its `>`. */
  lemma DivTagParts(s: string, p: nat, cls: string)
    requires StartsAt(s, DivTag(cls), p)
    ensures var g := p + |cls| + 13;
      && StartsAt(s, "<div", p) && g < |s| && s[g] == '>' && s[p + 4..g] == " " + ClassAttr(cls)
  {
    var g := p + |cls| + 13;
    SliceSplit(s, p, "<div", (" " + ClassAttr(cls)) + ">");
    SliceSplit(s, p + 4, " " + ClassAttr(cls), ">");
    assert s[g] == s[g..g + 1][0];
  }

  /** The spaced attribute of a class without `>` has no `>`. */
  lemma SpacedAttrChars(cls: string)
    requires forall i :: 0 <= i < |cls| ==> cls[i] != '>'
    ensures forall i :: 0 <= i < |" " + ClassAttr(cls)| ==> (" " + ClassAttr(cls))[i] != '>'
  {
    ClassAttrChars(cls, '>');
    var t := " " + ClassAttr(cls);
    forall i | 1 <= i < |t| ensures t[i] != '>' {
      assert t[i] == ClassAttr(cls)[i - 1];
    }
  }

  lemma SpacedContains(a: string)
    requires |a| > 0
    ensures Contains(" " + a, a)
  {
    assert StartsAt(" " + a, a, 1);
  }

  datatype Regex = NotePair(style: TagStyle) | DivBlock

  /** One match: its capture groups `m[1]` and `m[2]` (the one-group `div` regex leaves `group2` empty) and
      the index just after it (the next `lastIndex`). */
  datatype Match = Match(group1: string, group2: string, end: nat)

  /** `<\/div>\s*<div…noteText…>(.*?)<\/div>` at a closer found at `k`: the second group and where the match ends. */
  function NoteTextAfter(s: string, k: nat, style: TagStyle): (r: Option<(string, nat)>)
    requires k + |CLOSE_DIV| <= |s|
    ensures r.Some? ==> k < r.value.1 <= |s|
  {
    var n := SkipSpace(s, k + |CLOSE_DIV|);
    match OpenDivAt(s, n, "noteText", style)
    case None => None
    case Some(t) =>
      match FindFrom(s, CLOSE_DIV, t)
      case Some(c) => Some((s[t..c], c + |CLOSE_DIV|))
      case None => None
  }

  /** The noteText half from a closer at `k`: after the closer, `\s*` takes all the whitespace (giving some back
      cannot help, as the opener starts with `<`); the noteText opener must follow, and the lazy group runs from
      the end of that opener to the first `</div>` after it, where the match ends. */
  lemma NoteTextAfterSpec(s: string, k: nat, style: TagStyle)
    requires k + |CLOSE_DIV| <= |s|
    ensures var n := SkipSpace(s, k + |CLOSE_DIV|);
      match OpenDivAt(s, n, "noteText", style)
      case None => NoteTextAfter(s, k, style).None?
      case Some(t) =>
        match FindFrom(s, CLOSE_DIV, t)
        case None => NoteTextAfter(s, k, style).None?
        case Some(c) =>
          && (forall j :: t <= j < c ==> !StartsAt(s, CLOSE_DIV, j))
          && NoteTextAfter(s, k, style) == Some((s[t..c], c + |CLOSE_DIV|))
  {
    var n := SkipSpace(s, k + |CLOSE_DIV|);
    match OpenDivAt(s, n, "noteText", style)
    case None => NoteTextAfterMissing(s, k, style, n);
    case Some(t) =>
      match FindFrom(s, CLOSE_DIV, t)
      case None => NoteTextAfterUnclosed(s, k, style, n, t);
      case Some(c) => NoteTextAfterAt(s, k, style, n, t, c);
  }

  /** The noteText half from a closer at `k` with the whitespace ending at `n`, the opener there ending at `t`
      and the first `</div>` after it at `c`: the capture runs from `t` to `c`. */
  lemma NoteTextAfterAt(s: string, k: nat, style: TagStyle, n: nat, t: nat, c: nat)
    requires k + |CLOSE_DIV| <= |s| && SkipSpace(s, k + |CLOSE_DIV|) == n
    requires OpenDivAt(s, n, "noteText", style) == Some(t) && FindFrom(s, CLOSE_DIV, t) == Some(c)
    ensures NoteTextAfter(s, k, style) == Some((s[t..c], c + |CLOSE_DIV|))
  {
  }

  /** Without the noteText opener after the whitespace, the noteText half fails. */
  lemma NoteTextAfterMissing(s: string, k: nat, style: TagStyle, n: nat)
    requires k + |CLOSE_DIV| <= |s| && SkipSpace(s, k + |CLOSE_DIV|) == n
    requires OpenDivAt(s, n, "noteText", style).None?
    ensures NoteTextAfter(s, k, style).None?
  {
  }

  /** With the opener but no `</div>` after it, the noteText half fails. */
  lemma NoteTextAfterUnclosed(s: string, k: nat, style: TagStyle, n: nat, t: nat)
    requires k + |CLOSE_DIV| <= |s| && SkipSpace(s, k + |CLOSE_DIV|) == n
    requires OpenDivAt(s, n, "noteText", style) == Some(t) && FindFrom(s, CLOSE_DIV, t).None?
    ensures NoteTextAfter(s, k, style).None?
  {
  }

  /** The first group of the pair regex can end at `e`: a `</div>` is there and the noteText half succeeds from it. */
  predicate PairEnd(s: string, e: nat, style: TagStyle) {
    StartsAt(s, CLOSE_DIV, e) && NoteTextAfter(s, e, style).Some?
  }

  /** The lazy first group of the pair regex, from `q`, tried with each candidate end `k` in turn. */
  function NotePairBody(s: string, q: nat, k: nat, style: TagStyle): (r: Option<Match>)
    requires q <= k
    ensures r.Some? ==> k < r.value.end <= |s|
    decreases |s| - k
  {
    if k + |CLOSE_DIV| > |s| then None
    else if PairEnd(s, k, style) then
      var (text, end) := NoteTextAfter(s, k, style).value;
      Some(Match(s[q..k], text, end))
    else NotePairBody(s, q, k + 1, style)
  }

  /** Laziness of the first group: from `k` on, it ends at the first index from which the rest of the pair
      regex succeeds, and the second group and the end are those of the noteText half there. */
  lemma {:induction false} NotePairBodyAt(s: string, q: nat, k: nat, e: nat, style: TagStyle)
    requires q <= k <= e && PairEnd(s, e, style)
    requires forall j :: k <= j < e ==> !PairEnd(s, j, style)
    ensures NotePairBody(s, q, k, style)
      == Some(Match(s[q..e], NoteTextAfter(s, e, style).value.0, NoteTextAfter(s, e, style).value.1))
    decreases e - k
  {
    if k < e {
      assert !PairEnd(s, k, style);
      var k1 := NotePairBodySkip(s, q, k, style);
      NotePairBodyAt(s, q, k1, e, style);
    }
  }

  /** Where the rest of the pair regex fails, the first group grows by one character. */
  lemma NotePairBodySkip(s: string, q: nat, k: nat, style: TagStyle) returns (k1: nat)
    requires q <= k && !PairEnd(s, k, style)
    ensures k1 == k + 1 && NotePairBody(s, q, k, style) == NotePairBody(s, q, k1, style)
  {
    k1 := k + 1;
  }

  /** With no index from `k` on where the rest of the pair regex succeeds, the first group has no end. */
  lemma {:induction false} NotePairBodyNone(s: string, q: nat, k: nat, style: TagStyle)
    requires q <= k
    requires forall j :: k <= j ==> !PairEnd(s, j, style)
    ensures NotePairBody(s, q, k, style).None?
    decreases |s| - k
  {
    if k + |CLOSE_DIV| <= |s| {
      NotePairBodyNone(s, q, k + 1, style);
    }
  }

  /** The attempt of `re` at index `p`. */
  function AttemptAt(re: Regex, s: string, p: nat): (r: Option<Match>)
    ensures r.Some? ==> p < r.value.end <= |s|
  {
    match re
    case NotePair(style) =>
      (match OpenDivAt(s, p, "noteHeading", style)
       case Some(q) => NotePairBody(s, q, q, style)
       case None => None)
    case DivBlock =>
      if StartsAt(s, "<div", p) then
        match FindFrom(s, ">", p + 4)
        case Some(g) =>
          (match FindFrom(s, CLOSE_DIV, g + 1)
           case Some(c) => Some(Match(s[g + 1..c], "", c + |CLOSE_DIV|))
           case None => None)
        case None => None
      else None
  }

  /** A pair-regex attempt at `p`: the noteHeading opener ends at `q`, its first group runs from `q` to the first
      index `e` where the rest of the regex succeeds, and the rest is the noteText half from `e`. */
  lemma AttemptPairAt(s: string, p: nat, style: TagStyle, q: nat, e: nat)
    requires OpenDivAt(s, p, "noteHeading", style) == Some(q)
    requires q <= e && PairEnd(s, e, style)
    requires forall j :: q <= j < e ==> !PairEnd(s, j, style)
    ensures AttemptAt(NotePair(style), s, p)
      == Some(Match(s[q..e], NoteTextAfter(s, e, style).value.0, NoteTextAfter(s, e, style).value.1))
  {
    NotePairBodyAt(s, q, q, e, style);
  }

  /** A div-regex attempt at `p` with `<div` there: the capture is the text between the first `>` after `<div`
      and the first `</div>` after that `>`, and the match ends after that `</div>`. */
  lemma AttemptDivAt(s: string, p: nat, g: nat, c: nat)
    requires StartsAt(s, "<div", p)
    requires FindFrom(s, ">", p + 4) == Some(g) && FindFrom(s, CLOSE_DIV, g + 1) == Some(c)
    ensures AttemptAt(DivBlock, s, p) == Some(Match(s[g + 1..c], "", c + |CLOSE_DIV|))
  {
  }

  /** No attempt succeeds where the text does not start with `<`: both regexes begin with a `div` opener. */
  lemma AttemptNoTag(re: Regex, s: string, p: nat)
    requires p < |s| ==> s[p] != '<'
    ensures AttemptAt(re, s, p).None?
  {
    NotStartsAtHead(s, "<div", p);
    NotStartsAtHead(s, DivTag("noteHeading"), p);
  }

  lemma CloseDivUnbordered()
    ensures Unbordered(CLOSE_DIV)
  {
  }

  /** `re.exec(s)` with `re.lastIndex == from`: the leftmost match starting at or after `from`. */
  function Next(re: Regex, s: string, from: nat): (r: Option<Match>)
    ensures r.Some? ==> from < r.value.end <= |s|
    decreases |s| - from
  {
    if from > |s| then None
    else
      match AttemptAt(re, s, from)
      case Some(m) => Some(m)
      case None => Next(re, s, from + 1)
  }

  /** `exec` returns the leftmost successful attempt at or after `lastIndex`. */
  lemma {:induction false} NextAt(re: Regex, s: string, from: nat, p: nat)
    requires from <= p && AttemptAt(re, s, p).Some?
    requires forall k :: from <= k < p ==> AttemptAt(re, s, k).None?
    ensures Next(re, s, from) == AttemptAt(re, s, p)
    decreases p - from
  {
    if from < p {
      NextAt(re, s, from + 1, p);
    }
  }

  /** `exec` returns `null` when no attempt at or after `lastIndex` succeeds. */
  lemma {:induction false} NextNone(re: Regex, s: string, from: nat)
    requires forall p :: from <= p <= |s| ==> AttemptAt(re, s, p).None?
    ensures Next(re, s, from).None?
    decreases |s| - from
  {
    if from <= |s| {
      assert AttemptAt(re, s, from).None?;
      NextNone(re, s, from + 1);
    }
  }

  /** When `exec` returns `null`, no attempt at or after `lastIndex` succeeds. */
  lemma {:induction false} NextNoneAll(re: Regex, s: string, from: nat)
    requires Next(re, s, from).None?
    ensures forall p :: from <= p ==> AttemptAt(re, s, p).None?
    decreases |s| - from
  {
    if from <= |s| {
      NextNoneAll(re, s, from + 1);
    } else {
      forall p | from <= p ensures AttemptAt(re, s, p).None? {
        AttemptPastEnd(re, s, p);
      }
    }
  }

  /** No attempt starts beyond the end of the text. */
  lemma AttemptPastEnd(re: Regex, s: string, p: nat)
    requires p > |s|
    ensures AttemptAt(re, s, p).None?
  {
  }

  /** Every match a `while ((m = re.exec(s)) !== null)` loop sees once `lastIndex` is `from`, in order. */
  function AllFrom(re: Regex, s: string, from: nat): (r: seq<Match>)
    ensures forall i :: 0 <= i < |r| ==> from < r[i].end <= |s|
    decreases |s| - from
  {
    match Next(re, s, from)
    case None => []
    case Some(m) => [m] + AllFrom(re, s, m.end)
  }

  /** One turn of the `exec` loop: the match `exec` returns, then the loop from its end. */
  lemma AllFromStep(re: Regex, s: string, from: nat, m: Match)
    requires Next(re, s, from) == Some(m)
    ensures AllFrom(re, s, from) == [m] + AllFrom(re, s, m.end)
  {
  }

  /** The `exec` loop's matches form a chain: the first is what `exec` returns from `from`, each later one is what
      it returns from the end of the one before, and after the last `exec` returns `null`. */
  lemma {:induction false} AllFromChain(re: Regex, s: string, from: nat)
    ensures |AllFrom(re, s, from)| == 0 <==> Next(re, s, from).None?
    ensures |AllFrom(re, s, from)| > 0 ==> Next(re, s, from) == Some(AllFrom(re, s, from)[0])
    ensures forall i :: 0 <= i < |AllFrom(re, s, from)| - 1 ==>
      Next(re, s, AllFrom(re, s, from)[i].end) == Some(AllFrom(re, s, from)[i + 1])
    ensures |AllFrom(re, s, from)| > 0 ==> Next(re, s, AllFrom(re, s, from)[|AllFrom(re, s, from)| - 1].end).None?
    decreases |s| - from
  {
    match Next(re, s, from)
    case None =>
    case Some(m) =>
      AllFromChain(re, s, m.end);
      var r := AllFrom(re, s, from);
      var t := AllFrom(re, s, m.end);
      assert r == [m] + t;
      assert r[0] == m && r[1..] == t;
      forall i | 0 <= i < |r| - 1 ensures Next(re, s, r[i].end) == Some(r[i + 1]) {
        if i == 0 {
          assert r[1] == t[0];
        } else {
          assert r[i] == t[i - 1] && r[i + 1] == t[i];
        }
      }
      if |t| > 0 {
        assert r[|r| - 1] == t[|t| - 1];
      }
  }

  /** Conversely, a chain of matches as `exec` returns them is exactly what the loop collects. */
  lemma {:induction false} AllFromOfChain(re: Regex, s: string, from: nat, ms: seq<Match>)
    requires |ms| == 0 ==> Next(re, s, from).None?
    requires |ms| > 0 ==> Next(re, s, from) == Some(ms[0]) && Next(re, s, ms[|ms| - 1].end).None?
    requires forall i :: 0 <= i < |ms| - 1 ==> Next(re, s, ms[i].end) == Some(ms[i + 1])
    ensures AllFrom(re, s, from) == ms
    decreases |ms|
  {
    if |ms| > 0 {
      var t := ms[1..];
      forall i | 0 <= i < |t| - 1 ensures Next(re, s, t[i].end) == Some(t[i + 1]) {
        assert t[i] == ms[i + 1] && t[i + 1] == ms[i + 2];
      }
      AllFromOfChain(re, s, ms[0].end, t);
      assert ms == [ms[0]] + t;
    }
  }
}

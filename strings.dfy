/**
 * String primitives the parser is built from, over `string` = `seq<char>`:
 * JavaScript's whitespace class (shared by the regex escape `\s` and by
 * `String.prototype.trim`), `trim`, substring search, and `split`/`join` with a
 * non-empty string separator.
 */
module Strings {
  import opened Wrappers

  /** A JavaScript line terminator: the characters the regex `.` does not match without the `s` flag. */
  predicate IsLineTerminator(c: char) {
    c == '\n' || c == '\r' || c == '\U{2028}' || c == '\U{2029}'
  }

  /** JavaScript's WhiteSpace or LineTerminator: what `\s` matches and what `trim` removes. */
  predicate IsSpace(c: char) {
    || c == '\t' || c == '\U{000B}' || c == '\U{000C}' || c == ' '
    || c == '\U{00A0}' || c == '\U{FEFF}' || c == '\U{1680}'
    || ('\U{2000}' <= c <= '\U{200A}')
    || c == '\U{202F}' || c == '\U{205F}' || c == '\U{3000}'
    || IsLineTerminator(c)
  }

  /** No character of `s` is a line terminator. */
  predicate SingleLine(s: string) {
    forall i :: 0 <= i < |s| ==> !IsLineTerminator(s[i])
  }

  /** The end of the run of whitespace starting at `i`: what a greedy `\s*` consumes there. */
  function SkipSpace(s: string, i: nat): (j: nat)
    requires i <= |s|
    ensures i <= j <= |s|
    ensures forall k :: i <= k < j ==> IsSpace(s[k])
    ensures j == |s| || !IsSpace(s[j])
    decreases |s| - i
  {
    if i < |s| && IsSpace(s[i]) then SkipSpace(s, i + 1) else i
  }

  /** The start of the run of whitespace that ends at `j`, not going below `lo`. */
  function SkipSpaceBack(s: string, lo: nat, j: nat): (e: nat)
    requires lo <= j <= |s|
    ensures lo <= e <= j
    ensures forall k :: e <= k < j ==> IsSpace(s[k])
    ensures e == lo || !IsSpace(s[e - 1])
    decreases j
  {
    if j > lo && IsSpace(s[j - 1]) then SkipSpaceBack(s, lo, j - 1) else j
  }

  /** A run of whitespace from `i` to `j` that is not followed by more whitespace is what `\s*` consumes. */
  lemma {:induction false} SkipSpaceTo(s: string, i: nat, j: nat)
    requires i <= j <= |s|
    requires forall k :: i <= k < j ==> IsSpace(s[k])
    requires j == |s| || !IsSpace(s[j])
    ensures SkipSpace(s, i) == j
    decreases j - i
  {
    if i < j {
      SkipSpaceTo(s, i + 1, j);
    }
  }

  /** Neither end of `s` is whitespace. */
  predicate Trimmed(s: string) {
    s == [] || (!IsSpace(s[0]) && !IsSpace(s[|s| - 1]))
  }

  /** `String.prototype.trim`: `s` without its leading and trailing whitespace. The result is a
      contiguous piece of `s`, everything cut off on either side is whitespace, and neither end of
      what is kept is; together these pin the result down. */
  function Trim(s: string): (r: string)
    ensures |r| <= |s|
    ensures Trimmed(r)
    ensures exists b, e ::
              && 0 <= b <= e <= |s| && r == s[b..e]
              && (forall k :: 0 <= k < b ==> IsSpace(s[k]))
              && (forall k :: e <= k < |s| ==> IsSpace(s[k]))
  {
    var b := SkipSpace(s, 0);
    s[b..SkipSpaceBack(s, b, |s|)]
  }

  /** Text made of whitespace only trims to the empty string. */
  lemma TrimAllSpace(s: string)
    requires forall i :: 0 <= i < |s| ==> IsSpace(s[i])
    ensures Trim(s) == ""
  {
    assert SkipSpace(s, 0) == |s|;
  }

  /** Trimming never introduces a line terminator. */
  lemma TrimSingleLine(s: string)
    requires SingleLine(s)
    ensures SingleLine(Trim(s))
  {
    var b := SkipSpace(s, 0);
    var e := SkipSpaceBack(s, b, |s|);
    assert Trim(s) == s[b..e];
    forall i | 0 <= i < e - b ensures !IsLineTerminator(s[b..e][i]) {
      assert s[b..e][i] == s[b + i];
    }
  }

  /** `pat` occurs in `s` at index `k`. */
  predicate StartsAt(s: string, pat: string, k: nat) {
    k + |pat| <= |s| && s[k..k + |pat|] == pat
  }

  /** `s.indexOf(pat, i)`: the first index at or after `i` where `pat` occurs. */
  function FindFrom(s: string, pat: string, i: nat): (r: Option<nat>)
    ensures r.Some? ==> i <= r.value && StartsAt(s, pat, r.value)
    ensures r.Some? ==> forall k :: i <= k < r.value ==> !StartsAt(s, pat, k)
    ensures r.None? ==> forall k :: i <= k ==> !StartsAt(s, pat, k)
    decreases |s| - i
  {
    if i + |pat| > |s| then None
    else if s[i..i + |pat|] == pat then Some(i)
    else FindFrom(s, pat, i + 1)
  }

  predicate Contains(s: string, pat: string) {
    FindFrom(s, pat, 0).Some?
  }

  /** The search fails when `pat` occurs nowhere at or after `i`: the converse of `FindFrom`'s `None` case. */
  lemma {:induction false} FindFromAbsent(s: string, pat: string, i: nat)
    requires forall k :: i <= k ==> !StartsAt(s, pat, k)
    ensures FindFrom(s, pat, i).None?
    decreases |s| - i
  {
    if i + |pat| <= |s| {
      assert !StartsAt(s, pat, i);
      FindFromAbsent(s, pat, i + 1);
    }
  }

  /** A one-character pattern occurs exactly where that character does. */
  lemma StartsAtChar(s: string, c: char, k: nat)
    ensures StartsAt(s, [c], k) <==> k < |s| && s[k] == c
  {
    if k < |s| {
      assert s[k..k + 1] == [s[k]];
    }
  }

  /** The search from `i` stops at `p` when `pat` occurs at `p` and nowhere in between. */
  lemma FindFromAt(s: string, pat: string, i: nat, p: nat)
    requires i <= p && StartsAt(s, pat, p)
    requires forall k :: i <= k < p ==> !StartsAt(s, pat, k)
    ensures FindFrom(s, pat, i) == Some(p)
  {
    var r := FindFrom(s, pat, i);
    assert r.Some?;
  }

  /** The first character of `pat` does not occur again in it, so two occurrences of `pat` never overlap.
      All the markers the parser splits and searches on (`</div>`, the `div` openers) are of this kind. */
  predicate Unbordered(pat: string) {
    |pat| > 0 && forall d :: 0 < d < |pat| ==> pat[d] != pat[0]
  }

  /** With an unbordered `pat` at `p`, and no occurrence inside the text from `i` to `p`, the search from `i`
      finds the one at `p`: no occurrence can start before `p` and run into it. */
  lemma FindAfterFree(s: string, pat: string, i: nat, p: nat)
    requires Unbordered(pat) && i <= p && StartsAt(s, pat, p)
    requires !Contains(s[i..p], pat)
    ensures FindFrom(s, pat, i) == Some(p)
  {
    var t := s[i..p];
    forall k | i <= k < p ensures !StartsAt(s, pat, k) {
      if k + |pat| <= p {
        assert !StartsAt(t, pat, k - i);
        SliceOfSlice(s, i, p, k - i, k - i + |pat|);
      } else if k + |pat| <= |s| {
        assert s[k..k + |pat|][p - k] == s[p] == s[p..p + |pat|][0] == pat[0];
      }
    }
    FindFromAt(s, pat, i, p);
  }

  /** A slice of a slice is a slice of the whole. */
  lemma SliceOfSlice(s: string, i: nat, p: nat, a: nat, b: nat)
    requires i <= p <= |s| && a <= b <= p - i
    ensures s[i..p][a..b] == s[i + a..i + b]
  {
    forall j | 0 <= j < b - a ensures s[i..p][a..b][j] == s[i + a..i + b][j] {
    }
  }

  /** An occurrence inside a prefix of `s` is an occurrence in `s`. */
  lemma StartsAtPrefix(s: string, n: nat, pat: string, k: nat)
    requires n <= |s| && StartsAt(s[..n], pat, k)
    ensures StartsAt(s, pat, k)
  {
    assert s[..n][k..k + |pat|] == s[k..k + |pat|];
  }

  /** A pattern cannot occur where the text does not start with the pattern's first character. */
  lemma NotStartsAtHead(s: string, pat: string, k: nat)
    requires |pat| > 0 && (k < |s| ==> s[k] != pat[0])
    ensures !StartsAt(s, pat, k)
  {
    if k + |pat| <= |s| {
      assert s[k..k + |pat|][0] == s[k];
    }
  }

  /** A piece of `s` that is the concatenation `a + b` splits into a piece `a` followed by a piece `b`. */
  lemma SliceSplit(s: string, p: nat, a: string, b: string)
    requires p + |a| + |b| <= |s| && s[p..p + |a| + |b|] == a + b
    ensures s[p..p + |a|] == a && s[p + |a|..p + |a| + |b|] == b
  {
    assert s[p..p + |a|] == s[p..p + |a| + |b|][..|a|];
    assert s[p + |a|..p + |a| + |b|] == s[p..p + |a| + |b|][|a|..];
  }

  /** A suffix of `s` that is the concatenation `a + b` starts with `a`, and `b` is the suffix after it. */
  lemma SuffixSplit(s: string, p: nat, a: string, b: string)
    requires p <= |s| && s[p..] == a + b
    ensures p + |a| <= |s| && s[p..p + |a|] == a && s[p + |a|..] == b
  {
    assert s[p..p + |a|] == s[p..][..|a|];
    assert s[p + |a|..] == s[p..][|a|..];
  }

  /** Text without `<` holds no pattern that starts with `<`. */
  lemma NoLessFree(s: string, pat: string)
    requires |pat| > 0 && pat[0] == '<'
    requires forall i :: 0 <= i < |s| ==> s[i] != '<'
    ensures !Contains(s, pat)
  {
    forall k | 0 <= k ensures !StartsAt(s, pat, k) {
      if k + |pat| <= |s| {
        assert s[k..k + |pat|][0] == s[k];
      }
    }
    FindFromAbsent(s, pat, 0);
  }

  /** `s.split(sep)` for a non-empty string separator: the pieces between the non-overlapping occurrences of `sep`, left to right. */
  function Split(s: string, sep: string): (r: seq<string>)
    requires |sep| > 0
    ensures |r| >= 1
    decreases |s|
  {
    match FindFrom(s, sep, 0)
    case None => [s]
    case Some(i) => [s[..i]] + Split(s[i + |sep|..], sep)
  }

  /** `parts.join(sep)`. */
  function Join(parts: seq<string>, sep: string): string {
    if |parts| == 0 then ""
    else if |parts| == 1 then parts[0]
    else parts[0] + sep + Join(parts[1..], sep)
  }

  /** Joining the pieces of a split with the same separator gives back the original string. */
  lemma {:induction false} JoinSplit(s: string, sep: string)
    requires |sep| > 0
    ensures Join(Split(s, sep), sep) == s
    decreases |s|
  {
    match FindFrom(s, sep, 0)
    case None =>
    case Some(i) =>
      var rest := s[i + |sep|..];
      var parts := Split(s, sep);
      JoinSplit(rest, sep);
      assert parts == [s[..i]] + Split(rest, sep);
      assert parts[1..] == Split(rest, sep);
      assert Join(parts, sep) == s[..i] + sep + Join(Split(rest, sep), sep);
      calc {
        s;
        s[..i] + s[i..i + |sep|] + s[i + |sep|..];
        s[..i] + sep + rest;
      }
  }

  /** No piece of a split contains the separator. */
  lemma {:induction false} SplitPiecesFree(s: string, sep: string)
    requires |sep| > 0
    ensures forall k :: 0 <= k < |Split(s, sep)| ==> !Contains(Split(s, sep)[k], sep)
    decreases |s|
  {
    match FindFrom(s, sep, 0)
    case None =>
    case Some(i) =>
      var rest := s[i + |sep|..];
      SplitPiecesFree(rest, sep);
      assert Split(s, sep) == [s[..i]] + Split(rest, sep);
      if Contains(s[..i], sep) {
        var j := FindFrom(s[..i], sep, 0).value;
        StartsAtPrefix(s, i, sep, j);
        assert false;
      }
  }

  /** The split has more than one piece exactly when the separator occurs; otherwise it is the whole string. */
  lemma SplitCount(s: string, sep: string)
    requires |sep| > 0
    ensures |Split(s, sep)| > 1 <==> Contains(s, sep)
    ensures !Contains(s, sep) ==> Split(s, sep) == [s]
  {
    match FindFrom(s, sep, 0)
    case None =>
    case Some(i) =>
      assert Split(s, sep) == [s[..i]] + Split(s[i + |sep|..], sep);
  }

  /** Text without an unbordered pattern, the pattern and more text from `q`: the search from `q` finds the
      pattern right after that text. */
  lemma FindAfterSuffix(s: string, q: nat, c: string, pat: string, b: string) returns (r: nat)
    requires Unbordered(pat) && !Contains(c, pat)
    requires q <= |s| && s[q..] == c + (pat + b)
    ensures r == q + |c| && r + |pat| <= |s| && s[q..r] == c && s[r + |pat|..] == b
    ensures FindFrom(s, pat, q) == Some(r)
  {
    r := q + |c|;
    SuffixSplit(s, q, c, pat + b);
    SuffixSplit(s, r, pat, b);
    FindAfterFree(s, pat, q, r);
  }

  /** Splitting text that starts with a piece without the separator, then the separator: that piece, then the
      pieces of the rest. */
  lemma SplitAt(a: string, sep: string, b: string)
    requires Unbordered(sep) && !Contains(a, sep)
    ensures Split(a + (sep + b), sep) == [a] + Split(b, sep)
  {
    var s := a + (sep + b);
    var r := FindAfterSuffix(s, 0, a, sep, b);
    assert s[..r] == s[0..r];
    var t := SplitFound(s, sep, r);
  }

  /** With the first separator at `i`, the split is the text before it, then the split of the text after it. */
  lemma SplitFound(s: string, sep: string, i: nat) returns (t: nat)
    requires |sep| > 0 && FindFrom(s, sep, 0) == Some(i)
    ensures t == i + |sep| && t <= |s| && Split(s, sep) == [s[..i]] + Split(s[t..], sep)
  {
    t := i + |sep|;
  }

  /** When the separator occurs, the first piece is the text before its first occurrence and the
      re-joined remaining pieces are the text after it. */
  lemma SplitAroundFirst(s: string, sep: string, i: nat)
    requires |sep| > 0 && FindFrom(s, sep, 0) == Some(i)
    ensures Split(s, sep)[0] == s[..i]
    ensures Join(Split(s, sep)[1..], sep) == s[i + |sep|..]
  {
    var t := SplitFound(s, sep, i);
    var rest := s[t..];
    assert Split(s, sep)[1..] == Split(rest, sep);
    JoinSplit(rest, sep);
    assert Join(Split(s, sep)[1..], sep) == rest;
  }

  /** Dropping everything before the first occurrence of the separator leaves the pieces after it unchanged. */
  lemma SplitDropPrefix(s: string, sep: string)
    requires |sep| > 0 && Contains(s, sep)
    ensures var i := FindFrom(s, sep, 0).value;
      Contains(s[i..], sep) && Split(s[i..], sep)[1..] == Split(s, sep)[1..]
  {
    var i := FindFrom(s, sep, 0).value;
    var t := s[i..];
    assert t[0..|sep|] == s[i..i + |sep|];
    assert FindFrom(t, sep, 0) == Some(0);
    var u := SplitFound(t, sep, 0);
    var v := SplitFound(s, sep, i);
    assert t[u..] == s[v..];
    assert Split(t, sep)[1..] == Split(t[u..], sep);
    assert Split(s, sep)[1..] == Split(s[v..], sep);
  }

  /** Splitting pieces joined with an unbordered separator that none of them contains gives the pieces back. */
  lemma {:induction false} SplitJoin(pieces: seq<string>, sep: string)
    requires |pieces| > 0 && Unbordered(sep)
    requires forall i :: 0 <= i < |pieces| ==> !Contains(pieces[i], sep)
    ensures Split(Join(pieces, sep), sep) == pieces
    decreases |pieces|
  {
    if |pieces| == 1 {
      SplitCount(pieces[0], sep);
    } else {
      var rest := Join(pieces[1..], sep);
      assert Join(pieces, sep) == pieces[0] + (sep + rest);
      SplitAt(pieces[0], sep, rest);
      SplitJoin(pieces[1..], sep);
      assert pieces == [pieces[0]] + pieces[1..];
    }
  }

  /** Concatenation regrouped; the loops that append to a buffer use it at every step. */
  lemma AppendAssoc<T>(a: seq<T>, b: seq<T>, c: seq<T>)
    ensures a + (b + c) == (a + b) + c
  {
  }
}

/** Tag removal: `stripHtml` of src/kindle-parser.ts. */
module Markup {
  import opened Wrappers
  import opened Strings

  /** No `<` in `s` is followed, later on, by a `>`: the span regex `/<[^>]*>/` has nothing left to match. */
  predicate TagFree(s: string) {
    forall i, j :: 0 <= i < j < |s| && s[i] == '<' ==> s[j] != '>'
  }

  /** `html.replace(/<[^>]*>/g, '')`: scanning left to right, every `<` that has a `>` somewhere after it
      starts a match that runs to the first such `>`, and the match is deleted; all other characters are kept. */
  function StripHtml(s: string): (r: string)
    ensures |r| <= |s|
    decreases |s|
  {
    if s == [] then []
    else if s[0] == '<' && FindFrom(s, ">", 1).Some? then StripHtml(s[FindFrom(s, ">", 1).value + 1..])
    else [s[0]] + StripHtml(s[1..])
  }

  /** Text without `>` has no tag to remove, and is returned unchanged. */
  lemma {:induction false} StripNoGreater(s: string)
    requires forall i :: 0 <= i < |s| ==> s[i] != '>'
    ensures StripHtml(s) == s
    decreases |s|
  {
    if s != [] {
      if FindFrom(s, ">", 1).Some? {
        StartsAtChar(s, '>', FindFrom(s, ">", 1).value);
      }
      StripNoGreater(s[1..]);
    }
  }

  /** Text without `<` is returned unchanged. */
  lemma {:induction false} StripNoLess(s: string)
    requires forall i :: 0 <= i < |s| ==> s[i] != '<'
    ensures StripHtml(s) == s
    decreases |s|
  {
    if s != [] {
      StripNoLess(s[1..]);
    }
  }

  /** Stripping leaves no tag behind: every `<` that survives has no `>` after it. */
  lemma {:induction false} StripLeavesNoTag(s: string)
    ensures TagFree(StripHtml(s))
    decreases |s|
  {
    if s == [] {
    } else if s[0] == '<' && FindFrom(s, ">", 1).Some? {
      StripLeavesNoTag(s[FindFrom(s, ">", 1).value + 1..]);
    } else {
      StripLeavesNoTag(s[1..]);
      var t := StripHtml(s[1..]);
      assert StripHtml(s) == [s[0]] + t;
      if s[0] == '<' {
        // no `>` at all after the `<`, so the rest is copied verbatim
        NoGreaterAfter(s);
        StripNoGreater(s[1..]);
        assert t == s[1..];
      }
      TagFreeCons(s[0], t);
    }
  }

  /** With no `>` found from index 1, none occurs after the first character. */
  lemma NoGreaterAfter(s: string)
    requires |s| > 0 && FindFrom(s, ">", 1).None?
    ensures forall k :: 0 <= k < |s[1..]| ==> s[1..][k] != '>'
  {
    forall k | 0 <= k < |s[1..]| ensures s[1..][k] != '>' {
      StartsAtChar(s, '>', k + 1);
    }
  }

  /** A character in front of tag-free text keeps it tag-free, if a `<` there has no `>` after it. */
  lemma TagFreeCons(c: char, t: string)
    requires TagFree(t)
    requires c == '<' ==> forall k :: 0 <= k < |t| ==> t[k] != '>'
    ensures TagFree([c] + t)
  {
    var x := [c] + t;
    forall i, j | 0 <= i < j < |x| && x[i] == '<' ensures x[j] != '>' {
      assert x[j] == t[j - 1];
      if i > 0 {
        assert x[i] == t[i - 1];
      }
    }
  }

  /** Text without a tag is a fixed point of stripping. */
  lemma {:induction false} StripTagFree(s: string)
    requires TagFree(s)
    ensures StripHtml(s) == s
    decreases |s|
  {
    if s != [] {
      if s[0] == '<' {
        forall k | 0 <= k < |s| - 1 ensures s[1..][k] != '>' {
          assert s[1..][k] == s[k + 1];
        }
        if FindFrom(s, ">", 1).Some? {
          StartsAtChar(s, '>', FindFrom(s, ">", 1).value);
        }
        StripNoGreater(s[1..]);
      } else {
        forall i, j | 0 <= i < j < |s| - 1 && s[1..][i] == '<' ensures s[1..][j] != '>' {
          assert s[1..][i] == s[i + 1] && s[1..][j] == s[j + 1];
        }
        StripTagFree(s[1..]);
      }
    }
  }

  /** A tag `<t>` is removed whole and the text before it, which holds no `<`, is kept: stripping works
      one tag at a time from the left. */
  lemma {:induction false} StripAroundTag(a: string, t: string, b: string)
    requires forall i :: 0 <= i < |a| ==> a[i] != '<'
    requires forall i :: 0 <= i < |t| ==> t[i] != '>'
    ensures StripHtml(a + "<" + t + ">" + b) == a + StripHtml(b)
    decreases |a|
  {
    var s := a + "<" + t + ">" + b;
    if a == [] {
      assert s == "<" + t + ">" + b;
      var g := 1 + |t|;
      StartsAtChar(s, '>', g);
      forall k | 1 <= k < g ensures !StartsAt(s, ">", k) {
        assert s[k] == t[k - 1];
        StartsAtChar(s, '>', k);
      }
      assert FindFrom(s, ">", 1) == Some(g);
      assert s[g + 1..] == b;
    } else {
      assert s[1..] == a[1..] + "<" + t + ">" + b;
      StripAroundTag(a[1..], t, b);
    }
  }

  /** A leading tag is dropped whole. */
  lemma StripLeadingTag(t: string, b: string)
    requires forall i :: 0 <= i < |t| ==> t[i] != '>'
    ensures StripHtml("<" + t + ">" + b) == StripHtml(b)
  {
    assert "<" + t + ">" + b == [] + "<" + t + ">" + b;
    StripAroundTag([], t, b);
  }

  /** A trailing tag is dropped whole and the text before it, which holds no `<`, is kept. */
  lemma StripTrailingTag(a: string, t: string)
    requires forall i :: 0 <= i < |a| ==> a[i] != '<'
    requires forall i :: 0 <= i < |t| ==> t[i] != '>'
    ensures StripHtml(a + "<" + t + ">") == a
  {
    assert a + "<" + t + ">" == a + "<" + t + ">" + [];
    StripAroundTag(a, t, []);
  }

  /** Text without `<` between an opening and a closing tag comes out as just the text. */
  lemma StripWrapped(x: string, open: string, close: string)
    requires forall i :: 0 <= i < |x| ==> x[i] != '<'
    requires forall i :: 0 <= i < |open| ==> open[i] != '>'
    requires forall i :: 0 <= i < |close| ==> close[i] != '>'
    ensures StripHtml("<" + open + ">" + (x + "<" + close + ">")) == x
  {
    StripLeadingTag(open, x + "<" + close + ">");
    StripTrailingTag(x, close);
  }

  /** The first stripping example of the test suite, `<div>Simple text</div>`. */
  lemma StripDivExample()
    ensures StripHtml("<div>" + "Simple text" + "</div>") == "Simple text"
  {
    assert "<div>" + "Simple text" + "</div>" == "<" + "div" + ">" + ("Simple text" + "<" + "/div" + ">");
    StripWrapped("Simple text", "div", "/div");
  }

  /** The second stripping example of the test suite, `<span style="color:red">Red text</span>`. */
  lemma StripSpanExample()
    ensures StripHtml("<span style=\"color:red\">" + "Red text" + "</span>") == "Red text"
  {
    assert "<span style=\"color:red\">" + "Red text" + "</span>"
      == "<" + "span style=\"color:red\"" + ">" + ("Red text" + "<" + "/span" + ">");
    StripWrapped("Red text", "span style=\"color:red\"", "/span");
  }

  /** Stripping twice is stripping once. */
  lemma StripIdempotent(s: string)
    ensures StripHtml(StripHtml(s)) == StripHtml(s)
  {
    StripLeavesNoTag(s);
    StripTagFree(StripHtml(s));
  }
}

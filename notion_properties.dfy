/**
 * What the page layout of src/notion.ts guarantees: the grouping keeps every highlight exactly once and in
 * order, `Object.entries` lists each group once, every request stays within the block limit, and the blocks
 * sent are a heading per group followed by a heading/paragraph pair per highlight.
 */
module NotionProperties {
  import opened Wrappers
  import opened Strings
  import opened Types
  import opened Notion

  // ---------------------------------------------------------------------------------------------
  // The grouping

  predicate Distinct(s: seq<string>) {
    forall i, j :: 0 <= i < j < |s| ==> s[i] != s[j]
  }

  /** Without its first element a list of distinct strings stays distinct and no longer holds that element. */
  lemma DistinctTail(s: seq<string>)
    requires Distinct(s) && s != []
    ensures Distinct(s[1..]) && s[0] !in s[1..]
  {
    forall i, j | 0 <= i < j < |s[1..]| ensures s[1..][i] != s[1..][j] {
      assert s[1..][i] == s[i + 1] && s[1..][j] == s[j + 1];
    }
    forall m | 0 <= m < |s[1..]| ensures s[1..][m] != s[0] {
      assert s[1..][m] == s[m + 1];
    }
  }

  /** A new string in front of a list of distinct strings keeps it distinct. */
  lemma DistinctCons(a: string, t: seq<string>)
    requires Distinct(t) && a !in t
    ensures Distinct([a] + t)
  {
    forall i, j | 0 <= i < j < |[a] + t| ensures ([a] + t)[i] != ([a] + t)[j] {
      assert ([a] + t)[j] == t[j - 1];
      if i > 0 {
        assert ([a] + t)[i] == t[i - 1];
      }
    }
  }

  /** The record's keys list each key once, the entries are exactly those keys, and no list is empty. */
  ghost predicate WellFormed(secs: Sections) {
    && Distinct(secs.keys)
    && (forall k :: k in secs.entries <==> k in secs.keys)
    && (forall k :: k in secs.entries ==> k != "" && secs.entries[k] != [])
  }

  lemma {:induction false} OrganizeWellFormed(hs: seq<Highlight>)
    ensures WellFormed(Organize(hs))
    decreases |hs|
  {
    if hs != [] {
      OrganizeWellFormed(hs[..|hs| - 1]);
    }
  }

  /** The highlights filed under `k`, in input order. */
  function Select(hs: seq<Highlight>, k: string): seq<Highlight>
    decreases |hs|
  {
    if hs == [] then []
    else Select(hs[..|hs| - 1], k) + if SectionKey(hs[|hs| - 1]) == k then [hs[|hs| - 1]] else []
  }

  /** Each group is exactly the highlights with that key, in the order they came. */
  lemma {:induction false} OrganizeSelect(hs: seq<Highlight>, k: string)
    ensures Entry(Organize(hs), k) == Select(hs, k)
    decreases |hs|
  {
    if hs != [] {
      OrganizeSelect(hs[..|hs| - 1], k);
    }
  }

  lemma {:induction false} SelectEmpty(hs: seq<Highlight>, k: string)
    ensures Select(hs, k) == [] <==> forall i :: 0 <= i < |hs| ==> SectionKey(hs[i]) != k
    decreases |hs|
  {
    if hs != [] {
      var p := hs[..|hs| - 1];
      SelectEmpty(p, k);
      assert forall i :: 0 <= i < |p| ==> p[i] == hs[i];
    }
  }

  /** A key is in the record exactly when some highlight is filed under it. */
  lemma OrganizeDomain(hs: seq<Highlight>, k: string)
    ensures k in Organize(hs).entries <==> exists i :: 0 <= i < |hs| && SectionKey(hs[i]) == k
  {
    OrganizeWellFormed(hs);
    OrganizeSelect(hs, k);
    SelectEmpty(hs, k);
  }

  /** Grouping a prefix yields a prefix of the keys: the keys come in order of first appearance. */
  lemma {:induction false} OrganizeKeysPrefix(hs: seq<Highlight>, n: nat)
    requires n <= |hs|
    ensures Organize(hs[..n]).keys <= Organize(hs).keys
    decreases |hs|
  {
    if n < |hs| {
      var p := hs[..|hs| - 1];
      assert p[..n] == hs[..n];
      OrganizeKeysPrefix(p, n);
    } else {
      assert hs[..n] == hs;
    }
  }

  // ---------------------------------------------------------------------------------------------
  // How many highlights the groups hold

  function Get(e: map<string, seq<Highlight>>, k: string): seq<Highlight> {
    if k in e then e[k] else []
  }

  /** The number of highlights in the groups named by `order`. */
  function Total(e: map<string, seq<Highlight>>, order: seq<string>): nat
    decreases |order|
  {
    if order == [] then 0 else Total(e, order[..|order| - 1]) + |Get(e, order[|order| - 1])|
  }

  lemma {:induction false} TotalAppend(e: map<string, seq<Highlight>>, a: seq<string>, b: seq<string>)
    ensures Total(e, a + b) == Total(e, a) + Total(e, b)
    decreases |b|
  {
    if b == [] {
      assert a + b == a;
    } else {
      var b' := b[..|b| - 1];
      assert (a + b)[..|a + b| - 1] == a + b';
      TotalAppend(e, a, b');
    }
  }

  lemma TotalSingle(e: map<string, seq<Highlight>>, k: string)
    ensures Total(e, [k]) == |Get(e, k)|
  {
    assert [k][..0] == [];
  }

  /** Changing the list of a key not in `order` changes nothing. */
  lemma {:induction false} TotalOutside(e: map<string, seq<Highlight>>, order: seq<string>, k: string, v: seq<Highlight>)
    requires forall i :: 0 <= i < |order| ==> order[i] != k
    ensures Total(e[k := v], order) == Total(e, order)
    decreases |order|
  {
    if order != [] {
      TotalOutside(e, order[..|order| - 1], k, v);
    }
  }

  /** Replacing the list of a key listed once in `order` replaces its share of the total. */
  lemma {:induction false} TotalReplace(e: map<string, seq<Highlight>>, order: seq<string>, k: string, v: seq<Highlight>)
    requires Distinct(order) && k in order
    ensures Total(e[k := v], order) + |Get(e, k)| == Total(e, order) + |v|
    decreases |order|
  {
    var p := order[..|order| - 1];
    var last := order[|order| - 1];
    if last == k {
      forall i | 0 <= i < |p| ensures p[i] != k {
        assert p[i] == order[i];
      }
      TotalOutside(e, p, k, v);
    } else {
      assert k in p by {
        var i :| 0 <= i < |order| && order[i] == k;
        assert p[i] == k;
      }
      TotalReplace(e, p, k, v);
    }
  }

  /** The groups together hold as many highlights as the input. */
  lemma {:induction false} OrganizeTotal(hs: seq<Highlight>)
    ensures Total(Organize(hs).entries, Organize(hs).keys) == |hs|
    decreases |hs|
  {
    if hs != [] {
      var p := hs[..|hs| - 1];
      var h := hs[|hs| - 1];
      var secs := Organize(p);
      var k := SectionKey(h);
      OrganizeTotal(p);
      OrganizeWellFormed(p);
      if k in secs.entries {
        TotalReplace(secs.entries, secs.keys, k, secs.entries[k] + [h]);
      } else {
        TotalOutside(secs.entries, secs.keys, k, [h]);
        assert (secs.keys + [k])[..|secs.keys|] == secs.keys;
      }
    }
  }

  // ---------------------------------------------------------------------------------------------
  // The enumeration order

  lemma {:induction false} SplitKeys(e: map<string, seq<Highlight>>, keys: seq<string>)
    ensures Total(e, IndexKeys(keys)) + Total(e, OtherKeys(keys)) == Total(e, keys)
    decreases |keys|
  {
    if keys != [] {
      var p := keys[..|keys| - 1];
      var k := keys[|keys| - 1];
      SplitKeys(e, p);
      TotalSingle(e, k);
      if IsArrayIndex(k) {
        assert IndexKeys(keys) == IndexKeys(p) + [k];
        TotalAppend(e, IndexKeys(p), [k]);
        assert OtherKeys(keys) == OtherKeys(p) + [] == OtherKeys(p);
      } else {
        TotalAppend(e, OtherKeys(p), [k]);
        assert IndexKeys(keys) == IndexKeys(p) + [] == IndexKeys(p);
      }
    }
  }

  lemma {:induction false} SplitKeysPermutation(keys: seq<string>)
    ensures multiset(IndexKeys(keys)) + multiset(OtherKeys(keys)) == multiset(keys)
    decreases |keys|
  {
    if keys != [] {
      var p := keys[..|keys| - 1];
      var k := keys[|keys| - 1];
      SplitKeysPermutation(p);
      assert keys == p + [k];
      assert multiset(keys) == multiset(p) + multiset{k};
    }
  }

  lemma {:induction false} InsertKeeps(e: map<string, seq<Highlight>>, x: string, s: seq<string>)
    ensures Total(e, InsertByValue(x, s)) == Total(e, s) + |Get(e, x)|
    decreases |s|
  {
    TotalSingle(e, x);
    if s == [] || DecimalValue(x) <= DecimalValue(s[0]) {
      TotalAppend(e, [x], s);
    } else {
      TotalSingle(e, s[0]);
      InsertKeeps(e, x, s[1..]);
      TotalAppend(e, [s[0]], InsertByValue(x, s[1..]));
      TotalAppend(e, [s[0]], s[1..]);
      assert s == [s[0]] + s[1..];
    }
  }

  lemma {:induction false} InsertPermutation(x: string, s: seq<string>)
    ensures multiset(InsertByValue(x, s)) == multiset(s) + multiset{x}
    decreases |s|
  {
    if s != [] && DecimalValue(x) > DecimalValue(s[0]) {
      InsertPermutation(x, s[1..]);
      assert s == [s[0]] + s[1..];
    }
  }

  lemma {:induction false} SortKeeps(e: map<string, seq<Highlight>>, s: seq<string>)
    ensures Total(e, SortByValue(s)) == Total(e, s)
    decreases |s|
  {
    if s != [] {
      SortKeeps(e, s[1..]);
      InsertKeeps(e, s[0], SortByValue(s[1..]));
      TotalSingle(e, s[0]);
      TotalAppend(e, [s[0]], s[1..]);
      assert s == [s[0]] + s[1..];
    }
  }

  lemma {:induction false} SortPermutation(s: seq<string>)
    ensures multiset(SortByValue(s)) == multiset(s)
    decreases |s|
  {
    if s != [] {
      SortPermutation(s[1..]);
      InsertPermutation(s[0], SortByValue(s[1..]));
      assert s == [s[0]] + s[1..];
    }
  }

  /** The enumeration order lists the same keys, so the groups it walks through hold the same total. */
  lemma EntryOrderKeeps(e: map<string, seq<Highlight>>, keys: seq<string>)
    ensures Total(e, EntryOrder(keys)) == Total(e, keys)
    ensures multiset(EntryOrder(keys)) == multiset(keys)
  {
    SplitKeys(e, keys);
    SplitKeysPermutation(keys);
    SortKeeps(e, IndexKeys(keys));
    SortPermutation(IndexKeys(keys));
    TotalAppend(e, SortByValue(IndexKeys(keys)), OtherKeys(keys));
  }

  predicate AscendingValues(s: seq<string>) {
    forall i, j :: 0 <= i < j < |s| ==> DecimalValue(s[i]) <= DecimalValue(s[j])
  }

  lemma {:induction false} InsertAscending(x: string, s: seq<string>)
    requires AscendingValues(s)
    ensures AscendingValues(InsertByValue(x, s))
    decreases |s|
  {
    if s != [] && DecimalValue(x) > DecimalValue(s[0]) {
      InsertAscending(x, s[1..]);
      var t := InsertByValue(x, s[1..]);
      InsertPermutation(x, s[1..]);
      forall j | 0 <= j < |t| ensures DecimalValue(s[0]) <= DecimalValue(t[j]) {
        assert t[j] in multiset(s[1..]) + multiset{x};
        if t[j] != x {
          var m :| 0 <= m < |s[1..]| && s[1..][m] == t[j];
          assert s[1..][m] == s[m + 1];
        }
      }
    }
  }

  lemma {:induction false} SortAscending(s: seq<string>)
    ensures AscendingValues(SortByValue(s))
    decreases |s|
  {
    if s != [] {
      SortAscending(s[1..]);
      InsertAscending(s[0], SortByValue(s[1..]));
    }
  }

  lemma {:induction false} IndexKeysAll(keys: seq<string>)
    ensures forall i :: 0 <= i < |IndexKeys(keys)| ==> IsArrayIndex(IndexKeys(keys)[i])
    ensures forall i :: 0 <= i < |OtherKeys(keys)| ==> !IsArrayIndex(OtherKeys(keys)[i])
    decreases |keys|
  {
    if keys != [] {
      IndexKeysAll(keys[..|keys| - 1]);
    }
  }

  /** `Object.entries` puts the array-index keys first, ascending by value, and then every other key. */
  lemma EntryOrderShape(keys: seq<string>)
    ensures var n := |IndexKeys(keys)|;
      && n <= |EntryOrder(keys)|
      && (forall i :: 0 <= i < n ==> IsArrayIndex(EntryOrder(keys)[i]))
      && AscendingValues(EntryOrder(keys)[..n])
      && (forall i :: n <= i < |EntryOrder(keys)| ==> !IsArrayIndex(EntryOrder(keys)[i]))
  {
    var idx := IndexKeys(keys);
    var sorted := SortByValue(idx);
    var other := OtherKeys(keys);
    IndexKeysAll(keys);
    SortIndexKeys(idx);
    var r := sorted + other;
    assert r == EntryOrder(keys);
    assert r[..|idx|] == sorted;
    forall i | 0 <= i < |idx| ensures IsArrayIndex(r[i]) {
      assert r[i] == sorted[i];
    }
    forall i | |idx| <= i < |r| ensures !IsArrayIndex(r[i]) {
      assert r[i] == other[i - |idx|];
    }
  }

  /** Sorting array-index keys keeps their number and gives ascending array-index keys. */
  lemma SortIndexKeys(idx: seq<string>)
    requires forall i :: 0 <= i < |idx| ==> IsArrayIndex(idx[i])
    ensures |SortByValue(idx)| == |idx| && AscendingValues(SortByValue(idx))
    ensures forall i :: 0 <= i < |SortByValue(idx)| ==> IsArrayIndex(SortByValue(idx)[i])
  {
    var sorted := SortByValue(idx);
    SortAscending(idx);
    SortPermutation(idx);
    assert |sorted| == |idx| by {
      assert |multiset(sorted)| == |multiset(idx)|;
    }
    forall i | 0 <= i < |sorted| ensures IsArrayIndex(sorted[i]) {
      assert sorted[i] in multiset(idx);
    }
  }

  lemma {:induction false} PlainKeys(keys: seq<string>)
    requires forall i :: 0 <= i < |keys| ==> !IsArrayIndex(keys[i])
    ensures IndexKeys(keys) == [] && OtherKeys(keys) == keys
    decreases |keys|
  {
    if keys != [] {
      var p := keys[..|keys| - 1];
      PlainKeys(p);
      assert keys == p + [keys[|keys| - 1]];
    }
  }

  /** Without array-index keys the enumeration order is the insertion order. */
  lemma EntryOrderPlain(keys: seq<string>)
    requires forall i :: 0 <= i < |keys| ==> !IsArrayIndex(keys[i])
    ensures EntryOrder(keys) == keys
  {
    PlainKeys(keys);
  }

  /** Section names that are numbers are moved ahead of the other sections. */
  lemma NumberedSectionFirst()
    ensures EntryOrder(["Preface", "1"]) == ["1", "Preface"]
  {
    assert DecimalValue("1") == 1;
    assert IsArrayIndex("1");
    assert !IsArrayIndex("Preface") by {
      assert !IsDigit("Preface"[0]);
    }
    assert IndexKeys(["Preface", "1"]) == ["1"] by {
      assert ["Preface", "1"][..1] == ["Preface"];
      assert ["Preface"][..0] == [];
    }
    assert OtherKeys(["Preface", "1"]) == ["Preface"] by {
      assert ["Preface", "1"][..1] == ["Preface"];
      assert ["Preface"][..0] == [];
    }
  }

  // ---------------------------------------------------------------------------------------------
  // Blocks and requests

  /** Two blocks per highlight: its `heading_3`, then its paragraph in its mapped colour. */
  lemma {:induction false} BlocksShape(hs: seq<Highlight>)
    ensures |BlocksOf(hs)| == 2 * |hs|
    ensures forall k :: 0 <= k < |hs| ==>
      BlocksOf(hs)[2 * k] == Heading3(hs[k].heading)
      && BlocksOf(hs)[2 * k + 1] == Paragraph(hs[k].text, MapHighlightColor(hs[k].highlightColor))
    decreases |hs|
  {
    if hs != [] {
      var p := hs[..|hs| - 1];
      BlocksShape(p);
      forall k | 0 <= k < |p| ensures p[k] == hs[k] {
      }
    }
  }

  lemma {:induction false} BlocksAppend(a: seq<Highlight>, b: seq<Highlight>)
    ensures BlocksOf(a + b) == BlocksOf(a) + BlocksOf(b)
    decreases |b|
  {
    if b == [] {
      assert a + b == a;
    } else {
      var b' := b[..|b| - 1];
      assert (a + b)[..|a + b| - 1] == a + b';
      BlocksAppend(a, b');
      AppendAssoc(BlocksOf(a), BlocksOf(b'), HighlightBlocks(b[|b| - 1]));
    }
  }

  function Flatten<T>(ss: seq<seq<T>>): seq<T>
    decreases |ss|
  {
    if ss == [] then [] else ss[0] + Flatten(ss[1..])
  }

  lemma {:induction false} FlattenAppend<T>(a: seq<seq<T>>, b: seq<seq<T>>)
    ensures Flatten(a + b) == Flatten(a) + Flatten(b)
    decreases |a|
  {
    if a == [] {
      assert a + b == b;
    } else {
      assert (a + b)[1..] == a[1..] + b;
      FlattenAppend(a[1..], b);
      AppendAssoc(a[0], Flatten(a[1..]), Flatten(b));
    }
  }

  /** The batches of a section, laid end to end, are the section's highlights from `i` on. */
  lemma {:induction false} BatchesFlatten(hs: seq<Highlight>, i: nat)
    requires i <= |hs|
    ensures Flatten(BatchesFrom(hs, i)) == hs[i..]
    decreases |hs| - i
  {
    if i < |hs| {
      var m := Min(i + BATCH_SIZE, |hs|);
      var rest := BatchesFrom(hs, i + BATCH_SIZE);
      assert ([hs[i..m]] + rest)[1..] == rest;
      if i + BATCH_SIZE <= |hs| {
        BatchesFlatten(hs, i + BATCH_SIZE);
        assert hs[i..] == hs[i..m] + hs[m..];
      } else {
        assert rest == [];
        assert hs[i..m] + [] == hs[i..];
      }
    }
  }

  /** No batch is empty or holds more than `MAX_BLOCKS_PER_REQUEST / 2` highlights. */
  lemma {:induction false} BatchesSize(hs: seq<Highlight>, i: nat)
    ensures forall j :: 0 <= j < |BatchesFrom(hs, i)| ==> 0 < |BatchesFrom(hs, i)[j]| <= BATCH_SIZE
    decreases |hs| - i
  {
    if i < |hs| {
      BatchesSize(hs, i + BATCH_SIZE);
    }
  }

  lemma {:induction false} BatchRequestsContent(bs: seq<seq<Highlight>>)
    ensures Flatten(BatchRequests(bs)) == BlocksOf(Flatten(bs))
    decreases |bs|
  {
    if bs != [] {
      BatchRequestsContent(bs[1..]);
      BlocksAppend(bs[0], Flatten(bs[1..]));
    }
  }

  lemma {:induction false} BatchRequestsSize(bs: seq<seq<Highlight>>)
    requires forall j :: 0 <= j < |bs| ==> 0 < |bs[j]| <= BATCH_SIZE
    ensures forall j :: 0 <= j < |BatchRequests(bs)| ==> 0 < |BatchRequests(bs)[j]| <= MAX_BLOCKS_PER_REQUEST
    decreases |bs|
  {
    if bs != [] {
      BlocksShape(bs[0]);
      BatchRequestsSize(bs[1..]);
    }
  }

  /** A section is sent as its `heading_2`, present exactly when its name is non-empty, then the blocks of
      its highlights. */
  lemma SectionRequestsContent(name: string, hs: seq<Highlight>)
    ensures Flatten(SectionRequests(name, hs)) == (if name != "" then [Heading2(name)] else []) + BlocksOf(hs)
  {
    var heading: seq<seq<Block>> := if name != "" then [[Heading2(name)]] else [];
    FlattenAppend(heading, BatchRequests(Batches(hs)));
    BatchRequestsContent(Batches(hs));
    BatchesFlatten(hs, 0);
    assert hs[0..] == hs;
    assert Flatten(heading) == (if name != "" then [Heading2(name)] else []) by {
      if name != "" {
        assert heading[1..] == [];
      }
    }
  }

  lemma SectionRequestsBound(name: string, hs: seq<Highlight>)
    ensures forall j :: 0 <= j < |SectionRequests(name, hs)| ==> 0 < |SectionRequests(name, hs)[j]| <= MAX_BLOCKS_PER_REQUEST
  {
    BatchesSize(hs, 0);
    BatchRequestsSize(Batches(hs));
  }

  /** The page, section by section in `order`: a `heading_2` per section, then its highlights' blocks. */
  function PageBlocksFrom(secs: Sections, order: seq<string>, j: nat): seq<Block>
    decreases |order| - j
  {
    if j >= |order| then []
    else [Heading2(order[j])] + BlocksOf(Entry(secs, order[j])) + PageBlocksFrom(secs, order, j + 1)
  }

  lemma {:induction false} RequestsFromContent(secs: Sections, order: seq<string>, j: nat)
    requires forall i :: 0 <= i < |order| ==> order[i] != ""
    ensures Flatten(RequestsFrom(secs, order, j)) == PageBlocksFrom(secs, order, j)
    decreases |order| - j
  {
    if j < |order| {
      var here := SectionRequests(order[j], Entry(secs, order[j]));
      RequestsFromContent(secs, order, j + 1);
      FlattenAppend(here, RequestsFrom(secs, order, j + 1));
      SectionRequestsContent(order[j], Entry(secs, order[j]));
    }
  }

  lemma {:induction false} RequestsFromBound(secs: Sections, order: seq<string>, j: nat)
    ensures forall i :: 0 <= i < |RequestsFrom(secs, order, j)| ==> 0 < |RequestsFrom(secs, order, j)[i]| <= MAX_BLOCKS_PER_REQUEST
    decreases |order| - j
  {
    if j < |order| {
      RequestsFromBound(secs, order, j + 1);
      SectionRequestsBound(order[j], Entry(secs, order[j]));
    }
  }

  lemma {:induction false} SplitKeysDistinct(keys: seq<string>)
    requires Distinct(keys)
    ensures Distinct(IndexKeys(keys)) && Distinct(OtherKeys(keys))
    decreases |keys|
  {
    if keys != [] {
      var p := keys[..|keys| - 1];
      var k := keys[|keys| - 1];
      assert Distinct(p) by {
        forall i, j | 0 <= i < j < |p| ensures p[i] != p[j] {
          assert p[i] == keys[i] && p[j] == keys[j];
        }
      }
      SplitKeysDistinct(p);
      SplitKeysPermutation(p);
      assert k !in multiset(p) by {
        forall i | 0 <= i < |p| ensures p[i] != k {
          assert p[i] == keys[i];
        }
      }
      assert k !in IndexKeys(p) && k !in OtherKeys(p) by {
        assert k !in multiset(IndexKeys(p)) && k !in multiset(OtherKeys(p));
      }
    }
  }

  lemma {:induction false} InsertDistinct(x: string, s: seq<string>)
    requires Distinct(s) && x !in s
    ensures Distinct(InsertByValue(x, s))
    decreases |s|
  {
    if s != [] && DecimalValue(x) > DecimalValue(s[0]) {
      DistinctTail(s);
      assert x !in s[1..];
      InsertDistinct(x, s[1..]);
      InsertPermutation(x, s[1..]);
      var t := InsertByValue(x, s[1..]);
      assert s[0] !in multiset(t);
      DistinctCons(s[0], t);
    } else {
      DistinctCons(x, s);
    }
  }

  lemma {:induction false} SortDistinct(s: seq<string>)
    requires Distinct(s)
    ensures Distinct(SortByValue(s))
    decreases |s|
  {
    if s != [] {
      DistinctTail(s);
      SortDistinct(s[1..]);
      SortPermutation(s[1..]);
      assert s[0] !in multiset(SortByValue(s[1..]));
      InsertDistinct(s[0], SortByValue(s[1..]));
    }
  }

  /** `Object.entries` yields each key of the record exactly once. */
  lemma EntryOrderDistinct(keys: seq<string>)
    requires Distinct(keys)
    ensures Distinct(EntryOrder(keys))
  {
    var a := SortByValue(IndexKeys(keys));
    var b := OtherKeys(keys);
    SplitKeysDistinct(keys);
    SortDistinct(IndexKeys(keys));
    SortPermutation(IndexKeys(keys));
    IndexKeysAll(keys);
    forall i, j | 0 <= i < j < |a + b| ensures (a + b)[i] != (a + b)[j] {
      if i < |a| && j >= |a| {
        assert (a + b)[i] == a[i] && (a + b)[j] == b[j - |a|];
        assert a[i] in multiset(IndexKeys(keys));
      } else if i >= |a| {
        assert (a + b)[i] == b[i - |a|] && (a + b)[j] == b[j - |a|];
      } else {
        assert (a + b)[i] == a[i] && (a + b)[j] == a[j];
      }
    }
  }

  /** Every key `Object.entries` yields is a key of the record, so none is empty. */
  lemma EntryOrderNamed(secs: Sections)
    requires WellFormed(secs)
    ensures forall i :: 0 <= i < |EntryOrder(secs.keys)| ==> EntryOrder(secs.keys)[i] in secs.entries && EntryOrder(secs.keys)[i] != ""
  {
    EntryOrderKeeps(secs.entries, secs.keys);
    forall i | 0 <= i < |EntryOrder(secs.keys)| ensures EntryOrder(secs.keys)[i] in secs.entries {
      assert EntryOrder(secs.keys)[i] in multiset(secs.keys);
    }
  }

  /** What the page receives, request after request: for each section in `Object.entries` order, its
      `heading_2` and then a `heading_3` and a paragraph for each of its highlights. */
  lemma PageContent(book: BookData)
    ensures var secs := Organize(book.highlights);
      Flatten(PageRequests(book)) == PageBlocksFrom(secs, EntryOrder(secs.keys), 0)
  {
    var secs := Organize(book.highlights);
    var order := EntryOrder(secs.keys);
    OrganizeWellFormed(book.highlights);
    EntryOrderNamed(secs);
    RequestsFromContent(secs, order, 0);
  }

  /** No request is empty or carries more than `MAX_BLOCKS_PER_REQUEST` blocks. */
  lemma PageRequestsBound(book: BookData)
    ensures forall i :: 0 <= i < |PageRequests(book)| ==> 0 < |PageRequests(book)[i]| <= MAX_BLOCKS_PER_REQUEST
  {
    var secs := Organize(book.highlights);
    RequestsFromBound(secs, EntryOrder(secs.keys), 0);
  }

  function ParagraphCount(bs: seq<Block>): nat
    decreases |bs|
  {
    if bs == [] then 0 else (if bs[0].Paragraph? then 1 else 0) + ParagraphCount(bs[1..])
  }

  lemma {:induction false} ParagraphCountAppend(a: seq<Block>, b: seq<Block>)
    ensures ParagraphCount(a + b) == ParagraphCount(a) + ParagraphCount(b)
    decreases |a|
  {
    if a == [] {
      assert a + b == b;
    } else {
      assert (a + b)[1..] == a[1..] + b;
      ParagraphCountAppend(a[1..], b);
    }
  }

  lemma {:induction false} BlocksParagraphs(hs: seq<Highlight>)
    ensures ParagraphCount(BlocksOf(hs)) == |hs|
    decreases |hs|
  {
    if hs != [] {
      var h := hs[|hs| - 1];
      BlocksParagraphs(hs[..|hs| - 1]);
      ParagraphCountAppend(BlocksOf(hs[..|hs| - 1]), HighlightBlocks(h));
      var b := HighlightBlocks(h);
      assert b[1..][1..] == [];
      assert ParagraphCount(b[1..]) == 1;
      assert ParagraphCount(b) == 1;
    }
  }

  lemma {:induction false} PageBlocksParagraphs(secs: Sections, order: seq<string>, j: nat)
    requires j <= |order|
    ensures ParagraphCount(PageBlocksFrom(secs, order, j)) == Total(secs.entries, order[j..])
    decreases |order| - j
  {
    if j < |order| {
      var k := order[j];
      PageBlocksParagraphs(secs, order, j + 1);
      ParagraphCountAppend([Heading2(k)] + BlocksOf(Entry(secs, k)), PageBlocksFrom(secs, order, j + 1));
      ParagraphCountAppend([Heading2(k)], BlocksOf(Entry(secs, k)));
      BlocksParagraphs(Entry(secs, k));
      assert order[j..] == [k] + order[j + 1..];
      TotalAppend(secs.entries, [k], order[j + 1..]);
      TotalSingle(secs.entries, k);
    } else {
      assert order[j..] == [];
    }
  }

  /** The page gets exactly one paragraph per highlight of the book. */
  lemma PageParagraphs(book: BookData)
    ensures ParagraphCount(Flatten(PageRequests(book))) == |book.highlights|
  {
    var secs := Organize(book.highlights);
    var order := EntryOrder(secs.keys);
    PageContent(book);
    PageBlocksParagraphs(secs, order, 0);
    assert order[0..] == order;
    EntryOrderKeeps(secs.entries, secs.keys);
    OrganizeTotal(book.highlights);
  }

  // ---------------------------------------------------------------------------------------------
  // The grouping as written, on a plain object

  /** A section named after an inherited member makes the grouping as written throw; the model files it. */
  lemma PrototypeSectionThrows()
    ensures var h := Highlight("constructor", "", "", None);
      OrganizeAsWritten([h]).None? && Organize([h]).entries == map["constructor" := [h]]
  {
    var h := Highlight("constructor", "", "", None);
    assert [h][..0] == [];
    assert SectionKey(h) in OBJECT_PROTOTYPE_KEYS;
  }

  /** The grouping as written throws exactly when some highlight's key is an inherited name, and otherwise
      agrees with the model. */
  lemma {:induction false} AsWrittenAgrees(hs: seq<Highlight>)
    ensures OrganizeAsWritten(hs).None? <==> exists i :: 0 <= i < |hs| && SectionKey(hs[i]) in OBJECT_PROTOTYPE_KEYS
    ensures OrganizeAsWritten(hs).Some? ==> OrganizeAsWritten(hs).value == Organize(hs)
    decreases |hs|
  {
    if hs != [] {
      var p := hs[..|hs| - 1];
      var h := hs[|hs| - 1];
      AsWrittenAgrees(p);
      assert forall i :: 0 <= i < |p| ==> p[i] == hs[i];
      var k := SectionKey(h);
      OrganizeDomain(p, k);
    }
  }
}

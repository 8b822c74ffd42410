/**
 * The ordered chapter list and the pure transformations the editor's handlers
 * apply to it: id allocation, appending, removal, retitling, content rewrite
 * and the split result.
 */
module ChapterStore {
  import opened JsString
  import opened Markup
  import opened ChapterIds
  import opened SplitEngine

  datatype Chapter = Chapter(id: string, title: string, content: Markup)

  /** Title prefix of generated chapters ("챕터 {id}"). */
  const TitlePrefix: string := "챕터 "
  /** Fallback title of the split chapter when its own title is empty. */
  const UntitledTitle: string := "챕터"
  /** Content of a chapter created by "add chapter". */
  const NewChapterContent: Markup := [Html("<p>새 챕터의 내용을 입력하세요...</p>")]

  predicate UniqueIds(chs: seq<Chapter>) {
    forall i, j :: 0 <= i < j < |chs| ==> chs[i].id != chs[j].id
  }

  predicate HasId(chs: seq<Chapter>, id: string) {
    exists i :: 0 <= i < |chs| && chs[i].id == id
  }

  /** Position of the first chapter with the id (`chapters.find`), or |chs| when there is none. */
  function IndexOf(chs: seq<Chapter>, id: string): (k: nat)
    ensures k <= |chs|
    ensures k < |chs| ==> chs[k].id == id
    ensures forall j :: 0 <= j < k ==> chs[j].id != id
  {
    if chs == [] then 0 else if chs[0].id == id then 0 else 1 + IndexOf(chs[1..], id)
  }

  function Max(a: nat, b: int): (m: nat)
    ensures a <= m && b <= m && (m == a || m == b)
  {
    if b > a then b else a
  }

  /** `xs.reduce((max, x) => Math.max(max, x), 0)`, folding from the left. */
  function MaxFrom0(xs: seq<int>): (m: nat)
    ensures forall i :: 0 <= i < |xs| ==> xs[i] <= m
    ensures m == 0 || exists i :: 0 <= i < |xs| && xs[i] == m
  {
    if xs == [] then 0
    else
      var init := xs[..|xs| - 1];
      var m := Max(MaxFrom0(init), xs[|xs| - 1]);
      assert forall i :: 0 <= i < |init| ==> init[i] == xs[i];
      m
  }

  /** The numeric value of every id, `parseInt(ch.id, 10) || 0`. */
  function NumericIds(chs: seq<Chapter>): (xs: seq<int>)
    ensures |xs| == |chs| && forall i :: 0 <= i < |chs| ==> xs[i] == ParseId(chs[i].id)
  {
    if chs == [] then [] else NumericIds(chs[..|chs| - 1]) + [ParseId(chs[|chs| - 1].id)]
  }

  /** The largest numeric id, or 0 (the `reduce` in `handleAddChapter` and `splitByChapterBreaks`). */
  function MaxId(chs: seq<Chapter>): (m: nat)
    ensures forall i :: 0 <= i < |chs| ==> ParseId(chs[i].id) <= m
    ensures m == 0 || exists i :: 0 <= i < |chs| && ParseId(chs[i].id) == m
  {
    MaxFrom0(NumericIds(chs))
  }

  /** The k-th id allocated after the current ones: String(max + 1 + k). */
  function AllocatedId(chs: seq<Chapter>, k: nat): (id: string)
    ensures |id| > 0 && forall i :: 0 <= i < |id| ==> IsDigit(id[i])
  {
    Decimal(MaxId(chs) + 1 + k)
  }

  /** Reading an allocated id back gives max + 1 + k. */
  lemma {:induction false} AllocatedIdValue(chs: seq<Chapter>, k: nat)
    ensures ParseId(AllocatedId(chs, k)) == MaxId(chs) + 1 + k
  {
    var v := MaxId(chs) + 1 + k;
    assert AllocatedId(chs, k) == Decimal(v);
    ParseDecimal(v);
  }

  /** Allocated ids are fresh. */
  lemma {:induction false} AllocatedIdFresh(chs: seq<Chapter>, k: nat)
    ensures !HasId(chs, AllocatedId(chs, k))
  {
    var v := MaxId(chs) + 1 + k;
    assert AllocatedId(chs, k) == Decimal(v);
    AboveMaxFresh(chs, v);
  }

  /** Allocated ids are distinct for distinct k. */
  lemma {:induction false} AllocatedIdDistinct(chs: seq<Chapter>, j: nat, k: nat)
    requires j != k
    ensures AllocatedId(chs, j) != AllocatedId(chs, k)
  {
    DecimalInjective(MaxId(chs) + 1 + j, MaxId(chs) + 1 + k);
  }

  /** No chapter's id prints a number above the largest numeric id. */
  lemma {:induction false} AboveMaxFresh(chs: seq<Chapter>, v: nat)
    requires v > MaxId(chs)
    ensures !HasId(chs, Decimal(v))
  {
    ParseDecimal(v);
  }

  /** `handleAddChapter`'s list: a fresh chapter appended last. */
  function WithNewChapter(chs: seq<Chapter>): (r: seq<Chapter>)
    ensures |r| == |chs| + 1 && r[..|chs|] == chs
    ensures r[|chs|] == Chapter(AllocatedId(chs, 0), TitlePrefix + AllocatedId(chs, 0), NewChapterContent)
    ensures !HasId(chs, r[|chs|].id)
  {
    AllocatedIdFresh(chs, 0);
    var id := AllocatedId(chs, 0);
    chs + [Chapter(id, TitlePrefix + id, NewChapterContent)]
  }

  /** Adding a chapter keeps ids unique. */
  lemma {:induction false} WithNewChapterUnique(chs: seq<Chapter>)
    requires UniqueIds(chs)
    ensures UniqueIds(WithNewChapter(chs))
  {
    var r := WithNewChapter(chs);
    forall i | 0 <= i < |chs| ensures r[i] == chs[i] { }
  }

  /** `chapters.filter(c => c.id !== id)`. */
  function WithoutId(chs: seq<Chapter>, id: string): (r: seq<Chapter>)
    ensures |r| <= |chs|
    ensures forall i :: 0 <= i < |r| ==> r[i].id != id
  {
    if chs == [] then []
    else
      var rest := WithoutId(chs[1..], id);
      if chs[0].id == id then rest else [chs[0]] + rest
  }

  /** A chapter is kept exactly when it was in the list and has a different id. */
  lemma {:induction false} WithoutIdMembers(chs: seq<Chapter>, id: string, c: Chapter)
    ensures c in WithoutId(chs, id) <==> c in chs && c.id != id
  {
    if chs != [] {
      WithoutIdMembers(chs[1..], id, c);
      assert chs == [chs[0]] + chs[1..];
    }
  }

  /** Removal keeps the relative order: it acts on each part of a list separately. */
  lemma {:induction false} WithoutIdAppend(a: seq<Chapter>, b: seq<Chapter>, id: string)
    ensures WithoutId(a + b, id) == WithoutId(a, id) + WithoutId(b, id)
  {
    if a == [] {
      assert a + b == b;
    } else {
      assert (a + b)[0] == a[0];
      assert (a + b)[1..] == a[1..] + b;
      WithoutIdAppend(a[1..], b, id);
    }
  }

  /** Removing an id that is not there changes nothing. */
  lemma {:induction false} WithoutAbsentId(chs: seq<Chapter>, id: string)
    requires !HasId(chs, id)
    ensures WithoutId(chs, id) == chs
  {
    if chs != [] {
      forall i | 0 <= i < |chs| - 1 ensures chs[1..][i].id != id {
        assert chs[1..][i] == chs[i + 1];
      }
      WithoutAbsentId(chs[1..], id);
      assert [chs[0]] + chs[1..] == chs;
    }
  }

  /** With unique ids, removing a present id removes exactly one chapter, keeping the others in order. */
  lemma {:induction false} WithoutUniqueId(chs: seq<Chapter>, id: string)
    requires UniqueIds(chs) && HasId(chs, id)
    ensures var k := IndexOf(chs, id); WithoutId(chs, id) == chs[..k] + chs[k + 1..]
    ensures |WithoutId(chs, id)| == |chs| - 1
  {
    var k := IndexOf(chs, id);
    forall i | 0 <= i < |chs| && i != k ensures chs[i].id != id {
      if i > k {
        assert chs[k].id != chs[i].id;
      }
    }
    WithoutSingle(chs, id, k);
  }

  /** Removing an id held at position k only drops exactly that chapter. */
  lemma {:induction false} WithoutSingle(chs: seq<Chapter>, id: string, k: nat)
    requires k < |chs| && chs[k].id == id
    requires forall i :: 0 <= i < |chs| && i != k ==> chs[i].id != id
    ensures WithoutId(chs, id) == chs[..k] + chs[k + 1..]
  {
    var tail := chs[1..];
    if k == 0 {
      assert !HasId(tail, id) by {
        forall i | 0 <= i < |tail| ensures tail[i].id != id {
          assert tail[i] == chs[i + 1];
        }
      }
      WithoutAbsentId(tail, id);
    } else {
      forall i | 0 <= i < |tail| && i != k - 1 ensures tail[i].id != id {
        assert tail[i] == chs[i + 1];
      }
      WithoutSingle(tail, id, k - 1);
      assert chs[..k] == [chs[0]] + tail[..k - 1];
      assert chs[k + 1..] == tail[k..];
    }
  }

  /** Removal keeps ids unique. */
  lemma {:induction false} WithoutIdUnique(chs: seq<Chapter>, id: string)
    requires UniqueIds(chs)
    ensures UniqueIds(WithoutId(chs, id))
  {
    if HasId(chs, id) {
      WithoutUniqueId(chs, id);
    } else {
      WithoutAbsentId(chs, id);
    }
  }

  /** `chapters.map(ch => ch.id === id ? { ...ch, title } : ch)`. */
  function Retitled(chs: seq<Chapter>, id: string, title: string): (r: seq<Chapter>)
    ensures |r| == |chs|
    ensures forall i :: 0 <= i < |chs| ==> r[i].id == chs[i].id && r[i].content == chs[i].content
    ensures forall i :: 0 <= i < |chs| ==> r[i].title == if chs[i].id == id then title else chs[i].title
  {
    seq(|chs|, i requires 0 <= i < |chs| => if chs[i].id == id then chs[i].(title := title) else chs[i])
  }

  /** `chapters.map(ch => ch.id === id ? { ...ch, content } : ch)`. */
  function Rewritten(chs: seq<Chapter>, id: string, content: Markup): (r: seq<Chapter>)
    ensures |r| == |chs|
    ensures forall i :: 0 <= i < |chs| ==> r[i].id == chs[i].id && r[i].title == chs[i].title
    ensures forall i :: 0 <= i < |chs| ==> r[i].content == if chs[i].id == id then content else chs[i].content
  {
    seq(|chs|, i requires 0 <= i < |chs| => if chs[i].id == id then chs[i].(content := content) else chs[i])
  }

  /** Two lists whose ids agree position by position. */
  predicate SameIds(a: seq<Chapter>, b: seq<Chapter>) {
    |a| == |b| && forall i :: 0 <= i < |a| ==> a[i].id == b[i].id
  }

  /** A list with the same ids position by position keeps uniqueness, membership and lookup positions. */
  lemma {:induction false} SameIdsAgree(a: seq<Chapter>, b: seq<Chapter>, id: string)
    requires SameIds(a, b)
    ensures UniqueIds(a) <==> UniqueIds(b)
    ensures HasId(a, id) <==> HasId(b, id)
    ensures IndexOf(a, id) == IndexOf(b, id)
  {
    var k := IndexOf(a, id);
    if k < |a| {
      IndexOfAt(b, id, k);
    } else {
      assert forall j :: 0 <= j < |b| ==> b[j].id == a[j].id;
    }
  }

  /** One chapter after a split: the active one takes fragment 0 and a title inferred from it. */
  function SplitActive(ch: Chapter, activeId: string, first: Markup): (c: Chapter)
    ensures c.id == ch.id
    ensures ch.id != activeId ==> c == ch
    ensures ch.id == activeId ==> c.content == first
  {
    if ch.id == activeId
    then ch.(content := first, title := ExtractTitle(first, if ch.title == "" then UntitledTitle else ch.title))
    else ch
  }

  /** The chapter made from the k-th remaining fragment, under the k-th allocated id. */
  function FragmentChapter(chs: seq<Chapter>, k: nat, content: Markup): (c: Chapter)
    ensures c.id == AllocatedId(chs, k) && c.content == content
  {
    var id := AllocatedId(chs, k);
    Chapter(id, ExtractTitle(content, TitlePrefix + id), content)
  }

  /** The existing chapters after a split, each passed through `SplitActive`. */
  function WithFirstFragment(chs: seq<Chapter>, activeId: string, first: Markup): (r: seq<Chapter>)
    ensures |r| == |chs| && forall i :: 0 <= i < |chs| ==> r[i] == SplitActive(chs[i], activeId, first)
  {
    seq(|chs|, i requires 0 <= i < |chs| => SplitActive(chs[i], activeId, first))
  }

  /** The chapters made from the fragments after the first, in order. */
  function FragmentChapters(chs: seq<Chapter>, rest: seq<Markup>): (r: seq<Chapter>)
    ensures |r| == |rest| && forall k :: 0 <= k < |rest| ==> r[k] == FragmentChapter(chs, k, rest[k])
  {
    seq(|rest|, k requires 0 <= k < |rest| => FragmentChapter(chs, k, rest[k]))
  }

  /**
   * The list after a split into `parts`: the active chapter rewritten in place
   * with fragment 0 and the other fragments appended in order as new chapters.
   */
  function SplitChapters(chs: seq<Chapter>, activeId: string, parts: seq<Markup>): (r: seq<Chapter>)
    requires |parts| >= 2
    ensures |r| == |chs| + |parts| - 1
    ensures r[..|chs|] == WithFirstFragment(chs, activeId, parts[0])
    ensures r[|chs|..] == FragmentChapters(chs, parts[1..])
  {
    var kept, added := WithFirstFragment(chs, activeId, parts[0]), FragmentChapters(chs, parts[1..]);
    kept + added
  }

  /** Chapter by chapter: position i < n is `SplitActive` of the old chapter, position n + k the k-th new one. */
  lemma {:induction false} SplitAt(chs: seq<Chapter>, activeId: string, parts: seq<Markup>)
    requires |parts| >= 2
    ensures var r := SplitChapters(chs, activeId, parts);
      && (forall i :: 0 <= i < |chs| ==> r[i] == SplitActive(chs[i], activeId, parts[0]))
      && (forall j :: |chs| <= j < |r| ==> r[j] == FragmentChapter(chs, j - |chs|, parts[j - |chs| + 1]))
  {
    var r := SplitChapters(chs, activeId, parts);
    forall i | 0 <= i < |chs| ensures r[i] == SplitActive(chs[i], activeId, parts[0]) {
      assert r[i] == r[..|chs|][i];
    }
    forall j | |chs| <= j < |r| ensures r[j] == FragmentChapter(chs, j - |chs|, parts[j - |chs| + 1]) {
      var k := j - |chs|;
      assert r[j] == r[|chs|..][k];
      assert parts[1..][k] == parts[k + 1];
    }
  }

  /**
   * The shape of a split: n - 1 chapters more; ids of existing chapters kept in place;
   * chapters other than the active one untouched; the active one holding fragment 0
   * under its inferred title; fragment k (k >= 1) appended as a chapter with id
   * String(max + k) and its inferred title, in fragment order.
   */
  lemma {:induction false} SplitShape(chs: seq<Chapter>, activeId: string, parts: seq<Markup>)
    requires |parts| >= 2
    ensures var r := SplitChapters(chs, activeId, parts);
      && |r| == |chs| + |parts| - 1
      && (forall i :: 0 <= i < |chs| ==> r[i].id == chs[i].id)
      && (forall i :: 0 <= i < |chs| && chs[i].id != activeId ==> r[i] == chs[i])
      && (forall i :: 0 <= i < |chs| && chs[i].id == activeId ==>
            r[i].content == parts[0] &&
            r[i].title == ExtractTitle(parts[0], if chs[i].title == "" then UntitledTitle else chs[i].title))
      && (forall k :: 1 <= k < |parts| ==>
            r[|chs| + k - 1] == Chapter(Decimal(MaxId(chs) + k), ExtractTitle(parts[k], TitlePrefix + Decimal(MaxId(chs) + k)), parts[k]))
  {
    var r := SplitChapters(chs, activeId, parts);
    forall k | 1 <= k < |parts|
      ensures r[|chs| + k - 1] == Chapter(Decimal(MaxId(chs) + k), ExtractTitle(parts[k], TitlePrefix + Decimal(MaxId(chs) + k)), parts[k])
    {
      assert r[|chs| + k - 1] == FragmentChapter(chs, k - 1, parts[k]);
      assert AllocatedId(chs, k - 1) == Decimal(MaxId(chs) + k);
    }
  }

  /** A list that keeps the ids of `chs` in place and then appends allocated ids in order has unique ids. */
  lemma {:induction false} FreshTailUnique(chs: seq<Chapter>, r: seq<Chapter>)
    requires UniqueIds(chs) && |chs| <= |r|
    requires forall i :: 0 <= i < |chs| ==> r[i].id == chs[i].id
    requires forall j :: |chs| <= j < |r| ==> r[j].id == AllocatedId(chs, j - |chs|)
    ensures UniqueIds(r)
  {
    var n := |chs|;
    forall i, j | 0 <= i < j < |r| ensures r[i].id != r[j].id {
      if j >= n {
        if i >= n {
          AllocatedIdDistinct(chs, i - n, j - n);
        } else {
          AllocatedIdFresh(chs, j - n);
        }
      }
    }
  }

  /** A split keeps ids unique: the appended ids are fresh and pairwise distinct. */
  lemma {:induction false} SplitKeepsUniqueIds(chs: seq<Chapter>, activeId: string, parts: seq<Markup>)
    requires |parts| >= 2 && UniqueIds(chs)
    ensures UniqueIds(SplitChapters(chs, activeId, parts))
  {
    FreshTailUnique(chs, SplitChapters(chs, activeId, parts));
  }

  /** A split leaves the active chapter where it was, now holding fragment 0. */
  lemma {:induction false} SplitKeepsActive(chs: seq<Chapter>, activeId: string, parts: seq<Markup>)
    requires |parts| >= 2 && HasId(chs, activeId)
    ensures var r := SplitChapters(chs, activeId, parts);
            IndexOf(r, activeId) == IndexOf(chs, activeId) && r[IndexOf(chs, activeId)].content == parts[0]
  {
    var r := SplitChapters(chs, activeId, parts);
    IndexOfAt(r, activeId, IndexOf(chs, activeId));
  }

  /** The first position holding an id is where IndexOf finds it. */
  lemma {:induction false} IndexOfAt(chs: seq<Chapter>, id: string, k: nat)
    requires k < |chs| && chs[k].id == id
    requires forall j :: 0 <= j < k ==> chs[j].id != id
    ensures IndexOf(chs, id) == k
  {
  }

  /** With ids "1" and "3", the next chapter gets id "4", whatever the titles and contents. */
  lemma {:induction false} NextIdExample(t1: string, c1: Markup, t3: string, c3: Markup)
    ensures AllocatedId([Chapter("1", t1, c1), Chapter("3", t3, c3)], 0) == "4"
  {
    var chs := [Chapter("1", t1, c1), Chapter("3", t3, c3)];
    assert chs[0].id == Decimal(1) && chs[1].id == Decimal(3);
    ParseDecimal(1);
    ParseDecimal(3);
    var m := MaxId(chs);
    assert m >= 3 && (m == 0 || m == 1 || m == 3);
    assert AllocatedId(chs, 0) == Decimal(4);
    assert Decimal(4) == "4";
  }
}

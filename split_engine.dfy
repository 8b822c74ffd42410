/**
 * The split engine's pure part: cutting serialized markup at chapter-break
 * markers, trimming and dropping blank fragments, and inferring a title from
 * the first heading of a fragment.
 */
module SplitEngine {
  import opened JsString
  import opened Markup

  /** The number of chapter-break markers in m. */
  function Breaks(m: Markup): (n: nat)
    ensures n == 0 <==> Break !in m
  {
    if m == [] then 0 else (if m[0] == Break then 1 else 0) + Breaks(m[1..])
  }

  /**
   * The marker-separated pieces of m, as `html.split(markerPattern)` returns them:
   * k markers give k + 1 pieces, empty ones included.
   */
  function Pieces(m: Markup): (r: seq<Markup>)
    ensures |r| == Breaks(m) + 1
    ensures forall i :: 0 <= i < |r| ==> Break !in r[i]
  {
    if m == [] then [[]]
    else
      var rest := Pieces(m[1..]);
      assert m == [m[0]] + m[1..];
      if m[0] == Break then [[]] + rest
      else [[m[0]] + rest[0]] + rest[1..]
  }

  /** The pieces put back together with one marker between neighbours. */
  function Join(ps: seq<Markup>): (m: Markup)
    requires |ps| >= 1
    ensures (forall i :: 0 <= i < |ps| ==> Break !in ps[i]) ==> Breaks(m) == |ps| - 1
  {
    if |ps| == 1 then ps[0]
    else
      var rest := Join(ps[1..]);
      BreaksAppend(ps[0] + [Break], rest);
      BreaksAppend(ps[0], [Break]);
      assert Breaks([Break]) == 1 + Breaks([]);
      assert forall i :: 0 <= i < |ps| - 1 ==> ps[1..][i] == ps[i + 1];
      ps[0] + [Break] + rest
  }

  /** Markers are counted part by part. */
  lemma {:induction false} BreaksAppend(a: Markup, b: Markup)
    ensures Breaks(a + b) == Breaks(a) + Breaks(b)
  {
    if a == [] {
      assert a + b == b;
    } else {
      assert (a + b)[0] == a[0];
      assert (a + b)[1..] == a[1..] + b;
      BreaksAppend(a[1..], b);
    }
  }

  /** Splitting loses nothing: joining the pieces gives back the markup. */
  lemma {:induction false} JoinPieces(m: Markup)
    ensures Join(Pieces(m)) == m
  {
    if m != [] {
      var rest := Pieces(m[1..]);
      JoinPieces(m[1..]);
      assert m == [m[0]] + m[1..];
      if m[0] == Break {
        assert Pieces(m) == [[]] + rest;
        assert ([[]] + rest)[1..] == rest;
      } else {
        assert Pieces(m) == [[m[0]] + rest[0]] + rest[1..];
        JoinConsFirst(m[0], rest);
      }
    }
  }

  /** A token put in front of the first piece comes out in front of the joined markup. */
  lemma {:induction false} JoinConsFirst(x: Token, ps: seq<Markup>)
    requires |ps| >= 1
    ensures Join([[x] + ps[0]] + ps[1..]) == [x] + Join(ps)
  {
    var qs := [[x] + ps[0]] + ps[1..];
    if |ps| > 1 {
      assert qs[1..] == ps[1..];
    }
  }

  /** Joining marker-free pieces and splitting again gives back the pieces. */
  lemma {:induction false} PiecesJoin(ps: seq<Markup>)
    requires |ps| >= 1
    requires forall i :: 0 <= i < |ps| ==> Break !in ps[i]
    ensures Pieces(Join(ps)) == ps
  {
    if |ps| == 1 {
      PiecesNoBreak(ps[0]);
    } else {
      PiecesJoin(ps[1..]);
      PiecesPrefix(ps[0], Join(ps[1..]));
    }
  }

  lemma {:induction false} PiecesNoBreak(p: Markup)
    requires Break !in p
    ensures Pieces(p) == [p]
  {
    if p != [] {
      PiecesNoBreak(p[1..]);
      assert [p[0]] + p[1..] == p;
    }
  }

  /** A marker-free prefix followed by a marker becomes a piece of its own. */
  lemma {:induction false} PiecesPrefix(p: Markup, m: Markup)
    requires Break !in p
    ensures Pieces(p + [Break] + m) == [p] + Pieces(m)
  {
    if p == [] {
      assert p + [Break] + m == [Break] + m;
      assert ([Break] + m)[1..] == m;
    } else {
      var whole := p + [Break] + m;
      assert whole[0] == p[0] && p[0] != Break;
      assert whole[1..] == p[1..] + [Break] + m;
      PiecesPrefix(p[1..], m);
      var rest := [p[1..]] + Pieces(m);
      assert Pieces(whole) == [[p[0]] + rest[0]] + rest[1..];
      assert rest[1..] == Pieces(m);
      assert [p[0]] + p[1..] == p;
    }
  }

  lemma {:induction false} JoinAppend(ps: seq<Markup>, qs: seq<Markup>)
    requires |ps| >= 1 && |qs| >= 1
    ensures Join(ps + qs) == Join(ps) + [Break] + Join(qs)
  {
    if |ps| == 1 {
      assert (ps + qs)[1..] == qs;
    } else {
      assert (ps + qs)[1..] == ps[1..] + qs;
      JoinAppend(ps[1..], qs);
    }
  }

  /** Splitting around one marker splits each side independently. */
  lemma {:induction false} PiecesAround(a: Markup, b: Markup)
    ensures Pieces(a + [Break] + b) == Pieces(a) + Pieces(b)
  {
    var pa, pb := Pieces(a), Pieces(b);
    JoinPieces(a);
    JoinPieces(b);
    JoinAppend(pa, pb);
    PiecesJoin(pa + pb);
  }

  /** Text that is non-empty and has no white space at either end. */
  predicate Unpadded(s: string) {
    |s| > 0 && !IsSpace(s[0]) && !IsSpace(s[|s| - 1])
  }

  /** A fragment that is non-empty and neither starts nor ends with white space once serialized. */
  predicate Trimmed(f: Markup) {
    Unpadded(Render(f))
  }

  lemma {:induction false} TrimmedFragment(f: Markup)
    requires |Render(TrimFragment(f))| > 0
    ensures Trimmed(TrimFragment(f))
  {
    RenderTrimFragment(f);
  }

  /** Each piece trimmed, and the ones whose trimmed text is empty dropped (`.map(trim).filter(length > 0)`). */
  function KeepNonBlank(ps: seq<Markup>): (r: seq<Markup>)
    ensures |r| <= |ps|
    ensures forall i :: 0 <= i < |r| ==> Trimmed(r[i])
    ensures (forall i :: 0 <= i < |ps| ==> Break !in ps[i]) ==> forall i :: 0 <= i < |r| ==> Break !in r[i]
  {
    if ps == [] then []
    else
      var t := TrimFragment(ps[0]);
      var rest := KeepNonBlank(ps[1..]);
      if |Render(t)| > 0 then
        TrimmedFragment(ps[0]);
        [t] + rest
      else rest
  }

  lemma {:induction false} KeepNonBlankAppend(ps: seq<Markup>, qs: seq<Markup>)
    ensures KeepNonBlank(ps + qs) == KeepNonBlank(ps) + KeepNonBlank(qs)
  {
    if ps == [] {
      assert ps + qs == qs;
    } else {
      assert (ps + qs)[0] == ps[0];
      assert (ps + qs)[1..] == ps[1..] + qs;
      KeepNonBlankAppend(ps[1..], qs);
    }
  }

  /** The fragments a split produces from the editor's markup. */
  function Parts(m: Markup): (r: seq<Markup>)
    ensures |r| <= Breaks(m) + 1
    ensures forall i :: 0 <= i < |r| ==> Trimmed(r[i]) && Break !in r[i]
  {
    KeepNonBlank(Pieces(m))
  }

  /** Markup without a marker never splits into two fragments. */
  lemma {:induction false} NoBreakNoSplit(m: Markup)
    requires Break !in m
    ensures |Parts(m)| <= 1
  {
  }

  /** Two adjacent markers produce no fragment between them: they act as one. */
  lemma {:induction false} AdjacentBreaksCollapse(a: Markup, b: Markup)
    ensures Parts(a + [Break, Break] + b) == Parts(a + [Break] + b)
  {
    assert a + [Break, Break] + b == a + [Break] + ([] + [Break] + b);
    PiecesAround(a, [] + [Break] + b);
    PiecesAround([], b);
    PiecesAround(a, b);
    assert Pieces([]) == [[]];
    KeepNonBlankAppend(Pieces(a), [[]] + Pieces(b));
    KeepNonBlankAppend([[]], Pieces(b));
    KeepNonBlankAppend(Pieces(a), Pieces(b));
    assert KeepNonBlank([[]]) == [] by {
      assert Render(TrimFragment([])) == [];
    }
  }

  /** A fragment a split keeps as it is: marker-free, unchanged by trimming, not blank. */
  predicate Clean(p: Markup) {
    Break !in p && TrimFragment(p) == p && |Render(p)| > 0
  }

  /**
   * Splitting undoes joining: fragments that are non-blank, already trimmed and
   * marker-free, joined with markers, split back into exactly those fragments.
   */
  lemma {:induction false} PartsOfJoin(ps: seq<Markup>)
    requires |ps| >= 1
    requires forall i :: 0 <= i < |ps| ==> Clean(ps[i])
    ensures Parts(Join(ps)) == ps
  {
    PiecesJoin(ps);
    KeepNonBlankOfTrimmed(ps);
  }

  lemma {:induction false} KeepNonBlankOfTrimmed(ps: seq<Markup>)
    requires forall i :: 0 <= i < |ps| ==> Clean(ps[i])
    ensures KeepNonBlank(ps) == ps
  {
    if ps != [] {
      KeepNonBlankOfTrimmed(ps[1..]);
    }
  }

  /** Index of the first heading in document order, or |f| when there is none. */
  function FirstHeadingAt(f: Markup): (k: nat)
    ensures k <= |f|
    ensures k < |f| ==> f[k].Heading?
    ensures forall j :: 0 <= j < k ==> !f[j].Heading?
  {
    if f == [] then 0 else if f[0].Heading? then 0 else 1 + FirstHeadingAt(f[1..])
  }

  /**
   * `extractTitle`: walks the fragment in document order to its first h1..h6; that
   * heading's trimmed text is the title when non-empty, otherwise the fallback is.
   */
  function ExtractTitle(f: Markup, fallback: string): (t: string)
    ensures t == fallback || |t| > 0
  {
    if f == [] then fallback
    else if f[0].Heading? then (if |Trim(f[0].text)| > 0 then Trim(f[0].text) else fallback)
    else ExtractTitle(f[1..], fallback)
  }

  /** The title comes from the heading `FirstHeadingAt` finds, and from no other. */
  lemma {:induction false} ExtractTitleFirstHeading(f: Markup, fallback: string)
    ensures var k := FirstHeadingAt(f);
            ExtractTitle(f, fallback) == if k < |f| && |Trim(f[k].text)| > 0 then Trim(f[k].text) else fallback
  {
    if f != [] && !f[0].Heading? {
      ExtractTitleFirstHeading(f[1..], fallback);
      assert FirstHeadingAt(f) == 1 + FirstHeadingAt(f[1..]);
    }
  }

  /**
   * The title is the trimmed text of the first heading when that text is non-empty,
   * otherwise the fallback; without a heading it is the fallback; a later heading is
   * never used.
   */
  lemma {:induction false} ExtractTitleSpec(f: Markup, fallback: string)
    ensures (forall j :: 0 <= j < |f| ==> !f[j].Heading?) ==> ExtractTitle(f, fallback) == fallback
    ensures forall k :: 0 <= k < |f| && f[k].Heading? && (forall j :: 0 <= j < k ==> !f[j].Heading?) ==>
              ExtractTitle(f, fallback) == if |Trim(f[k].text)| > 0 then Trim(f[k].text) else fallback
  {
    ExtractTitleFirstHeading(f, fallback);
    var first := FirstHeadingAt(f);
    forall k | 0 <= k < |f| && f[k].Heading? && (forall j :: 0 <= j < k ==> !f[j].Heading?)
      ensures k == first
    {
    }
  }

  lemma {:induction false} UnpaddedTrim(s: string)
    requires Unpadded(s)
    ensures TrimStart(s) == s && TrimEnd(s) == s && Trim(s) == s
  {
  }

  /**
   * `<hN>X</hN>P1 | P2 | P3` splits into three fragments; the first is titled by its
   * heading, the others, which have none, take their fallback.
   */
  lemma {:induction false} SplitExample(level: HeadingLevel, x: string, p1: string, p2: string, p3: string, fallback: string)
    requires Unpadded(x) && Unpadded(p1) && Unpadded(p2) && Unpadded(p3)
    ensures Parts([Heading(level, x), Html(p1), Break, Html(p2), Break, Html(p3)])
         == [[Heading(level, x), Html(p1)], [Html(p2)], [Html(p3)]]
    ensures ExtractTitle([Heading(level, x), Html(p1)], fallback) == x
    ensures ExtractTitle([Html(p2)], fallback) == fallback
  {
    ExampleParts(level, x, p1, p2, p3);
    UnpaddedTrim(x);
    assert FirstHeadingAt([Html(p2)]) == 1;
  }

  lemma {:induction false} ExampleParts(level: HeadingLevel, x: string, p1: string, p2: string, p3: string)
    requires Unpadded(p1) && Unpadded(p2) && Unpadded(p3)
    ensures Parts([Heading(level, x), Html(p1), Break, Html(p2), Break, Html(p3)])
         == [[Heading(level, x), Html(p1)], [Html(p2)], [Html(p3)]]
  {
    var ps := [[Heading(level, x), Html(p1)], [Html(p2)], [Html(p3)]];
    HeadedTextClean(level, x, p1);
    TextClean(p2);
    TextClean(p3);
    PartsOfJoin(ps);
    ExampleJoin(level, x, p1, p2, p3);
  }

  lemma {:induction false} ExampleJoin(level: HeadingLevel, x: string, p1: string, p2: string, p3: string)
    ensures Join([[Heading(level, x), Html(p1)], [Html(p2)], [Html(p3)]])
         == [Heading(level, x), Html(p1), Break, Html(p2), Break, Html(p3)]
  {
    var ps := [[Heading(level, x), Html(p1)], [Html(p2)], [Html(p3)]];
    var tail := [Html(p2)] + [Break] + [Html(p3)];
    assert ps[1..] == [[Html(p2)], [Html(p3)]];
    assert ps[1..][1..] == [[Html(p3)]];
    assert Join(ps[1..]) == tail;
    assert Join(ps) == [Heading(level, x), Html(p1)] + [Break] + tail;
  }

  /** Opaque text without outer white space is already a kept fragment. */
  lemma {:induction false} TextClean(text: string)
    requires Unpadded(text)
    ensures Clean([Html(text)])
  {
    var p := [Html(text)];
    UnpaddedTrim(text);
    assert p[1..] == [];
    assert TrimFragmentStart(p) == p;
    assert p[..0] + [Html(text)] == p;
    assert TrimFragmentEnd(p) == p;
    assert Render(p) == text + Render([]);
  }

  /** The same text after a heading is one too: a tag never begins with white space. */
  lemma {:induction false} HeadedTextClean(level: HeadingLevel, x: string, text: string)
    requires Unpadded(text)
    ensures Clean([Heading(level, x), Html(text)])
  {
    var p := [Heading(level, x), Html(text)];
    UnpaddedTrim(text);
    assert TrimFragmentStart(p) == p;
    assert p[..1] + [Html(text)] == p;
    assert Render(p) == RenderToken(p[0]) + Render(p[1..]);
  }
}

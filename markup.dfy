/**
 * Serialized editor markup as a sequence of tokens. Only the two structures the
 * editor inspects are distinguished: heading elements h1..h6 and the chapter-break
 * marker; everything else is opaque markup that passes through unchanged.
 */
module Markup {
  import opened JsString

  type HeadingLevel = l: nat | 1 <= l <= 6 witness 1

  datatype Token =
    | Html(text: string)                          // opaque serialized markup
    | Heading(level: HeadingLevel, text: string)  // <hN>text</hN>; text is its text content
    | Break                                       // <hr data-chapter-break="true" ...>

  type Markup = seq<Token>

  /** The serialized form of one token. Only opaque markup can begin or end with white space. */
  function RenderToken(t: Token): (s: string)
    ensures !t.Html? ==> |s| > 0 && s[0] == '<' && s[|s| - 1] == '>'
    ensures t.Html? ==> s == t.text
  {
    match t
    case Html(s) => s
    case Heading(l, s) => "<h" + [DigitChar(l)] + ">" + s + "</h" + [DigitChar(l)] + ">"
    case Break => "<" + "hr data-chapter-break=\"true\" class=\"ae-chapter-break\"" + ">"
  }

  /** The serialized markup string the editing surface would hand out (editor.getHTML()). */
  function Render(m: Markup): (s: string)
    ensures m != [] && !m[0].Html? ==> |s| > 0 && s[0] == '<'
  {
    if m == [] then "" else RenderToken(m[0]) + Render(m[1..])
  }

  lemma {:induction false} RenderAppend(a: Markup, b: Markup)
    ensures Render(a + b) == Render(a) + Render(b)
  {
    if a == [] {
      assert a + b == b;
    } else {
      assert (a + b)[0] == a[0];
      assert (a + b)[1..] == a[1..] + b;
      RenderAppend(a[1..], b);
    }
  }

  lemma {:induction false} RenderLast(m: Markup)
    requires m != []
    ensures Render(m) == Render(m[..|m| - 1]) + RenderToken(m[|m| - 1])
  {
    var init, last := m[..|m| - 1], m[|m| - 1];
    assert m == init + [last];
    RenderAppend(init, [last]);
    assert Render([last]) == RenderToken(last) + Render([]);
  }

  /** Leading white space of a fragment removed at token level. */
  function TrimFragmentStart(f: Markup): (r: Markup)
    ensures Break !in f ==> Break !in r
    ensures |r| <= |f|
  {
    if f == [] then []
    else if f[0].Html? && TrimStart(f[0].text) == [] then TrimFragmentStart(f[1..])
    else if f[0].Html? then [Html(TrimStart(f[0].text))] + f[1..]
    else f
  }

  /** Trailing white space of a fragment removed at token level. */
  function TrimFragmentEnd(f: Markup): (r: Markup)
    ensures Break !in f ==> Break !in r
    ensures |r| <= |f|
  {
    if f == [] then []
    else
      var last := f[|f| - 1];
      if last.Html? && TrimEnd(last.text) == [] then TrimFragmentEnd(f[..|f| - 1])
      else if last.Html? then f[..|f| - 1] + [Html(TrimEnd(last.text))]
      else f
  }

  /** The `.trim()` applied to each split fragment, at token level. */
  function TrimFragment(f: Markup): (r: Markup)
    ensures Break !in f ==> Break !in r
  {
    TrimFragmentEnd(TrimFragmentStart(f))
  }

  lemma {:induction false} RenderTrimFragmentStart(f: Markup)
    ensures Render(TrimFragmentStart(f)) == TrimStart(Render(f))
  {
    if f != [] {
      var head, rest := RenderToken(f[0]), Render(f[1..]);
      assert Render(f) == head + rest;
      TrimStartAppend(head, rest);
      if f[0].Html? && TrimStart(f[0].text) == [] {
        RenderTrimFragmentStart(f[1..]);
      } else if f[0].Html? {
        var g := [Html(TrimStart(f[0].text))] + f[1..];
        assert g[1..] == f[1..];
        assert Render(g) == TrimStart(head) + rest;
      } else {
        assert TrimStart(head) == head;
      }
    }
  }

  lemma {:induction false} RenderTrimFragmentEnd(f: Markup)
    ensures Render(TrimFragmentEnd(f)) == TrimEnd(Render(f))
  {
    if f != [] {
      var init, last := f[..|f| - 1], f[|f| - 1];
      RenderLast(f);
      TrimEndAppend(Render(init), RenderToken(last));
      if last.Html? && TrimEnd(last.text) == [] {
        RenderTrimFragmentEnd(init);
      } else if last.Html? {
        var g := init + [Html(TrimEnd(last.text))];
        RenderLast(g);
        assert g[..|g| - 1] == init;
      } else {
        assert TrimEnd(RenderToken(last)) == RenderToken(last);
      }
    }
  }

  /** Token-level trimming agrees with String.prototype.trim on the serialized fragment. */
  lemma {:induction false} RenderTrimFragment(f: Markup)
    ensures Render(TrimFragment(f)) == Trim(Render(f))
  {
    RenderTrimFragmentStart(f);
    RenderTrimFragmentEnd(TrimFragmentStart(f));
  }
}

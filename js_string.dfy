/** A small Option type for optional props and optional results. */
module Wrappers {
  datatype Option<+T> = None | Some(value: T) {
    function GetOr(default: T): (v: T)
      ensures Some? ==> v == value
      ensures None? ==> v == default
    {
      match this
      case Some(v) => v
      case None => default
    }
  }
}

/**
 * The pieces of JavaScript string behaviour the editor relies on:
 * the white-space set of String.prototype.trim / parseInt, and the three trims.
 */
module JsString {

  /** WhiteSpace or LineTerminator code points, as ECMAScript's trim and parseInt skip them. */
  predicate IsSpace(c: char) {
    if c <= ' ' then c == ' ' || '\t' <= c <= '\r'
    else if c < '\U{00A0}' then false
    else
      || c == '\U{00A0}' || c == '\U{1680}' || '\U{2000}' <= c <= '\U{200A}'
      || c == '\U{2028}' || c == '\U{2029}' || c == '\U{202F}' || c == '\U{205F}'
      || c == '\U{3000}' || c == '\U{FEFF}'
  }

  predicate IsDigit(c: char) {
    '0' <= c <= '9'
  }

  function DigitChar(d: nat): (c: char)
    requires d < 10
    ensures IsDigit(c) && c as int - '0' as int == d
  {
    ('0' as int + d) as char
  }

  /** String.prototype.trimStart: drops the longest all-white-space prefix. */
  function TrimStart(s: string): (r: string)
    ensures |r| <= |s| && r == s[|s| - |r|..]
    ensures forall i :: 0 <= i < |s| - |r| ==> IsSpace(s[i])
    ensures r == [] || !IsSpace(r[0])
  {
    if s != [] && IsSpace(s[0]) then TrimStart(s[1..]) else s
  }

  /** String.prototype.trimEnd: drops the longest all-white-space suffix. */
  function TrimEnd(s: string): (r: string)
    ensures |r| <= |s| && r == s[..|r|]
    ensures forall i :: |r| <= i < |s| ==> IsSpace(s[i])
    ensures r == [] || !IsSpace(r[|r| - 1])
  {
    if s != [] && IsSpace(s[|s| - 1]) then TrimEnd(s[..|s| - 1]) else s
  }

  /** String.prototype.trim. */
  function Trim(s: string): (r: string)
    ensures r == [] || (!IsSpace(r[0]) && !IsSpace(r[|r| - 1]))
  {
    TrimEnd(TrimStart(s))
  }

  /** The trimmed string is a slice of the original, with only white space cut off around it. */
  lemma {:induction false} TrimSlice(s: string)
    ensures exists i, j ::
      && 0 <= i <= j <= |s| && Trim(s) == s[i..j]
      && (forall k :: 0 <= k < i ==> IsSpace(s[k]))
      && (forall k :: j <= k < |s| ==> IsSpace(s[k]))
  {
    var t := TrimStart(s);
    var r := TrimEnd(t);
    var i := |s| - |t|;
    assert r == s[i..i + |r|];
    forall k | i + |r| <= k < |s| ensures IsSpace(s[k]) {
      assert s[k] == t[k - i];
    }
  }

  /** Trimming is idempotent. */
  lemma {:induction false} TrimIdempotent(s: string)
    ensures Trim(Trim(s)) == Trim(s)
  {
    var r := Trim(s);
    assert TrimStart(r) == r;
    assert TrimEnd(r) == r;
  }

  /** Trimming the start of a concatenation only reaches into the right part when the left part is all white space. */
  lemma {:induction false} TrimStartAppend(a: string, b: string)
    ensures TrimStart(a + b) == if TrimStart(a) == [] then TrimStart(b) else TrimStart(a) + b
  {
    if a == [] {
      assert a + b == b;
    } else {
      assert (a + b)[0] == a[0];
      assert (a + b)[1..] == a[1..] + b;
      if IsSpace(a[0]) {
        calc {
          TrimStart(a + b);
          TrimStart(a[1..] + b);
          { TrimStartAppend(a[1..], b); }
          if TrimStart(a[1..]) == [] then TrimStart(b) else TrimStart(a[1..]) + b;
        }
      }
    }
  }

  /** Trimming the end of a concatenation only reaches into the left part when the right part is all white space. */
  lemma {:induction false} TrimEndAppend(a: string, b: string)
    ensures TrimEnd(a + b) == if TrimEnd(b) == [] then TrimEnd(a) else a + TrimEnd(b)
  {
    if b == [] {
      assert a + b == a;
    } else {
      assert (a + b)[..|a + b| - 1] == a + b[..|b| - 1];
      if IsSpace(b[|b| - 1]) {
        TrimEndAppend(a, b[..|b| - 1]);
      }
    }
  }
}

/** The few `str` methods the modelled code relies on: `join`, `strip` and
    `replace` of a single character. */
module PythonStr {

  /** `sep.join(parts)`. */
  function Join(parts: seq<string>, sep: string): string
  {
    if |parts| == 0 then ""
    else if |parts| == 1 then parts[0]
    else parts[0] + sep + Join(parts[1..], sep)
  }

  /** The whitespace `unicode.strip` removes in Python 2 (Unicode 5.2):
      the characters whose bidirectional class is WS, B or S, or whose
      category is Zs. */
  predicate IsSpace(c: char)
  {
    || '\U{9}' <= c <= '\U{D}'
    || '\U{1C}' <= c <= '\U{20}'
    || c == '\U{85}' || c == '\U{A0}' || c == '\U{1680}' || c == '\U{180E}'
    || '\U{2000}' <= c <= '\U{200A}'
    || c == '\U{2028}' || c == '\U{2029}' || c == '\U{202F}' || c == '\U{205F}'
    || c == '\U{3000}'
  }

  predicate Blank(s: string)
  {
    forall i :: 0 <= i < |s| ==> IsSpace(s[i])
  }

  /** `s.lstrip()`. */
  function StripLeft(s: string): (r: string)
    ensures |r| <= |s| && r == s[|s| - |r|..]
    ensures r == "" || !IsSpace(r[0])
    ensures Blank(s[..|s| - |r|])
  {
    if |s| == 0 then s
    else if IsSpace(s[0]) then
      var r := StripLeft(s[1..]);
      assert s[1..][..|s| - 1 - |r|] == s[1..|s| - |r|];
      r
    else s
  }

  /** `s.rstrip()`. */
  function StripRight(s: string): (r: string)
    ensures |r| <= |s| && r == s[..|r|]
    ensures r == "" || !IsSpace(r[|r| - 1])
    ensures Blank(s[|r|..])
  {
    if |s| == 0 then s
    else if IsSpace(s[|s| - 1]) then
      var r := StripRight(s[..|s| - 1]);
      assert s[|r|..] == s[..|s| - 1][|r|..] + [s[|s| - 1]];
      assert s[..|s| - 1][..|r|] == s[..|r|];
      r
    else s
  }

  /** `s.strip()`: the string without its leading and trailing
      whitespace. */
  function Strip(s: string): (r: string)
  {
    StripRight(StripLeft(s))
  }

  /** A stripped string starts and ends with a non-space, and it is what
      remains of `s` after whitespace is cut from both ends. */
  lemma StripShape(s: string)
    ensures var r := Strip(s);
            && (r == "" || (!IsSpace(r[0]) && !IsSpace(r[|r| - 1])))
            && exists i, j :: 0 <= i <= j <= |s| && r == s[i..j] && Blank(s[..i]) && Blank(s[j..])
  {
    var l := StripLeft(s);
    var r := StripRight(l);
    var i := |s| - |l|;
    var j := i + |r|;
    assert r == s[i..j];
    assert s[j..] == l[|r|..];
  }

  /** Stripping twice is stripping once. */
  lemma StripIdempotent(s: string)
    ensures Strip(Strip(s)) == Strip(s)
  {
    var r := Strip(s);
    StripShape(s);
    if r != "" {
      assert StripLeft(r) == r;
      assert StripRight(r) == r;
    }
  }

  /** Leading whitespace makes no difference to `strip`. */
  lemma {:induction false} StripBlankPrefix(w: string, t: string)
    requires Blank(w)
    ensures Strip(w + t) == Strip(t)
    decreases |w|
  {
    if |w| > 0 {
      assert (w + t)[1..] == w[1..] + t;
      StripBlankPrefix(w[1..], t);
    } else {
      assert w + t == t;
    }
  }

  /** A string without surrounding whitespace strips to itself. */
  lemma StripTrimmed(t: string)
    requires t == "" || (!IsSpace(t[0]) && !IsSpace(t[|t| - 1]))
    ensures Strip(t) == t
  {
  }

  /** A no-break space is whitespace to `unicode.strip`. */
  lemma StripNoBreakSpace(t: string)
    requires t == "" || (!IsSpace(t[0]) && !IsSpace(t[|t| - 1]))
    ensures Strip(['\U{A0}'] + t) == t
  {
    StripBlankPrefix(['\U{A0}'], t);
    StripTrimmed(t);
  }

  /** `s.replace(c, with)` for a single character `c`. */
  function ReplaceChar(s: string, c: char, with: string): (r: string)
    ensures c !in s ==> r == s
  {
    if |s| == 0 then ""
    else (if s[0] == c then with else [s[0]]) + ReplaceChar(s[1..], c, with)
  }

  lemma ReplaceCharConcat(a: string, b: string, c: char, with: string)
    ensures ReplaceChar(a + b, c, with) == ReplaceChar(a, c, with) + ReplaceChar(b, c, with)
    decreases |a|
  {
    if |a| > 0 {
      assert (a + b)[1..] == a[1..] + b;
      ReplaceCharConcat(a[1..], b, c, with);
    } else {
      assert a + b == b;
    }
  }
}

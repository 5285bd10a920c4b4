/** `camel_case` of `shrubbery.utils.text`: every `_` followed by a lower-case
    ASCII letter is replaced by that letter in upper case, and the first
    character can then be forced to upper or lower case. */
module Text {
  import opened Wrappers

  datatype Error = IndexError

  predicate IsLower(c: char)
  {
    'a' <= c <= 'z'
  }

  predicate IsUpper(c: char)
  {
    'A' <= c <= 'Z'
  }

  /** `str.upper` on one character (ASCII letters only). */
  function Upper(c: char): (u: char)
    ensures !IsLower(u)
    ensures IsLower(c) ==> IsUpper(u) && u as int == c as int - 32
    ensures !IsLower(c) ==> u == c
  {
    if IsLower(c) then (c as int - 32) as char else c
  }

  /** `str.lower` on one character (ASCII letters only). */
  function Lower(c: char): (l: char)
    ensures !IsUpper(l)
    ensures IsUpper(c) ==> IsLower(l) && l as int == c as int + 32
    ensures !IsUpper(c) ==> l == c
  {
    if IsUpper(c) then (c as int + 32) as char else c
  }

  /** The pattern `_([a-z])` matches at position `i`. */
  predicate MatchAt(s: string, i: int)
  {
    0 <= i && i + 1 < |s| && s[i] == '_' && IsLower(s[i + 1])
  }

  /** No match of `_([a-z])` anywhere. */
  predicate NoMatch(s: string)
  {
    forall i :: 0 <= i < |s| ==> !MatchAt(s, i)
  }

  /** `re.sub('_([a-z])', upper, s)`: matches are found left to right and
      never overlap. */
  function Substitute(s: string): (r: string)
    ensures |r| <= |s|
    ensures |s| > 0 <==> |r| > 0
    decreases |s|
  {
    if |s| == 0 then ""
    else if MatchAt(s, 0) then [Upper(s[1])] + Substitute(s[2..])
    else [s[0]] + Substitute(s[1..])
  }

  /** The first character of the substitution comes from the first match or
      is the first character itself. */
  lemma SubstituteHead(s: string)
    requires |s| > 0
    ensures Substitute(s)[0] == if MatchAt(s, 0) then Upper(s[1]) else s[0]
  {
  }

  /** A kept character is never made to start a new match: the result has
      no `_` followed by a lower-case letter. */
  lemma {:induction false} SubstituteLeavesNoMatch(s: string)
    ensures NoMatch(Substitute(s))
    decreases |s|
  {
    if |s| > 0 {
      var rest := if MatchAt(s, 0) then s[2..] else s[1..];
      SubstituteLeavesNoMatch(rest);
      var r := Substitute(s);
      assert r[1..] == Substitute(rest);
      forall i | 0 <= i < |r| ensures !MatchAt(r, i) {
        if i > 0 {
          assert !MatchAt(Substitute(rest), i - 1);
        } else if 1 < |r| && r[0] == '_' {
          assert !MatchAt(s, 0);
          SubstituteHead(rest);
          assert rest == s[1..];
        }
      }
    }
  }

  /** A string without a match is left unchanged. */
  lemma {:induction false} SubstituteFixesNoMatch(s: string)
    requires NoMatch(s)
    ensures Substitute(s) == s
    decreases |s|
  {
    if |s| > 0 {
      assert !MatchAt(s, 0);
      assert NoMatch(s[1..]) by {
        forall i | 0 <= i < |s[1..]| ensures !MatchAt(s[1..], i) {
          assert !MatchAt(s, i + 1);
        }
      }
      SubstituteFixesNoMatch(s[1..]);
      assert s == [s[0]] + s[1..];
    }
  }

  /** `camel_case(s, initial_cap)`: with `None` only the substitution; with
      `True` or `False` the first character is then upper- or lower-cased,
      which raises `IndexError` on an empty string. */
  function CamelCase(s: string, initialCap: Option<bool>): (r: Result<string, Error>)
    ensures initialCap.None? ==> r == Success(Substitute(s))
    ensures initialCap.Some? ==> (r.Failure? <==> |s| == 0)
    ensures r.Success? ==> |r.value| == |Substitute(s)|
    ensures initialCap.Some? && r.Success? ==>
              && r.value[0] == (if initialCap.value then Upper(Substitute(s)[0]) else Lower(Substitute(s)[0]))
              && r.value[1..] == Substitute(s)[1..]
  {
    var t := Substitute(s);
    match initialCap
    case None => Success(t)
    case Some(up) =>
      if |t| == 0 then Failure(IndexError)
      else Success([if up then Upper(t[0]) else Lower(t[0])] + t[1..])
  }

  /** `camel_case` without `initial_cap` is idempotent. */
  lemma CamelCaseIdempotent(s: string)
    ensures CamelCase(CamelCase(s, None).value, None) == CamelCase(s, None)
  {
    SubstituteLeavesNoMatch(s);
    SubstituteFixesNoMatch(Substitute(s));
  }

  lemma SubstituteKeep(c: char, t: string)
    requires !(c == '_' && |t| > 0 && IsLower(t[0]))
    ensures Substitute([c] + t) == [c] + Substitute(t)
  {
    assert ([c] + t)[1..] == t;
  }

  lemma SubstituteMatch(c: char, t: string)
    requires IsLower(c)
    ensures Substitute(['_', c] + t) == [Upper(c)] + Substitute(t)
  {
    assert (['_', c] + t)[2..] == t;
  }

  lemma SubstituteBar()
    ensures Substitute("_bar") == "Bar"
  {
    SubstituteKeep('r', "");
    assert ['r'] + "" == "r";
    SubstituteKeep('a', "r");
    assert ['a'] + "r" == "ar";
    SubstituteMatch('b', "ar");
    assert ['_', 'b'] + "ar" == "_bar";
    assert [Upper('b')] + "ar" == "Bar";
  }

  lemma SubstituteFooBar()
    ensures Substitute("foo_bar") == "fooBar"
  {
    SubstituteBar();
    SubstituteKeep('o', "_bar");
    assert ['o'] + "_bar" == "o_bar" && ['o'] + "Bar" == "oBar";
    SubstituteKeep('o', "o_bar");
    assert ['o'] + "o_bar" == "oo_bar" && ['o'] + "oBar" == "ooBar";
    SubstituteKeep('f', "oo_bar");
    assert ['f'] + "oo_bar" == "foo_bar" && ['f'] + "ooBar" == "fooBar";
  }

  /** `camel_case('foo_bar', True)` is `'FooBar'`. */
  lemma CamelCaseFooBar()
    ensures CamelCase("foo_bar", Some(true)) == Success("FooBar")
  {
    SubstituteFooBar();
    assert [Upper('f')] + "fooBar"[1..] == "FooBar";
  }

  /** Of `'__x'` only the second underscore starts a match, and an
      upper-case letter after `_` is not a match. */
  lemma CamelCaseUnderscores()
    ensures CamelCase("__x", None) == Success("_X")
    ensures CamelCase("a_B", None) == Success("a_B")
    ensures CamelCase("", Some(false)) == Failure(IndexError)
  {
    SubstituteMatch('x', "");
    assert ['_', 'x'] + "" == "_x" && [Upper('x')] + "" == "X";
    SubstituteKeep('_', "_x");
    assert ['_'] + "_x" == "__x" && ['_'] + "X" == "_X";
    SubstituteKeep('B', "");
    assert ['B'] + "" == "B";
    SubstituteKeep('_', "B");
    assert ['_'] + "B" == "_B";
    SubstituteKeep('a', "_B");
    assert ['a'] + "_B" == "a_B";
  }
}

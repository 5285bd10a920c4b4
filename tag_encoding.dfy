/** `quote_tag`, `encode_tags` and `parse_tags` of
    `shrubbery.tagging.encoding`: tag names written as a comma separated
    list, a name quoted with `"` when it holds a comma or a quote, and `\`
    escaping `\` and `"` inside quotes. */
module TagEncoding {
  import opened Wrappers
  import opened PythonStr

  const Separator := ','
  const QuoteChar := '"'
  const EscapeChar := '\\'

  datatype Error = ValueError(message: string)

  // ---------------------------------------------------------------------
  // quote_tag and encode_tags
  // ---------------------------------------------------------------------

  /** `name.replace('\\', '\\\\').replace('"', '\\"')`. */
  function Escaped(name: string): string
  {
    ReplaceChar(ReplaceChar(name, EscapeChar, [EscapeChar, EscapeChar]), QuoteChar, [EscapeChar, QuoteChar])
  }

  /** What each character of a name becomes inside quotes. */
  function EscapeOne(c: char): string
  {
    if c == EscapeChar then [EscapeChar, EscapeChar]
    else if c == QuoteChar then [EscapeChar, QuoteChar]
    else [c]
  }

  function EscapeEach(name: string): string
  {
    if |name| == 0 then "" else EscapeOne(name[0]) + EscapeEach(name[1..])
  }

  /** The two replacements amount to escaping each character once: the
      backslashes the second one introduces are not doubled again. */
  lemma {:induction false} EscapedIsEscapeEach(name: string)
    ensures Escaped(name) == EscapeEach(name)
    decreases |name|
  {
    if |name| > 0 {
      var c := name[0];
      var d := if c == EscapeChar then [EscapeChar, EscapeChar] else [c];
      var first := ReplaceChar(name, EscapeChar, [EscapeChar, EscapeChar]);
      assert first == d + ReplaceChar(name[1..], EscapeChar, [EscapeChar, EscapeChar]);
      ReplaceCharConcat(d, ReplaceChar(name[1..], EscapeChar, [EscapeChar, EscapeChar]), QuoteChar, [EscapeChar, QuoteChar]);
      EscapedIsEscapeEach(name[1..]);
      if c == EscapeChar {
        assert ReplaceChar(d, QuoteChar, [EscapeChar, QuoteChar]) == d;
      } else {
        assert ReplaceChar(d, QuoteChar, [EscapeChar, QuoteChar]) == EscapeOne(c);
      }
    }
  }

  /** Whether `quote_tag` wraps a name in quotes. */
  predicate NeedsQuotes(name: string, force: bool)
  {
    force || Separator in name || QuoteChar in name
  }

  /** `quote_tag(name, force)`. */
  function QuoteTag(name: string, force: bool): (r: string)
    ensures !NeedsQuotes(name, force) ==> r == name
    ensures NeedsQuotes(name, force) ==> r == [QuoteChar] + EscapeEach(name) + [QuoteChar]
  {
    EscapedIsEscapeEach(name);
    if NeedsQuotes(name, force) then [QuoteChar] + Escaped(name) + [QuoteChar] else name
  }

  /** `[quote_tag(unicode(tag)) for tag in tags]`. */
  function QuotedAll(tags: seq<string>): (r: seq<string>)
    ensures |r| == |tags| && forall i :: 0 <= i < |tags| ==> r[i] == QuoteTag(tags[i], false)
  {
    if |tags| == 0 then [] else [QuoteTag(tags[0], false)] + QuotedAll(tags[1..])
  }

  /** `encode_tags(tags)`. */
  function EncodeTags(tags: seq<string>): (r: string)
    ensures |tags| == 0 ==> r == ""
    ensures |tags| == 1 ==> r == QuoteTag(tags[0], false)
    ensures |tags| >= 2 ==> r == QuoteTag(tags[0], false) + (", " + EncodeTags(tags[1..]))
  {
    var qs := QuotedAll(tags);
    assert |tags| >= 2 ==> qs[1..] == QuotedAll(tags[1..]);
    Join(qs, ", ")
  }

  // ---------------------------------------------------------------------
  // parse_tags
  // ---------------------------------------------------------------------

  /** The generator's locals: the characters collected so far, whether a
      quote is open, and the tags yielded so far. */
  datatype State = State(buf: string, quoted: bool, tags: seq<string>)

  const Start := State("", false, [])

  /** Yield `"".join(buf).strip()` unless it is empty. */
  function Emit(tags: seq<string>, buf: string): seq<string>
  {
    if Strip(buf) == "" then tags else tags + [Strip(buf)]
  }

  /** What `parse_tags` yields from the rest `s` of its input in state
      `st`. Running out of input inside an escape or a quote gives "quotes
      mismatch", since the `StopIteration` lands in the same handler. */
  function Run(s: string, st: State): Result<seq<string>, Error>
    decreases |s|
  {
    if |s| == 0 then
      if st.quoted then Failure(ValueError("quotes mismatch")) else Success(Emit(st.tags, st.buf))
    else
      var c := s[0];
      if c == QuoteChar then
        if st.quoted then Run(s[1..], State("", false, Emit(st.tags, st.buf)))
        else Run(s[1..], State(st.buf, true, st.tags))
      else if c == Separator then
        if st.quoted then Run(s[1..], State(st.buf + [c], true, st.tags))
        else Run(s[1..], State("", false, Emit(st.tags, st.buf)))
      else if c == EscapeChar && st.quoted then
        if |s| == 1 then Failure(ValueError("quotes mismatch"))
        else if s[1] != EscapeChar && s[1] != QuoteChar then Failure(ValueError("illegal escape sequence"))
        else Run(s[2..], State(st.buf + [s[1]], true, st.tags))
      else Run(s[1..], State(st.buf + [c], st.quoted, st.tags))
  }

  /** `list(parse_tags(tag_input))`, one character at a time. */
  method ParseTags(input: string) returns (r: Result<seq<string>, Error>)
    ensures r == Run(input, Start)
  {
    var buf := "";
    var quoted := false;
    var tags := [];
    var i := 0;
    while i < |input|
      invariant 0 <= i <= |input|
      invariant Run(input[i..], State(buf, quoted, tags)) == Run(input, Start)
      decreases |input| - i
    {
      var c := input[i];
      assert input[i..][0] == c && input[i..][1..] == input[i + 1..];
      if c == QuoteChar {
        if quoted {
          tags := Emit(tags, buf);
          buf := "";
          quoted := false;
        } else {
          quoted := true;
        }
        i := i + 1;
      } else if c == Separator {
        if quoted {
          buf := buf + [c];
        } else {
          tags := Emit(tags, buf);
          buf := "";
        }
        i := i + 1;
      } else if c == EscapeChar && quoted {
        if i + 1 == |input| {
          return Failure(ValueError("quotes mismatch"));
        }
        var next := input[i + 1];
        assert input[i..][1] == next && input[i..][2..] == input[i + 2..];
        if next != EscapeChar && next != QuoteChar {
          return Failure(ValueError("illegal escape sequence"));
        }
        buf := buf + [next];
        i := i + 2;
      } else {
        buf := buf + [c];
        i := i + 1;
      }
    }
    assert input[i..] == "";
    if quoted {
      return Failure(ValueError("quotes mismatch"));
    }
    r := Success(Emit(tags, buf));
  }

  // ---------------------------------------------------------------------
  // Properties
  // ---------------------------------------------------------------------

  /** Every tag is non-empty and has no surrounding whitespace. */
  predicate Clean(tags: seq<string>)
  {
    forall i :: 0 <= i < |tags| ==> tags[i] != "" && Strip(tags[i]) == tags[i]
  }

  lemma EmitClean(tags: seq<string>, buf: string)
    requires Clean(tags)
    ensures Clean(Emit(tags, buf))
  {
    StripIdempotent(buf);
  }

  /** `parse_tags` never yields an empty tag, and every tag it yields is
      stripped. */
  lemma {:induction false} RunClean(s: string, st: State)
    requires Clean(st.tags)
    ensures Run(s, st).Success? ==> Clean(Run(s, st).value)
    decreases |s|
  {
    EmitClean(st.tags, st.buf);
    if |s| > 0 {
      var c := s[0];
      if c == QuoteChar {
        if st.quoted {
          RunClean(s[1..], State("", false, Emit(st.tags, st.buf)));
        } else {
          RunClean(s[1..], State(st.buf, true, st.tags));
        }
      } else if c == Separator {
        if st.quoted {
          RunClean(s[1..], State(st.buf + [c], true, st.tags));
        } else {
          RunClean(s[1..], State("", false, Emit(st.tags, st.buf)));
        }
      } else if c == EscapeChar && st.quoted {
        if |s| > 1 && (s[1] == EscapeChar || s[1] == QuoteChar) {
          RunClean(s[2..], State(st.buf + [s[1]], true, st.tags));
        }
      } else {
        RunClean(s[1..], State(st.buf + [c], st.quoted, st.tags));
      }
    }
  }

  lemma ParseTagsClean(input: string)
    ensures Run(input, Start).Success? ==> Clean(Run(input, Start).value)
  {
    RunClean(input, Start);
  }

  /** Inside an open quote, input without a closing quote or an escape
      fails with "quotes mismatch". */
  lemma {:induction false} Unterminated(s: string, st: State)
    requires st.quoted && QuoteChar !in s && EscapeChar !in s
    ensures Run(s, st) == Failure(ValueError("quotes mismatch"))
    decreases |s|
  {
    if |s| > 0 {
      assert s[0] in s;
      assert forall x :: x in s[1..] ==> x in s;
      Unterminated(s[1..], State(st.buf + [s[0]], true, st.tags));
    }
  }

  /** Inside quotes a backslash must be followed by a backslash or a
      quote. */
  lemma IllegalEscape(c: char, rest: string, st: State)
    requires st.quoted && c != EscapeChar && c != QuoteChar
    ensures Run([EscapeChar, c] + rest, st) == Failure(ValueError("illegal escape sequence"))
  {
  }

  /** Outside quotes a backslash is an ordinary character. */
  lemma BackslashOutsideQuotes(rest: string, st: State)
    requires !st.quoted
    ensures Run([EscapeChar] + rest, st) == Run(rest, State(st.buf + [EscapeChar], false, st.tags))
  {
    assert ([EscapeChar] + rest)[1..] == rest;
  }

  // ---------------------------------------------------------------------
  // The round trip
  // ---------------------------------------------------------------------

  /** One step of the machine on a quote. */
  lemma StepQuote(rest: string, st: State)
    ensures Run([QuoteChar] + rest, st)
            == if st.quoted then Run(rest, State("", false, Emit(st.tags, st.buf)))
               else Run(rest, State(st.buf, true, st.tags))
  {
    assert ([QuoteChar] + rest)[1..] == rest;
  }

  /** One step on a comma. */
  lemma StepSeparator(rest: string, st: State)
    ensures Run([Separator] + rest, st)
            == if st.quoted then Run(rest, State(st.buf + [Separator], true, st.tags))
               else Run(rest, State("", false, Emit(st.tags, st.buf)))
  {
    assert ([Separator] + rest)[1..] == rest;
  }

  /** One step on an ordinary character. */
  lemma StepChar(c: char, rest: string, st: State)
    requires c != QuoteChar && c != Separator && !(c == EscapeChar && st.quoted)
    ensures Run([c] + rest, st) == Run(rest, State(st.buf + [c], st.quoted, st.tags))
  {
    assert ([c] + rest)[1..] == rest;
  }

  /** One step on a legal escape inside quotes. */
  lemma StepEscape(c: char, rest: string, st: State)
    requires st.quoted && (c == EscapeChar || c == QuoteChar)
    ensures Run([EscapeChar, c] + rest, st) == Run(rest, State(st.buf + [c], true, st.tags))
  {
    assert ([EscapeChar, c] + rest)[2..] == rest;
  }

  /** An unquoted name is collected character by character. */
  lemma {:induction false} RunPlain(t: string, rest: string, st: State)
    requires Separator !in t && QuoteChar !in t && !st.quoted
    ensures Run(t + rest, st) == Run(rest, State(st.buf + t, false, st.tags))
    decreases |t|
  {
    if |t| == 0 {
      assert t + rest == rest && st.buf + t == st.buf;
    } else {
      assert t + rest == [t[0]] + (t[1..] + rest);
      assert t[0] in t;
      StepChar(t[0], t[1..] + rest, st);
      assert forall x :: x in t[1..] ==> x in t;
      RunPlain(t[1..], rest, State(st.buf + [t[0]], false, st.tags));
      assert st.buf + [t[0]] + t[1..] == st.buf + t;
    }
  }

  /** Inside quotes the escaped form of a name is read back as the name. */
  lemma {:induction false} RunEscaped(t: string, rest: string, st: State)
    requires st.quoted
    ensures Run(EscapeEach(t) + rest, st) == Run(rest, State(st.buf + t, true, st.tags))
    decreases |t|
  {
    if |t| == 0 {
      assert EscapeEach(t) + rest == rest && st.buf + t == st.buf;
    } else {
      var c := t[0];
      var tail := EscapeEach(t[1..]) + rest;
      assert EscapeEach(t) + rest == EscapeOne(c) + tail;
      var next := State(st.buf + [c], true, st.tags);
      if c == EscapeChar || c == QuoteChar {
        assert EscapeOne(c) == [EscapeChar, c];
        StepEscape(c, tail, st);
      } else if c == Separator {
        StepSeparator(tail, st);
      } else {
        StepChar(c, tail, st);
      }
      RunEscaped(t[1..], rest, next);
      assert st.buf + [c] + t[1..] == st.buf + t;
    }
  }

  /** The state after reading one encoded tag that followed `w`. */
  function AfterTag(t: string, w: string, acc: seq<string>): State
  {
    if NeedsQuotes(t, false) then State("", false, acc + [t]) else State(w + t, false, acc)
  }

  /** A quoted name is read back as the name and yielded at the closing
      quote. */
  lemma RunQuoted(t: string, rest: string, w: string, acc: seq<string>)
    ensures Run([QuoteChar] + EscapeEach(t) + [QuoteChar] + rest, State(w, false, acc))
            == Run(rest, State("", false, Emit(acc, w + t)))
  {
    assert [QuoteChar] + EscapeEach(t) + [QuoteChar] + rest == [QuoteChar] + (EscapeEach(t) + ([QuoteChar] + rest));
    StepQuote(EscapeEach(t) + ([QuoteChar] + rest), State(w, false, acc));
    RunEscaped(t, [QuoteChar] + rest, State(w, true, acc));
    StepQuote(rest, State(w + t, true, acc));
  }

  /** After blank characters a clean tag is yielded as it is. */
  lemma EmitTag(t: string, w: string, acc: seq<string>)
    requires Blank(w) && t != "" && Strip(t) == t
    ensures Emit(acc, w + t) == acc + [t]
    ensures Emit(AfterTag(t, w, acc).tags, AfterTag(t, w, acc).buf) == acc + [t]
  {
    StripBlankPrefix(w, t);
    assert Strip("") == "";
  }

  /** Reading the encoding of a clean tag after blank characters `w`. */
  lemma RunTag(t: string, rest: string, w: string, acc: seq<string>)
    requires Blank(w) && t != "" && Strip(t) == t
    ensures Run(QuoteTag(t, false) + rest, State(w, false, acc)) == Run(rest, AfterTag(t, w, acc))
  {
    if NeedsQuotes(t, false) {
      RunQuoted(t, rest, w, acc);
      EmitTag(t, w, acc);
    } else {
      RunPlain(t, rest, State(w, false, acc));
    }
  }

  /** Outside quotes the separator `", "` yields what was collected and
      leaves one blank character collected. */
  lemma RunSeparator(rest: string, st: State)
    requires !st.quoted
    ensures Run(", " + rest, st) == Run(rest, State(" ", false, Emit(st.tags, st.buf)))
  {
    assert ", " + rest == [Separator] + ([' '] + rest);
    StepSeparator([' '] + rest, st);
    StepChar(' ', rest, State("", false, Emit(st.tags, st.buf)));
    assert "" + [' '] == " ";
  }

  lemma EncodeCons(ts: seq<string>)
    requires |ts| >= 2
    ensures EncodeTags(ts) == QuoteTag(ts[0], false) + (", " + EncodeTags(ts[1..]))
  {
    var qs := QuotedAll(ts);
    assert qs[1..] == QuotedAll(ts[1..]);
    assert |qs| >= 2;
  }

  lemma EncodeOne(ts: seq<string>)
    requires |ts| == 1
    ensures EncodeTags(ts) == QuoteTag(ts[0], false) + ""
  {
  }

  lemma AppendCons(acc: seq<string>, ts: seq<string>)
    requires |ts| > 0
    ensures acc + [ts[0]] + ts[1..] == acc + ts
  {
    assert ts == [ts[0]] + ts[1..];
  }

  lemma CleanTail(ts: seq<string>)
    requires |ts| > 0 && Clean(ts)
    ensures Clean(ts[1..]) && ts[0] != "" && Strip(ts[0]) == ts[0]
  {
    forall i | 0 <= i < |ts[1..]| ensures ts[1..][i] != "" && Strip(ts[1..][i]) == ts[1..][i] {
      assert ts[1..][i] == ts[i + 1];
    }
  }

  /** Reading the first of two or more encoded tags and the separator
      after it. */
  lemma RunFirstTag(ts: seq<string>, w: string, acc: seq<string>)
    requires Blank(w) && |ts| >= 2 && ts[0] != "" && Strip(ts[0]) == ts[0]
    ensures Run(EncodeTags(ts), State(w, false, acc)) == Run(EncodeTags(ts[1..]), State(" ", false, acc + [ts[0]]))
  {
    var t := ts[0];
    var tail := EncodeTags(ts[1..]);
    EncodeCons(ts);
    RunTag(t, ", " + tail, w, acc);
    RunSeparator(tail, AfterTag(t, w, acc));
    EmitTag(t, w, acc);
  }

  lemma RoundTripNone(w: string, acc: seq<string>)
    requires Blank(w)
    ensures Run(EncodeTags([]), State(w, false, acc)) == Success(acc + [])
  {
    assert QuotedAll([]) == [];
    assert EncodeTags([]) == "";
    StripBlankPrefix(w, "");
    assert w + "" == w;
    assert Strip("") == "";
    assert Run("", State(w, false, acc)) == Success(Emit(acc, w));
    assert acc + [] == acc;
  }

  lemma RoundTripLast(ts: seq<string>, w: string, acc: seq<string>)
    requires Blank(w) && Clean(ts) && |ts| == 1
    ensures Run(EncodeTags(ts), State(w, false, acc)) == Success(acc + ts)
  {
    var t := ts[0];
    CleanTail(ts);
    EncodeOne(ts);
    RunTag(t, "", w, acc);
    var st := AfterTag(t, w, acc);
    assert Run("", st) == Success(Emit(st.tags, st.buf));
    EmitTag(t, w, acc);
    assert ts == [t];
  }

  /** The encoding of clean tags, read after blank characters `w`, yields
      the tags. */
  lemma {:induction false} RoundTripFrom(ts: seq<string>, w: string, acc: seq<string>)
    requires Blank(w) && Clean(ts)
    ensures Run(EncodeTags(ts), State(w, false, acc)) == Success(acc + ts)
    decreases |ts|
  {
    if |ts| == 0 {
      RoundTripNone(w, acc);
    } else if |ts| == 1 {
      RoundTripLast(ts, w, acc);
    } else {
      CleanTail(ts);
      RunFirstTag(ts, w, acc);
      RoundTripFrom(ts[1..], " ", acc + [ts[0]]);
      AppendCons(acc, ts);
    }
  }

  /** `parse_tags(encode_tags(ts)) == ts` for non-empty tags without
      surrounding whitespace. */
  lemma RoundTrip(ts: seq<string>)
    requires Clean(ts)
    ensures Run(EncodeTags(ts), Start) == Success(ts)
  {
    RoundTripFrom(ts, "", []);
    assert [] + ts == ts;
  }

  // ---------------------------------------------------------------------
  // Examples
  // ---------------------------------------------------------------------

  /** Whitespace contains neither a separator nor a quote. */
  lemma BlankIsPlain(w: string)
    requires Blank(w)
    ensures Separator !in w && QuoteChar !in w
  {
  }

  /** Leading whitespace of any kind before an unquoted tag is dropped:
      with `unicode.strip` that includes the no-break space U+00A0, so
      `u"\xa0x"` yields just `x`. */
  lemma ParseAfterSpaces(w: string, t: string)
    requires Blank(w) && t != "" && Strip(t) == t
    requires Separator !in t && QuoteChar !in t
    ensures Run(w + t, Start) == Success([t])
  {
    BlankIsPlain(w);
    assert Separator !in w + t && QuoteChar !in w + t;
    assert (w + t) + "" == w + t;
    RunPlain(w + t, "", Start);
    assert Start.buf + (w + t) == w + t;
    EmitTag(t, w, []);
    assert [] + [t] == [t];
  }

  /** Input made only of whitespace, such as `u" \xa0 "`, yields no
      tag. */
  lemma ParseBlank(w: string)
    requires Blank(w)
    ensures Run(w, Start) == Success([])
  {
    assert w + "" == w;
    RunPlain(w, "", Start);
    assert Start.buf + w == w;
    StripBlankPrefix(w, "");
  }

  /** `"a` ends inside a quote. */
  lemma ParseUnterminated()
    ensures Run("\"a", Start) == Failure(ValueError("quotes mismatch"))
  {
    assert "\"a"[1..] == "a";
    Unterminated("a", State("", true, []));
  }

  /** `"a\` ends inside an escape, which also counts as a quote
      mismatch. */
  lemma ParseEndsInEscape()
    ensures Run("\"a\\", Start) == Failure(ValueError("quotes mismatch"))
  {
    var s := "\"a\\";
    assert s[0] == QuoteChar && s[1..] == "a\\";
    assert s[1..][0] == 'a' && s[1..][1..] == "\\";
    assert Run("\\", State("a", true, [])) == Failure(ValueError("quotes mismatch"));
  }

  /** `"a\b"` escapes an ordinary letter. */
  lemma ParseIllegalEscape()
    ensures Run("\"a\\b\"", Start) == Failure(ValueError("illegal escape sequence"))
  {
    var s := "\"a\\b\"";
    assert s[0] == QuoteChar && s[1..] == "a\\b\"";
    assert s[1..][0] == 'a' && s[1..][1..] == [EscapeChar, 'b'] + "\"";
    IllegalEscape('b', "\"", State("a", true, []));
  }
}

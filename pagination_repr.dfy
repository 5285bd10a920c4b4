/** `PageRange.__repr__`, `PageRange.__unicode__` and `PageRanges.__repr__`
    of `shrubbery.utils.pagination`. */
module PaginationRepr {
  import opened Wrappers
  import opened Pagination
  import opened PythonStr

  datatype Error = IndexError

  const Digits := "0123456789"

  function DigitChar(d: nat): char
    requires d < 10
  {
    Digits[d]
  }

  /** `str(k)` for a non-negative `k`. */
  function NatStr(k: nat): (r: string)
    ensures |r| > 0
  {
    if k < 10 then [DigitChar(k)] else NatStr(k / 10) + [DigitChar(k % 10)]
  }

  /** `str(k)`. */
  function IntStr(k: int): string
  {
    if k < 0 then "-" + NatStr(-k) else NatStr(k)
  }

  predicate IsDigit(c: char)
  {
    '0' <= c <= '9'
  }

  function DigitValue(c: char): nat
    requires IsDigit(c)
  {
    c as int - '0' as int
  }

  /** The number a string of decimal digits stands for. */
  function DigitsValue(s: string): nat
    requires forall i :: 0 <= i < |s| ==> IsDigit(s[i])
  {
    if |s| == 0 then 0 else 10 * DigitsValue(s[..|s| - 1]) + DigitValue(s[|s| - 1])
  }

  /** `str(k)` is decimal digits without a leading zero, and reads back as
      `k`. */
  lemma {:induction false} NatStrDigits(k: nat)
    ensures var r := NatStr(k);
            && (forall i :: 0 <= i < |r| ==> IsDigit(r[i]))
            && (|r| > 1 ==> r[0] != '0')
            && DigitsValue(r) == k
    decreases k
  {
    var r := NatStr(k);
    if k >= 10 {
      var t := NatStr(k / 10);
      NatStrDigits(k / 10);
      assert r == t + [DigitChar(k % 10)];
      assert r[..|r| - 1] == t;
      assert r[0] == t[0];
    }
  }

  /** `[str(num) for num in xrange(start, stop)]`. */
  function NumberStrings(start: int, stop: int): (r: seq<string>)
    ensures |r| == |Interval(start, stop)|
    ensures forall i :: 0 <= i < |r| ==> r[i] == IntStr(Interval(start, stop)[i])
    decreases stop - start
  {
    if start >= stop then [] else [IntStr(start)] + NumberStrings(start + 1, stop)
  }

  /** `repr(range)`: `..` for an ellipsis, `<p>` for the current page (an
      `IndexError` when the current range is empty), otherwise the numbers
      joined by commas. */
  function RangeRepr(r: PageRange): (out: Result<string, Error>)
    ensures out.Failure? <==> !r.ellipsis && r.current && r.start >= r.stop
  {
    if r.ellipsis then Success("..")
    else if r.current then
      if r.start >= r.stop then Failure(IndexError) else Success("<" + IntStr(r.start) + ">")
    else Success(Join(NumberStrings(r.start, r.stop), ", "))
  }

  /** The horizontal ellipsis U+2026, which the comment on `__repr__`
      sets against the two dots it falls back to. */
  const HorizontalEllipsis: char := '\U{2026}'

  /** The ellipsis literal of `__unicode__` as the file declares it: the
      seven bytes of `u"â€¦"` read as UTF-8 are the three characters
      U+00E2, U+20AC and U+00A6. */
  const EllipsisLiteral: string := "\U{E2}\U{20AC}\U{A6}"

  /** `unicode(range)`, as written: the ellipsis literal instead of `..`,
      and `repr` otherwise. */
  function RangeUnicode(r: PageRange): (out: Result<string, Error>)
    ensures r.ellipsis ==> out == Success(EllipsisLiteral) && |out.value| == 3
    ensures !r.ellipsis ==> out == RangeRepr(r)
  {
    if r.ellipsis then Success(EllipsisLiteral) else RangeRepr(r)
  }

  /** `unicode(range)` with the single ellipsis character. */
  function RangeUnicodeCorrected(r: PageRange): (out: Result<string, Error>)
    ensures r.ellipsis ==> out == Success([HorizontalEllipsis])
    ensures !r.ellipsis ==> out == RangeUnicode(r)
  {
    if r.ellipsis then Success([HorizontalEllipsis]) else RangeRepr(r)
  }

  /** The UTF-8 encoding of a character. */
  function Utf8(c: char): (bs: seq<int>)
    ensures 1 <= |bs| <= 4 && forall i :: 0 <= i < |bs| ==> 0 <= bs[i] < 256
  {
    var n := c as int;
    if n < 0x80 then [n]
    else if n < 0x800 then [0xC0 + n / 64, 0x80 + n % 64]
    else if n < 0x10000 then [0xE0 + n / 4096, 0x80 + n / 64 % 64, 0x80 + n % 64]
    else [0xF0 + n / 262144, 0x80 + n / 4096 % 64, 0x80 + n / 64 % 64, 0x80 + n % 64]
  }

  /** Windows-1252 above 0x7F: the bytes 0x80 to 0x9F through its table
      (five of them unassigned), and Latin-1 from 0xA0 on. */
  const Cp1252High: seq<int> := [
    0x20AC, -1, 0x201A, 0x0192, 0x201E, 0x2026, 0x2020, 0x2021,
    0x02C6, 0x2030, 0x0160, 0x2039, 0x0152, -1, 0x017D, -1,
    -1, 0x2018, 0x2019, 0x201C, 0x201D, 0x2022, 0x2013, 0x2014,
    0x02DC, 0x2122, 0x0161, 0x203A, 0x0153, -1, 0x017E, 0x0178]

  /** The character Windows-1252 gives a byte, if any. */
  function Cp1252Char(b: int): Option<char>
    requires 0 <= b < 256
  {
    if b < 0x80 || b >= 0xA0 then Some(b as char)
    else if Cp1252High[b - 0x80] < 0 then None
    else Some(Cp1252High[b - 0x80] as char)
  }

  /** Bytes read as Windows-1252, failing at an unassigned byte. */
  function Cp1252Decode(bs: seq<int>): Option<string>
    requires forall i :: 0 <= i < |bs| ==> 0 <= bs[i] < 256
  {
    if |bs| == 0 then Some("")
    else
      var c, t := Cp1252Char(bs[0]), Cp1252Decode(bs[1..]);
      if c.Some? && t.Some? then Some([c.value] + t.value) else None
  }

  /** The ellipsis literal is the UTF-8 encoding of U+2026 read back as
      Windows-1252, so `unicode()` of an ellipsis range gives three
      characters, none of them an ellipsis, where one was meant. */
  lemma EllipsisMisEncoded(r: PageRange)
    requires r.ellipsis
    ensures Utf8(HorizontalEllipsis) == [0xE2, 0x80, 0xA6]
    ensures Cp1252Decode(Utf8(HorizontalEllipsis)) == Some(EllipsisLiteral)
    ensures RangeUnicode(r) == Success(EllipsisLiteral) && HorizontalEllipsis !in EllipsisLiteral
    ensures RangeUnicode(r) != RangeUnicodeCorrected(r)
  {
    var bs := Utf8(HorizontalEllipsis);
    assert bs == [0xE2, 0x80, 0xA6];
    assert Cp1252Char(0xE2) == Some('\U{E2}');
    assert Cp1252Char(0x80) == Some('\U{20AC}');
    assert Cp1252Char(0xA6) == Some('\U{A6}');
    assert [0xA6][1..] == [];
    assert Cp1252Decode([]) == Some("");
    assert ['\U{A6}'] + "" == "\U{A6}";
    assert Cp1252Decode([0xA6]) == Some("\U{A6}");
    assert ['\U{20AC}'] + "\U{A6}" == "\U{20AC}\U{A6}";
    assert ['\U{E2}'] + "\U{20AC}\U{A6}" == EllipsisLiteral;
    assert [0x80, 0xA6][1..] == [0xA6];
    assert Cp1252Decode([0x80, 0xA6]) == Some("\U{20AC}\U{A6}");
    assert bs[1..] == [0x80, 0xA6];
  }

  /** `map(repr, ranges)`, failing at the first range that fails. */
  function Reprs(rs: seq<PageRange>): (out: Result<seq<string>, Error>)
    ensures out.Success? <==> forall i :: 0 <= i < |rs| ==> RangeRepr(rs[i]).Success?
    ensures out.Success? ==> |out.value| == |rs|
                             && forall i :: 0 <= i < |rs| ==> out.value[i] == RangeRepr(rs[i]).value
  {
    if |rs| == 0 then Success([])
    else
      var head :- RangeRepr(rs[0]);
      var tail :- Reprs(rs[1..]);
      assert forall i :: 1 <= i < |rs| ==> rs[i] == rs[1..][i - 1];
      Success([head] + tail)
  }

  /** `repr(PageRanges(page, ...))`. */
  function PageRangesRepr(p: int, n: int, s: Settings): (r: Result<string, Error>)
    ensures r.Success? <==> Reprs(Ranges(p, n, s)).Success?
    ensures r.Success? ==> |r.value| >= 16 && r.value[..14] == "<PageRanges: [" && r.value[|r.value| - 2..] == "]>"
  {
    var parts :- Reprs(Ranges(p, n, s));
    Success("<PageRanges: [" + Join(parts, "; ") + "]>")
  }

  /** The only range that could fail is the current one, `[p, p + 1)`, so
      the representation never fails. */
  lemma ReprNeverFails(p: int, n: int, s: Settings)
    ensures PageRangesRepr(p, n, s).Success?
  {
    var rs := Ranges(p, n, s);
    OneCurrent(p, n, s);
    var k :| 0 <= k < |rs| && rs[k] == PageRange(p, p + 1, false, true)
             && forall i :: 0 <= i < |rs| && rs[i].current ==> i == k;
    forall i | 0 <= i < |rs| ensures RangeRepr(rs[i]).Success? {
      if i == k {
        assert rs[i].start < rs[i].stop;
      } else {
        assert !rs[i].current;
      }
    }
  }

  // ---------------------------------------------------------------------
  // Two doctests, as text
  // ---------------------------------------------------------------------

  lemma SmallNumbers()
    ensures NatStr(1) == "1" && NatStr(2) == "2" && NatStr(3) == "3" && NatStr(4) == "4"
    ensures NatStr(28) == "28" && NatStr(29) == "29" && NatStr(30) == "30"
  {
    assert 28 / 10 == 2 && 28 % 10 == 8 && 29 / 10 == 2 && 29 % 10 == 9 && 30 / 10 == 3 && 30 % 10 == 0;
    assert NatStr(28) == NatStr(2) + [DigitChar(8)] == ['2'] + ['8'];
    assert NatStr(29) == NatStr(2) + [DigitChar(9)] == ['2'] + ['9'];
    assert NatStr(30) == NatStr(3) + [DigitChar(0)] == ['3'] + ['0'];
  }

  lemma JoinThree(a: string, b: string, c: string, sep: string)
    ensures Join([a, b, c], sep) == a + sep + b + sep + c
  {
    assert [a, b, c][1..] == [b, c];
    assert [b, c][1..] == [c];
    assert Join([b, c], sep) == b + sep + c;
    assert a + sep + (b + sep + c) == a + sep + b + sep + c;
  }

  lemma JoinTwo(a: string, b: string, sep: string)
    ensures Join([a, b], sep) == a + sep + b
  {
    assert [a, b][1..] == [b];
  }

  lemma JoinFour(a: string, b: string, c: string, d: string, sep: string)
    ensures Join([a, b, c, d], sep) == a + sep + Join([b, c, d], sep)
  {
    assert [a, b, c, d][1..] == [b, c, d];
  }

  lemma CurrentRepr(p: int)
    ensures RangeRepr(PageRange(p, p + 1, false, true)) == Success("<" + IntStr(p) + ">")
  {
  }

  lemma ReprsCons(a: PageRange, t: seq<PageRange>, sa: string, st: seq<string>)
    requires RangeRepr(a) == Success(sa) && Reprs(t) == Success(st)
    ensures Reprs([a] + t) == Success([sa] + st)
  {
    assert ([a] + t)[1..] == t;
  }

  lemma ReprsOne(d: PageRange, sd: string)
    requires RangeRepr(d) == Success(sd)
    ensures Reprs([d]) == Success([sd])
  {
    ReprsCons(d, [], sd, []);
    assert [d] + [] == [d] && [sd] + [] == [sd];
  }

  lemma ReprsTwo(c: PageRange, d: PageRange, sc: string, sd: string)
    requires RangeRepr(c) == Success(sc) && RangeRepr(d) == Success(sd)
    ensures Reprs([c, d]) == Success([sc, sd])
  {
    ReprsOne(d, sd);
    ReprsCons(c, [d], sc, [sd]);
    assert [c] + [d] == [c, d] && [sc] + [sd] == [sc, sd];
  }

  lemma ReprsThree(b: PageRange, c: PageRange, d: PageRange, sb: string, sc: string, sd: string)
    requires RangeRepr(b) == Success(sb) && RangeRepr(c) == Success(sc) && RangeRepr(d) == Success(sd)
    ensures Reprs([b, c, d]) == Success([sb, sc, sd])
  {
    ReprsTwo(c, d, sc, sd);
    ReprsCons(b, [c, d], sb, [sc, sd]);
    assert [b] + [c, d] == [b, c, d] && [sb] + [sc, sd] == [sb, sc, sd];
  }

  lemma ReprsFour(a: PageRange, b: PageRange, c: PageRange, d: PageRange, sa: string, sb: string, sc: string, sd: string)
    requires RangeRepr(a) == Success(sa) && RangeRepr(b) == Success(sb)
    requires RangeRepr(c) == Success(sc) && RangeRepr(d) == Success(sd)
    ensures Reprs([a, b, c, d]) == Success([sa, sb, sc, sd])
  {
    ReprsThree(b, c, d, sb, sc, sd);
    ReprsCons(a, [b, c, d], sa, [sb, sc, sd]);
    assert [a] + [b, c, d] == [a, b, c, d] && [sa] + [sb, sc, sd] == [sa, sb, sc, sd];
  }

  /** A run of two pages, as text. */
  lemma RunOfTwo(k: int, a: string, b: string, whole: string)
    requires IntStr(k) == a && IntStr(k + 1) == b && whole == a + ", " + b
    ensures RangeRepr(Run(k, k + 2)) == Success(whole)
  {
    assert NumberStrings(k + 1, k + 2) == [b];
    assert NumberStrings(k, k + 2) == [a] + [b];
    JoinTwo(a, b, ", ");
  }

  /** A run of three pages, as text. */
  lemma RunOfThree(k: int, a: string, b: string, c: string, whole: string)
    requires IntStr(k) == a && IntStr(k + 1) == b && IntStr(k + 2) == c && whole == a + ", " + b + ", " + c
    ensures RangeRepr(Run(k, k + 3)) == Success(whole)
  {
    assert NumberStrings(k + 2, k + 3) == [c];
    assert NumberStrings(k + 1, k + 3) == [b] + [c];
    assert NumberStrings(k, k + 3) == [a] + [b, c];
    JoinThree(a, b, c, ", ");
  }

  lemma FirstPages()
    ensures RangeRepr(Run(1, 4)) == Success("1, 2, 3")
    ensures RangeRepr(Run(2, 5)) == Success("2, 3, 4")
  {
    SmallNumbers();
    RunOfThree(1, "1", "2", "3", "1, 2, 3");
    RunOfThree(2, "2", "3", "4", "2, 3, 4");
  }

  lemma LastPages()
    ensures RangeRepr(Run(28, 30)) == Success("28, 29")
    ensures RangeRepr(Run(28, 31)) == Success("28, 29, 30")
  {
    SmallNumbers();
    RunOfTwo(28, "28", "29", "28, 29");
    RunOfThree(28, "28", "29", "30", "28, 29, 30");
  }

  lemma CurrentPages()
    ensures RangeRepr(PageRange(1, 2, false, true)) == Success("<1>")
    ensures RangeRepr(PageRange(30, 31, false, true)) == Success("<30>")
  {
    SmallNumbers();
    CurrentRepr(1);
    CurrentRepr(30);
    assert "<" + "1" + ">" == "<1>";
    assert "<" + "30" + ">" == "<30>";
  }

  lemma Assoc(a: string, b: string, c: string)
    ensures a + (b + c) == a + b + c
  {
  }

  /** Four parts joined by `sep` between a prefix and a suffix, read off
      as three growing pieces of text. */
  lemma FramedJoinFour(pre: string, a: string, b: string, c: string, d: string, sep: string, post: string,
                       mid: string, mid2: string, whole: string)
    requires mid == pre + a + sep + b
    requires mid2 == mid + sep + c
    requires whole == mid2 + sep + d + post
    ensures pre + Join([a, b, c, d], sep) + post == whole
  {
    JoinFour(a, b, c, d, sep);
    JoinThree(b, c, d, sep);
    var t := b + sep + c + sep + d;
    assert Join([a, b, c, d], sep) == a + sep + t;
    Assoc(pre, a + sep, t);
    Assoc(pre, a, sep);
    var u := pre + a + sep;
    Assoc(u, b + sep + c + sep, d);
    Assoc(u, b + sep + c, sep);
    Assoc(u, b + sep, c);
    Assoc(u, b, sep);
  }

  lemma LastPageText()
    ensures "<PageRanges: [" + Join(["1, 2, 3", "..", "28, 29", "<30>"], "; ") + "]>"
            == "<PageRanges: [1, 2, 3; ..; 28, 29; <30>]>"
  {
    FramedJoinFour("<PageRanges: [", "1, 2, 3", "..", "28, 29", "<30>", "; ", "]>",
                   "<PageRanges: [1, 2, 3; ..", "<PageRanges: [1, 2, 3; ..; 28, 29",
                   "<PageRanges: [1, 2, 3; ..; 28, 29; <30>]>");
  }

  lemma FirstPageText()
    ensures "<PageRanges: [" + Join(["<1>", "2, 3, 4", "..", "28, 29, 30"], "; ") + "]>"
            == "<PageRanges: [<1>; 2, 3, 4; ..; 28, 29, 30]>"
  {
    FramedJoinFour("<PageRanges: [", "<1>", "2, 3, 4", "..", "28, 29, 30", "; ", "]>",
                   "<PageRanges: [<1>; 2, 3, 4", "<PageRanges: [<1>; 2, 3, 4; ..",
                   "<PageRanges: [<1>; 2, 3, 4; ..; 28, 29, 30]>");
  }

  /** `PageRanges(p.page(30), min_gap=1, before=2, after=3, last=2)` over
      30 pages is `<PageRanges: [1, 2, 3; ..; 28, 29; <30>]>`. */
  lemma ReprLastPage()
    ensures PageRangesRepr(30, 30, Settings(3, 2, 2, 3, 1)) == Success("<PageRanges: [1, 2, 3; ..; 28, 29; <30>]>")
  {
    DoctestLastPage();
    FirstPages();
    LastPages();
    CurrentPages();
    ReprsFour(Run(1, 4), Gap(4, 28), Run(28, 30), PageRange(30, 31, false, true), "1, 2, 3", "..", "28, 29", "<30>");
    LastPageText();
  }

  /** `PageRanges(p.page(1), min_gap=1, before=2, after=3)` over 30 pages
      is `<PageRanges: [<1>; 2, 3, 4; ..; 28, 29, 30]>`. */
  lemma ReprFirstPage()
    ensures PageRangesRepr(1, 30, Settings(3, 3, 2, 3, 1)) == Success("<PageRanges: [<1>; 2, 3, 4; ..; 28, 29, 30]>")
  {
    DoctestPageOne();
    FirstPages();
    LastPages();
    CurrentPages();
    ReprsFour(PageRange(1, 2, false, true), Run(2, 5), Gap(5, 28), Run(28, 31), "<1>", "2, 3, 4", "..", "28, 29, 30");
    FirstPageText();
  }
}

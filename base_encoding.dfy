/** `base_encode` and `base36_encode` of `shrubbery.utils.encoding`: a
    non-negative integer written in base `len(chars)`, least significant
    digit first, with `chars[i]` standing for digit `i`. */
module BaseEncoding {
  import opened Wrappers

  datatype Error = ZeroDivisionError | ValueError

  function Pow(b: nat, k: nat): nat
  {
    if k == 0 then 1 else b * Pow(b, k - 1)
  }

  /** What the `while n` loop builds from `n` onwards: the character of
      `n % b`, then the encoding of `n // b`. */
  function Encoded(x: nat, chars: string): (r: string)
    requires |chars| >= 2
    ensures x == 0 <==> r == ""
    decreases x
  {
    if x == 0 then "" else [chars[x % |chars|]] + Encoded(x / |chars|, chars)
  }

  /** `divmod(n, b)` for a base of at least 2. */
  lemma DivMod(n: nat, b: nat)
    requires b >= 2
    ensures 0 <= n / b <= n && (n > 0 ==> n / b < n) && 0 <= n % b < b && n == b * (n / b) + n % b
  {
  }

  /** One turn of the loop: `divmod(n, b)` takes off the least significant
      digit. */
  lemma EncodedStep(n: nat, chars: string)
    requires |chars| >= 2 && n > 0
    ensures 0 <= n / |chars| < n && 0 <= n % |chars| < |chars|
    ensures Encoded(n, chars) == [chars[n % |chars|]] + Encoded(n / |chars|, chars)
  {
    DivMod(n, |chars|);
  }

  /** Python's `divmod(n, b)` for a positive `n` and a base of at least 2. */
  method DivModOf(n: nat, b: nat) returns (q: nat, m: nat)
    requires b >= 2 && n > 0
    ensures q == n / b && m == n % b
    ensures q < n && m < b
  {
    DivMod(n, b);
    q, m := n / b, n % b;
  }

  /** The loop's invariant survives one turn. */
  lemma EncodeTurn(x: nat, n: nat, buf: string, chars: string)
    requires |chars| >= 2 && n > 0
    requires buf + Encoded(n, chars) == Encoded(x, chars)
    ensures n / |chars| < n && 0 <= n % |chars| < |chars|
    ensures (buf + [chars[n % |chars|]]) + Encoded(n / |chars|, chars) == Encoded(x, chars)
  {
    EncodedStep(n, chars);
  }

  /** `base_encode(x, chars)`. A zero is the empty string whatever `chars`
      is; with no characters a positive number fails in `divmod`. */
  method BaseEncode(x: int, chars: string) returns (r: Result<string, Error>)
    requires x >= 0
    requires x == 0 || |chars| != 1
    ensures r.Failure? <==> x > 0 && |chars| == 0
    ensures x == 0 ==> r == Success("")
    ensures x > 0 && |chars| >= 2 ==> r == Success(Encoded(x, chars))
  {
    var b := |chars|;
    var buf := "";
    var n := x;
    while n != 0
      invariant 0 <= n <= x
      invariant n < x ==> b >= 2
      invariant n == x ==> buf == ""
      invariant b >= 2 ==> buf + Encoded(n, chars) == Encoded(x, chars)
      decreases n
    {
      if b == 0 {
        return Failure(ZeroDivisionError);
      }
      EncodeTurn(x, n, buf, chars);
      var q, i := DivModOf(n, b);
      n := q;
      buf := buf + [chars[i]];
    }
    if b >= 2 {
      assert buf + Encoded(n, chars) == buf;
    }
    r := Success(buf);
  }

  /** The loop variable after `k` turns of `n, i = divmod(n, b)` for a
      positive base, where Python's `//` is Dafny's `/`. */
  function AfterTurns(n: int, b: nat, k: nat): int
    requires b >= 1
    decreases k
  {
    if k == 0 then n else AfterTurns(n / b, b, k - 1)
  }

  /** A negative number divided by a positive base stays negative: Python's
      floor division takes `-1` to `-1`. */
  lemma NegativeQuotient(n: int, b: nat)
    requires b >= 1 && n < 0
    ensures n / b < 0
  {
  }

  /** As written, `while n` never ends for a negative `x` or for a
      one-character alphabet: `n` is never 0, whatever the number of
      turns. */
  lemma {:induction false} LoopNeverEnds(x: int, b: nat, k: nat)
    requires b >= 1
    requires x < 0 || (b == 1 && x != 0)
    ensures AfterTurns(x, b, k) != 0
    ensures x < 0 ==> AfterTurns(x, b, k) < 0
    ensures b == 1 ==> AfterTurns(x, b, k) == x
    decreases k
  {
    if k > 0 {
      if x < 0 {
        NegativeQuotient(x, b);
      }
      if b == 1 {
        assert x / b == x;
      }
      LoopNeverEnds(x / b, b, k - 1);
    }
  }

  /** `base_encode` with the inputs it cannot finish on rejected: a
      negative number or a one-character alphabet is a `ValueError`, and an
      empty alphabet still fails in `divmod`. What it returns decodes back
      to `x`. */
  method BaseEncodeCorrected(x: int, chars: string) returns (r: Result<string, Error>)
    ensures r.Success? <==> x == 0 || (x > 0 && |chars| >= 2)
    ensures x != 0 && |chars| == 0 ==> r == Failure(ZeroDivisionError)
    ensures (x < 0 && |chars| > 0) || (x > 0 && |chars| == 1) ==> r == Failure(ValueError)
    ensures r.Success? && x > 0 ==> r.value == Encoded(x, chars)
    ensures r.Success? && Distinct(chars) ==>
      (forall i :: 0 <= i < |r.value| ==> r.value[i] in chars) && Decode(r.value, chars) == x
  {
    if x == 0 {
      r := Success("");
      assert Decode("", chars) == 0;
    } else if |chars| == 0 {
      r := Failure(ZeroDivisionError);
    } else if x < 0 || |chars| == 1 {
      r := Failure(ValueError);
    } else {
      r := BaseEncode(x, chars);
      if Distinct(chars) {
        DecodeEncoded(x, chars);
      }
    }
  }

  /** Every character of the output is one of `chars`. */
  lemma {:induction false} EncodedUsesChars(x: nat, chars: string)
    requires |chars| >= 2
    ensures forall i :: 0 <= i < |Encoded(x, chars)| ==> Encoded(x, chars)[i] in chars
    decreases x
  {
    if x > 0 {
      var c, q := EncodedHead(x, chars);
      EncodedUsesChars(q, chars);
      ConsInChars(c, Encoded(q, chars), chars);
    }
  }

  /** A positive number's first character and the rest. */
  lemma EncodedHead(n: nat, chars: string) returns (c: char, q: nat)
    requires |chars| >= 2 && n > 0
    ensures q < n && c in chars && Encoded(n, chars) == [c] + Encoded(q, chars)
  {
    EncodedStep(n, chars);
    c, q := chars[n % |chars|], n / |chars|;
  }

  lemma ConsInChars(c: char, t: string, chars: string)
    requires c in chars && forall i :: 0 <= i < |t| ==> t[i] in chars
    ensures forall i :: 0 <= i < |[c] + t| ==> ([c] + t)[i] in chars
  {
    forall i | 0 <= i < |[c] + t| ensures ([c] + t)[i] in chars {
      if i > 0 {
        assert ([c] + t)[i] == t[i - 1];
      }
    }
  }

  /** No character of `chars` repeats. */
  predicate Distinct(chars: string)
  {
    forall i, j :: 0 <= i < j < |chars| ==> chars[i] != chars[j]
  }

  /** `chars.index(c)`. */
  function IndexOf(chars: string, c: char): (k: nat)
    requires c in chars
    ensures k < |chars| && chars[k] == c
    ensures forall j :: 0 <= j < k ==> chars[j] != c
  {
    if chars[0] == c then 0 else 1 + IndexOf(chars[1..], c)
  }

  /** Reading least significant first: `sum(chars.index(s[i]) * b**i)`. */
  function Decode(s: string, chars: string): nat
    requires forall i :: 0 <= i < |s| ==> s[i] in chars
  {
    if |s| == 0 then 0 else IndexOf(chars, s[0]) + |chars| * Decode(s[1..], chars)
  }

  /** The digits read back: with distinct characters, decoding the
      encoding gives back the number. */
  lemma {:induction false} DecodeEncoded(x: nat, chars: string)
    requires |chars| >= 2 && Distinct(chars)
    ensures forall i :: 0 <= i < |Encoded(x, chars)| ==> Encoded(x, chars)[i] in chars
    ensures Decode(Encoded(x, chars), chars) == x
    decreases x
  {
    EncodedUsesChars(x, chars);
    if x > 0 {
      var b := |chars|;
      var r := Encoded(x, chars);
      EncodedStep(x, chars);
      DivMod(x, b);
      DecodeEncoded(x / b, chars);
      assert r[1..] == Encoded(x / b, chars);
      assert IndexOf(chars, r[0]) == x % b;
    }
  }

  /** A positive number has as many characters as base-`b` digits, and the
      last character stands for a non-zero digit. */
  lemma {:induction false} EncodedLength(x: nat, chars: string)
    requires |chars| >= 2 && x > 0
    ensures var r := Encoded(x, chars);
            && Pow(|chars|, |r| - 1) <= x < Pow(|chars|, |r|)
            && exists d :: 0 < d < |chars| && r[|r| - 1] == chars[d]
    decreases x
  {
    EncodedStep(x, chars);
    if x < |chars| {
      OneDigit(x, chars);
    } else {
      EncodedLength(x / |chars|, chars);
      OneDigitMore(x, chars);
    }
  }

  /** The length and last digit of `Encoded(x, chars)`, as `EncodedLength`
      states them. */
  ghost predicate DigitsFit(x: nat, chars: string)
    requires |chars| >= 2 && x > 0
  {
    var r := Encoded(x, chars);
    && |r| > 0
    && Pow(|chars|, |r| - 1) <= x < Pow(|chars|, |r|)
    && exists d :: 0 < d < |chars| && r[|r| - 1] == chars[d]
  }

  /** A number below the base is one digit. */
  lemma OneDigit(x: nat, chars: string)
    requires |chars| >= 2 && 0 < x < |chars|
    ensures DigitsFit(x, chars)
  {
    SmallDivMod(x, |chars|);
    assert Encoded(x, chars) == [chars[x]] + Encoded(0, chars);
    assert Pow(|chars|, 1) == |chars|;
  }

  /** A number below the base is its own remainder. */
  lemma SmallDivMod(x: nat, b: nat)
    requires x < b
    ensures x / b == 0 && x % b == x
  {
  }

  /** A number of at least the base has one digit more than its quotient. */
  lemma OneDigitMore(x: nat, chars: string)
    requires |chars| >= 2 && x >= |chars|
    requires DigitsFit(x / |chars|, chars)
    ensures DigitsFit(x, chars)
  {
    var b := |chars|;
    DivMod(x, b);
    EncodedStep(x, chars);
    var q := x / b;
    var t := Encoded(q, chars);
    var r := Encoded(x, chars);
    assert r == [chars[x % b]] + t;
    assert r[|r| - 1] == t[|t| - 1];
    var k := |t|;
    assert Pow(b, k) == b * Pow(b, k - 1);
    assert Pow(b, k + 1) == b * Pow(b, k);
    LengthStep(b, q, x % b, x, Pow(b, k - 1));
  }

  /** One more digit multiplies the bounds by the base. */
  lemma LengthStep(b: nat, q: nat, m: nat, x: nat, p: nat)
    requires p <= q < b * p && m < b && x == b * q + m
    ensures b * p <= x < b * (b * p)
  {
    assert b * p <= b * q;
    assert b * q + m < b * (q + 1);
    assert b * (q + 1) <= b * (b * p);
  }

  /** With distinct characters the last one is never `chars[0]`. */
  lemma LastIsNotZero(x: nat, chars: string)
    requires |chars| >= 2 && x > 0 && Distinct(chars)
    ensures Encoded(x, chars)[|Encoded(x, chars)| - 1] != chars[0]
  {
    EncodedLength(x, chars);
  }

  /** The digits and upper-case letters. */
  const Base36Digits := "0123456789ABCDEFGHIJKLMNOPQRSTUVWXYZ"

  /** A string whose code points ascend has no repeated character. */
  lemma {:induction false} AscendingIsDistinct(s: string)
    requires forall i :: 0 <= i < |s| - 1 ==> s[i] < s[i + 1]
    ensures forall i, j :: 0 <= i < j < |s| ==> s[i] < s[j]
    decreases |s|
  {
    if |s| > 1 {
      AscendingIsDistinct(s[1..]);
      forall i, j | 0 <= i < j < |s| ensures s[i] < s[j] {
        if i > 0 {
          assert s[i] == s[1..][i - 1] && s[j] == s[1..][j - 1];
        } else if j > 1 {
          assert s[1] == s[1..][0] && s[j] == s[1..][j - 1];
        }
      }
    }
  }

  lemma Base36DigitsDistinct()
    ensures |Base36Digits| == 36 && Distinct(Base36Digits)
  {
    AscendingIsDistinct(Base36Digits);
  }

  /** `base36_encode(x)`. */
  method Base36Encode(x: int) returns (r: string)
    requires x >= 0
    ensures r == Encoded(x, Base36Digits)
    ensures forall i :: 0 <= i < |r| ==> r[i] in Base36Digits
    ensures Decode(r, Base36Digits) == x
  {
    var e := BaseEncode(x, Base36Digits);
    r := e.value;
    Base36DigitsDistinct();
    DecodeEncoded(x, Base36Digits);
  }

  /** `base_encode(10)` is `'01'` and `base36_encode(71)` is `'Z1'`. */
  lemma EncodedExamples()
    ensures Encoded(10, "0123456789") == "01"
    ensures Encoded(71, Base36Digits) == "Z1"
  {
    var decimal := "0123456789";
    assert |decimal| == 10 && |Base36Digits| == 36;
    EncodedStep(10, decimal);
    EncodedStep(1, decimal);
    EncodedStep(71, Base36Digits);
    EncodedStep(1, Base36Digits);
  }
}

/** `get_prefix_notation` and `from_prefix_notation` of `ManyRelatedJoinQ`:
    a formula written in Polish notation with binary `and`/`or` operators, a
    unary `not` and decimal keys, and read back one character at a time. */
module ManyRelatedJoinPrefix {
  import opened Wrappers
  import opened PythonOrder
  import opened ManyRelatedJoin

  /** The four one-character parameters `and_op`, `or_op`, `not_op` and
      `separator`. */
  datatype Notation = Notation(andOp: char, orOp: char, notOp: char, separator: char)

  /** The defaults `'A'`, `'O'`, `'N'` and `'-'`. */
  const Default := Notation('A', 'O', 'N', '-')

  predicate IsDigit(c: char)
  {
    '0' <= c <= '9'
  }

  /** What a notation must satisfy to be read back: four different
      characters, none of them a digit. */
  predicate Readable(n: Notation)
  {
    && !IsDigit(n.andOp) && !IsDigit(n.orOp) && !IsDigit(n.notOp) && !IsDigit(n.separator)
    && n.andOp != n.orOp && n.andOp != n.notOp && n.andOp != n.separator
    && n.orOp != n.notOp && n.orOp != n.separator && n.notOp != n.separator
  }

  // ---------------------------------------------------------------------
  // Writing
  // ---------------------------------------------------------------------

  /** `c * k`; empty when `k <= 0`. */
  function Repeat(c: char, k: int): (r: string)
    ensures |r| == if k <= 0 then 0 else k
    ensures forall i :: 0 <= i < |r| ==> r[i] == c
    decreases if k <= 0 then 0 else k
  {
    if k <= 0 then "" else [c] + Repeat(c, k - 1)
  }

  /** `sep.join(parts)`. */
  function JoinWith(parts: seq<string>, sep: char): string
    decreases |parts|
  {
    if |parts| == 0 then ""
    else if |parts| == 1 then parts[0]
    else JoinWith(parts[..|parts| - 1], sep) + [sep] + parts[|parts| - 1]
  }

  /** One literal: `not_op` when negated, then the term's key. */
  function ShowLiteral<T(==)>(l: Literal<T>, key: T -> string, n: Notation): string
  {
    (if l.negated then [n.notOp] else "") + key(l.term)
  }

  /** One clause, its literals taken in the order `d` lists them. */
  function EncodeClause<T(==)>(d: seq<Literal<T>>, key: T -> string, n: Notation): string
  {
    Repeat(n.orOp, |d| - 1) + JoinWith(seq(|d|, i requires 0 <= i < |d| => ShowLiteral(d[i], key, n)), n.separator)
  }

  /** `get_prefix_notation`, the clauses and their literals taken in the order
      `cs` lists them (Python visits them in set iteration order). */
  function EncodeListing<T(==)>(cs: seq<seq<Literal<T>>>, key: T -> string, n: Notation): (r: string)
    ensures |cs| == 0 ==> r == ""
  {
    Repeat(n.andOp, |cs| - 1) + JoinWith(seq(|cs|, i requires 0 <= i < |cs| => EncodeClause(cs[i], key, n)), n.separator)
  }

  /** The clauses a listing enumerates. */
  function ClausesOf<T(==)>(cs: seq<seq<Literal<T>>>): Conjunction<T>
  {
    set d | d in cs :: Elements(d)
  }

  /** `cs` lists every clause of `c` once, each clause's literals once. */
  predicate Lists<T(==)>(cs: seq<seq<Literal<T>>>, c: Conjunction<T>)
  {
    && ClausesOf(cs) == c
    && (forall i, j :: 0 <= i < j < |cs| ==> Elements(cs[i]) != Elements(cs[j]))
    && (forall d, i, j :: d in cs && 0 <= i < j < |d| ==> d[i] != d[j])
  }

  /** Only the empty listing enumerates no clause, and it writes as the
      empty string: a trivial formula, which has no clauses, writes as `""`. */
  lemma EmptyListing<T>(cs: seq<seq<Literal<T>>>, key: T -> string, n: Notation)
    ensures ClausesOf(cs) == {} <==> cs == []
    ensures cs == [] ==> EncodeListing(cs, key, n) == ""
  {
    if cs != [] {
      assert Elements(cs[0]) in ClausesOf(cs);
    }
  }

  // ---------------------------------------------------------------------
  // The syntax the notation writes
  // ---------------------------------------------------------------------

  datatype Expr<T> = Leaf(t: T) | Not(e: Expr<T>) | Bin(isAnd: bool, left: Expr<T>, right: Expr<T>)

  function Show<T>(e: Expr<T>, key: T -> string, n: Notation): string
  {
    match e
    case Leaf(t) => key(t)
    case Not(x) => [n.notOp] + Show(x, key, n)
    case Bin(isAnd, l, r) =>
      [if isAnd then n.andOp else n.orOp] + Show(l, key, n) + [n.separator] + Show(r, key, n)
  }

  ghost predicate ExprMeaning<T>(e: Expr<T>, a: T -> bool)
  {
    match e
    case Leaf(t) => a(t)
    case Not(x) => !ExprMeaning(x, a)
    case Bin(isAnd, l, r) =>
      if isAnd then ExprMeaning(l, a) && ExprMeaning(r, a) else ExprMeaning(l, a) || ExprMeaning(r, a)
  }

  /** A term or a negated term. */
  predicate IsLiteralExpr<T>(e: Expr<T>)
  {
    e.Leaf? || (e.Not? && e.e.Leaf?)
  }

  /** Literals joined by left-nested `or`s. */
  predicate IsClauseExpr<T>(e: Expr<T>)
  {
    if e.Bin? then !e.isAnd && IsClauseExpr(e.left) && IsLiteralExpr(e.right) else IsLiteralExpr(e)
  }

  /** Clauses joined by left-nested `and`s: the shape the notation writes. */
  predicate IsConjExpr<T>(e: Expr<T>)
  {
    if e.Bin? && e.isAnd then IsConjExpr(e.left) && IsClauseExpr(e.right) else IsClauseExpr(e)
  }

  /** Every clause can be made true. */
  lemma {:induction false} ClauseWitness<T>(e: Expr<T>) returns (a: T -> bool)
    requires IsClauseExpr(e)
    ensures ExprMeaning(e, a)
  {
    match e
    case Leaf(_) => a := _ => true;
    case Not(_) => a := _ => false;
    case Bin(_, l, _) => a := ClauseWitness(l);
  }

  predicate IsKey(k: string)
  {
    |k| > 0 && forall i :: 0 <= i < |k| ==> IsDigit(k[i])
  }

  /** Every term is written as a key that looks it up again. */
  predicate KeysResolve<T(==)>(e: Expr<T>, key: T -> string, resolve: string -> Option<T>)
  {
    match e
    case Leaf(t) => IsKey(key(t)) && resolve(key(t)) == Some(t)
    case Not(x) => KeysResolve(x, key, resolve)
    case Bin(_, l, r) => KeysResolve(l, key, resolve) && KeysResolve(r, key, resolve)
  }


  // ---------------------------------------------------------------------
  // Reading
  // ---------------------------------------------------------------------

  /** The run of digits starting at `pos`. */
  function DigitRun(s: string, pos: nat): (k: string)
    requires pos <= |s|
    ensures pos + |k| <= |s|
    decreases |s| - pos
  {
    if pos < |s| && IsDigit(s[pos]) then [s[pos]] + DigitRun(s, pos + 1) else ""
  }

  /** Where `f.seek(f.tell() - 1)` leaves the stream once the characters
      before `end` are consumed: on the character after them, or on the last
      character when they reach the end (`StringIO` clamps a negative
      position to 0). */
  function Resume(s: string, end: nat): nat
  {
    if end < |s| then end else if |s| == 0 then 0 else |s| - 1
  }

  /** The `while c and c in "0123456789"` loop: the key read from `pos` and
      the position the stream is left at. */
  method ReadKey(s: string, pos: nat) returns (key: string, next: nat)
    requires pos <= |s|
    ensures key == DigitRun(s, pos)
    ensures next == Resume(s, pos + |key|)
  {
    key := "";
    var i := pos;
    while i < |s| && IsDigit(s[i])
      invariant pos <= i <= |s|
      invariant |key| == i - pos
      invariant DigitRun(s, pos) == key + DigitRun(s, i)
      decreases |s| - i
    {
      key := key + [s[i]];
      i := i + 1;
    }
    next := Resume(s, i);
  }

  /** A parsed operand as a formula: a bare term becomes `as_q()`, the
      formula `ManyRelatedJoinQ(tag)`. */
  function AsQ<T(==)>(op: Operand<T>): Formula<T>
    requires !op.Unsupported?
  {
    match op
    case Term(t) => New(Some(t))
    case Query(q) => q
  }

  ghost predicate OperandMeaning<T>(op: Operand<T>, a: T -> bool)
  {
    match op
    case Term(t) => a(t)
    case Query(q) => Eval(q, a)
    case Unsupported => false
  }

  predicate ValidOperand<T(==)>(op: Operand<T>)
  {
    match op
    case Term(_) => true
    case Query(q) => Valid(q)
    case Unsupported => false
  }

  /** `from_prefix_notation` reading from position `pos`: an operator reads
      two operands around a separator and combines them with `&` or `|`, a
      `not_op` inverts the next operand, and anything else is read as a run
      of digits and looked up with `resolve` (the database query
      `get(pk=...)`). The result is the operand and the position the stream
      is left at. */
  ghost function Parse<T>(s: string, pos: nat, n: Notation, resolve: string -> Option<T>): (r: Result<(Operand<T>, nat), Error>)
    requires pos <= |s|
    ensures r.Success? ==> pos <= r.value.1 + 1 && r.value.1 <= |s| && ValidOperand(r.value.0)
    decreases |s| - pos, 2
  {
    if pos < |s| && (s[pos] == n.andOp || s[pos] == n.orOp) then ParseOperator(s, pos, n, resolve)
    else if pos < |s| && s[pos] == n.notOp then ParseInverted(s, pos, n, resolve)
    else ParseKey(s, pos, resolve)
  }

  /** `A` or `O`: the first operand, the separator (else `ValueError`),
      the second operand, combined with `&` or `|`. */
  ghost function ParseOperator<T>(s: string, pos: nat, n: Notation, resolve: string -> Option<T>): (r: Result<(Operand<T>, nat), Error>)
    requires pos < |s|
    ensures r.Success? ==> pos <= r.value.1 + 1 && r.value.1 <= |s| && ValidOperand(r.value.0)
    decreases |s| - pos, 1
  {
    var first :- Parse(s, pos + 1, n, resolve);
    ParseOperands(s, pos, first.0, first.1, n, resolve)
  }

  /** An operator's first operand `q0` read up to `p0`: the separator (else
      `ValueError`), the second operand, and the two combined. */
  ghost function ParseOperands<T>(s: string, pos: nat, q0: Operand<T>, p0: nat, n: Notation,
                                  resolve: string -> Option<T>): (r: Result<(Operand<T>, nat), Error>)
    requires pos < |s| && pos <= p0 <= |s| && ValidOperand(q0)
    ensures r.Success? ==> pos <= r.value.1 + 1 && r.value.1 <= |s| && ValidOperand(r.value.0)
    decreases |s| - pos, 0
  {
    if p0 == |s| || s[p0] != n.separator then Failure(ValueError("'" + [n.separator] + "' expected"))
    else
      var second :- Parse(s, p0 + 1, n, resolve);
      var (q1, p1) := second;
      var combined :- if s[pos] == n.andOp then And(AsQ(q0), q1) else Or(AsQ(q0), q1);
      Success((Query(combined), p1))
  }

  /** `N`: the next operand, inverted with `~`. */
  ghost function ParseInverted<T>(s: string, pos: nat, n: Notation, resolve: string -> Option<T>): (r: Result<(Operand<T>, nat), Error>)
    requires pos < |s|
    ensures r.Success? ==> pos <= r.value.1 + 1 && r.value.1 <= |s| && ValidOperand(r.value.0)
    decreases |s| - pos, 1
  {
    var inner :- Parse(s, pos + 1, n, resolve);
    Success((Query(Invert(AsQ(inner.0))), inner.1))
  }

  /** Anything else: the run of digits, looked up. */
  function ParseKey<T>(s: string, pos: nat, resolve: string -> Option<T>): (r: Result<(Operand<T>, nat), Error>)
    requires pos <= |s|
    ensures r.Success? ==> pos <= r.value.1 + 1 && r.value.1 <= |s| && r.value.0.Term?
  {
    var k := DigitRun(s, pos);
    match resolve(k)
    case None => Failure(DoesNotExist(k))
    case Some(t) => Success((Term(t), Resume(s, pos + |k|)))
  }

  /** An operand means what its formula means. */
  lemma AsQMeaning<T>(op: Operand<T>, a: T -> bool)
    requires ValidOperand(op)
    ensures Valid(AsQ(op))
    ensures OperandMeaning(op, a) == Eval(AsQ(op), a)
  {
    if op.Term? {
      NewMeaning(Some(op.term), a);
    }
  }

  /** A missing separator after the first operand is a `ValueError`: with
      the defaults, `"A1"` stops on the `1` again and `"A1A2"` on the second
      `A`. */
  lemma MissingSeparator<T>(resolve: string -> Option<T>)
    requires resolve("1").Some?
    ensures Parse("A1", 0, Default, resolve) == Failure(ValueError("'-' expected"))
    ensures Parse("A1A2", 0, Default, resolve) == Failure(ValueError("'-' expected"))
  {
    var t := resolve("1").value;
    assert "'" + [Default.separator] + "' expected" == "'-' expected";
    assert Parse("A1", 1, Default, resolve) == Success((Term(t), 1)) by {
      assert DigitRun("A1", 2) == "";
      assert DigitRun("A1", 1) == "1";
    }
    assert Parse("A1A2", 1, Default, resolve) == Success((Term(t), 2)) by {
      assert DigitRun("A1A2", 2) == "";
      assert DigitRun("A1A2", 1) == "1";
    }
  }

  /** An unknown key is `DoesNotExist`, and an empty stream looks up the
      empty key. */
  lemma UnknownKey<T>(s: string, resolve: string -> Option<T>)
    requires |s| > 0 && IsDigit(s[0]) && resolve(DigitRun(s, 0)).None?
    ensures Parse(s, 0, Default, resolve) == Failure(DoesNotExist(DigitRun(s, 0)))
  {
    assert s[0] != Default.andOp && s[0] != Default.orOp && s[0] != Default.notOp;
  }

  /** An empty stream looks up the empty key. */
  lemma EmptyInput<T>(resolve: string -> Option<T>)
    ensures Parse("", 0, Default, resolve).Success? <==> resolve("").Some?
  {
  }


  // ---------------------------------------------------------------------
  // Reading back what was written
  // ---------------------------------------------------------------------

  /** The text `x` sits at position `p` of `s`. */
  predicate At(s: string, p: nat, x: string)
  {
    p + |x| <= |s| && s[p..p + |x|] == x
  }

  /** What may follow a written expression: the end of the text or a
      separator. */
  predicate Closes(s: string, end: nat, n: Notation)
  {
    end == |s| || (end < |s| && s[end] == n.separator)
  }

  lemma AtSplit(s: string, p: nat, x: string, y: string)
    requires At(s, p, x + y)
    ensures At(s, p, x) && At(s, p + |x|, y)
  {
    assert s[p..p + |x|] == (x + y)[..|x|];
    assert s[p + |x|..p + |x| + |y|] == (x + y)[|x|..];
  }

  lemma {:induction false} DigitRunIs(s: string, p: nat, k: string)
    requires At(s, p, k) && forall i :: 0 <= i < |k| ==> IsDigit(k[i])
    requires p + |k| == |s| || !IsDigit(s[p + |k|])
    ensures DigitRun(s, p) == k
    decreases |k|
  {
    if |k| > 0 {
      assert s[p] == k[0];
      AtSplit(s, p, [k[0]], k[1..]);
      assert [k[0]] + k[1..] == k;
      DigitRunIs(s, p + 1, k[1..]);
    }
  }

  lemma ParseLeaf<T>(s: string, p: nat, t: T, key: T -> string, resolve: string -> Option<T>, n: Notation)
    requires Readable(n) && IsKey(key(t)) && resolve(key(t)) == Some(t)
    requires At(s, p, key(t)) && Closes(s, p + |key(t)|, n)
    ensures Parse(s, p, n, resolve) == Success((Term(t), Resume(s, p + |key(t)|)))
  {
    var k := key(t);
    DigitRunIs(s, p, k);
    assert s[p] == k[0];
    DigitIsKey(s, p, n, resolve);
  }

  /** A digit under the reading position starts a key. */
  lemma DigitIsKey<T>(s: string, p: nat, n: Notation, resolve: string -> Option<T>)
    requires Readable(n) && p < |s| && IsDigit(s[p])
    ensures Parse(s, p, n, resolve) == ParseKey(s, p, resolve)
  {
  }

  /** Reading `not_op` and then an operand inverts the operand's meaning. */
  lemma ParseNot<T>(s: string, p: nat, n: Notation, resolve: string -> Option<T>, v: Operand<T>, end: nat)
    returns (w: Operand<T>)
    requires Readable(n) && p < |s| && s[p] == n.notOp
    requires Parse(s, p + 1, n, resolve) == Success((v, end))
    ensures Parse(s, p, n, resolve) == Success((w, end))
    ensures forall a :: OperandMeaning(w, a) == !OperandMeaning(v, a)
  {
    assert ValidOperand(v);
    assert Parse(s, p, n, resolve) == ParseInverted(s, p, n, resolve);
    w := Query(Invert(AsQ(v)));
    forall a ensures OperandMeaning(w, a) == !OperandMeaning(v, a) {
      AsQMeaning(v, a);
      InvertMeaning(AsQ(v), a);
    }
  }

  /** An operand that holds somewhere is not the `False` constant. */
  lemma NotFalse<T>(v: Operand<T>, a: T -> bool)
    requires ValidOperand(v) && OperandMeaning(v, a)
    ensures AsQ(v).trivial != AlwaysFalse
  {
    AsQMeaning(v, a);
  }

  /** `q0 & q1` and `q0 | q1`: with a satisfiable right operand (and, for
      `|`, a satisfiable left one) the combination means the conjunction or
      disjunction of the operands. */
  lemma CombineMeaning<T>(isAnd: bool, v0: Operand<T>, v1: Operand<T>, a0: T -> bool, a1: T -> bool, a: T -> bool)
    requires ValidOperand(v0) && ValidOperand(v1)
    requires OperandMeaning(v1, a1) && (isAnd || OperandMeaning(v0, a0))
    ensures (if isAnd then And(AsQ(v0), v1) else Or(AsQ(v0), v1)).Success?
    ensures Eval((if isAnd then And(AsQ(v0), v1) else Or(AsQ(v0), v1)).value, a)
            == if isAnd then OperandMeaning(v0, a) && OperandMeaning(v1, a)
               else OperandMeaning(v0, a) || OperandMeaning(v1, a)
  {
    AsQMeaning(v0, a);
    AsQMeaning(v1, a);
    NotFalse(v1, a1);
    if isAnd {
      if v1.Term? {
        AndTermMeaning(AsQ(v0), v1.term, a);
      } else {
        AndMeaning(AsQ(v0), v1.q, a);
      }
    } else {
      NotFalse(v0, a0);
      if v1.Term? {
        OrTermMeaning(AsQ(v0), v1.term, a);
      } else {
        OrMeaning(AsQ(v0), v1.q, a);
      }
    }
  }

  /** What `ParseOperator` returns once both operands are read and they
      combine. */
  lemma OperatorResult<T>(s: string, p: nat, n: Notation, resolve: string -> Option<T>,
                          v0: Operand<T>, m: nat, v1: Operand<T>, end: nat, c: Result<Formula<T>, Error>)
    requires p < |s| && (s[p] == n.andOp || s[p] == n.orOp)
    requires Parse(s, p + 1, n, resolve) == Success((v0, m))
    requires m < |s| && s[m] == n.separator
    requires Parse(s, m + 1, n, resolve) == Success((v1, end))
    requires c == (if s[p] == n.andOp then And(AsQ(v0), v1) else Or(AsQ(v0), v1)) && c.Success?
    ensures ParseOperator(s, p, n, resolve) == Success((Query(c.value), end))
  {
    OperatorFirst(s, p, n, resolve, v0, m);
    OperandsResult(s, p, n, resolve, v0, m, v1, end, c);
  }

  lemma OperatorFirst<T>(s: string, p: nat, n: Notation, resolve: string -> Option<T>, v0: Operand<T>, m: nat)
    requires p < |s| && Parse(s, p + 1, n, resolve) == Success((v0, m))
    ensures p <= m <= |s| && ValidOperand(v0)
    ensures ParseOperator(s, p, n, resolve) == ParseOperands(s, p, v0, m, n, resolve)
  {
  }

  lemma OperandsResult<T>(s: string, p: nat, n: Notation, resolve: string -> Option<T>,
                          v0: Operand<T>, m: nat, v1: Operand<T>, end: nat, c: Result<Formula<T>, Error>)
    requires p < |s| && p <= m < |s| && ValidOperand(v0) && s[m] == n.separator
    requires Parse(s, m + 1, n, resolve) == Success((v1, end))
    requires c == (if s[p] == n.andOp then And(AsQ(v0), v1) else Or(AsQ(v0), v1)) && c.Success?
    ensures ParseOperands(s, p, v0, m, n, resolve) == Success((Query(c.value), end))
  {
  }

  /** Reading an operator, an operand, the separator and an operand. */
  lemma ParseBin<T>(s: string, p: nat, isAnd: bool, n: Notation, resolve: string -> Option<T>,
                    v0: Operand<T>, m: nat, v1: Operand<T>, end: nat, a0: T -> bool, a1: T -> bool)
    returns (w: Operand<T>)
    requires Readable(n) && p < |s| && s[p] == (if isAnd then n.andOp else n.orOp)
    requires Parse(s, p + 1, n, resolve) == Success((v0, m))
    requires m < |s| && s[m] == n.separator
    requires Parse(s, m + 1, n, resolve) == Success((v1, end))
    requires OperandMeaning(v1, a1) && (isAnd || OperandMeaning(v0, a0))
    ensures Parse(s, p, n, resolve) == Success((w, end))
    ensures forall a :: OperandMeaning(w, a)
                        == if isAnd then OperandMeaning(v0, a) && OperandMeaning(v1, a)
                           else OperandMeaning(v0, a) || OperandMeaning(v1, a)
  {
    assert ValidOperand(v0) && ValidOperand(v1);
    var combined := if isAnd then And(AsQ(v0), v1) else Or(AsQ(v0), v1);
    CombineMeaning(isAnd, v0, v1, a0, a1, a1);
    w := Query(combined.value);
    assert (s[p] == n.andOp) == isAnd;
    OperatorResult(s, p, n, resolve, v0, m, v1, end, combined);
    assert Parse(s, p, n, resolve) == ParseOperator(s, p, n, resolve);
    forall a ensures OperandMeaning(w, a)
                     == if isAnd then OperandMeaning(v0, a) && OperandMeaning(v1, a)
                        else OperandMeaning(v0, a) || OperandMeaning(v1, a) {
      CombineMeaning(isAnd, v0, v1, a0, a1, a);
    }
  }

  /** The clauses and literals of a conjunction expression are conjunction
      expressions too. */
  lemma ClauseIsConj<T>(e: Expr<T>)
    requires IsClauseExpr(e)
    ensures IsConjExpr(e)
  {
  }

  /** Reading back a written conjunction expression whose keys resolve gives
      an operand with the expression's meaning, and leaves the stream at its
      end. */
  lemma {:induction false} ParseShow<T>(s: string, p: nat, e: Expr<T>, key: T -> string,
                                        resolve: string -> Option<T>, n: Notation, end: nat)
    returns (v: Operand<T>)
    requires Readable(n) && IsConjExpr(e) && KeysResolve(e, key, resolve)
    requires At(s, p, Show(e, key, n)) && end == p + |Show(e, key, n)| && Closes(s, end, n)
    ensures Parse(s, p, n, resolve) == Success((v, Resume(s, end)))
    ensures forall a :: OperandMeaning(v, a) == ExprMeaning(e, a)
    decreases e, 2
  {
    match e
    case Leaf(t) =>
      ParseLeaf(s, p, t, key, resolve, n);
      v := Term(t);
    case Not(x) =>
      v := ParseShowNot(s, p, x, key, resolve, n, end);
    case Bin(isAnd, l, r) =>
      v := ParseShowBin(s, p, isAnd, l, r, key, resolve, n, end);
  }

  lemma {:induction false} ParseShowNot<T>(s: string, p: nat, x: Expr<T>, key: T -> string,
                                           resolve: string -> Option<T>, n: Notation, end: nat)
    returns (v: Operand<T>)
    requires Readable(n) && IsConjExpr(Not(x)) && KeysResolve(Not(x), key, resolve)
    requires At(s, p, Show(Not(x), key, n)) && end == p + |Show(Not(x), key, n)| && Closes(s, end, n)
    ensures Parse(s, p, n, resolve) == Success((v, Resume(s, end)))
    ensures forall a :: OperandMeaning(v, a) == ExprMeaning(Not(x), a)
    decreases Not(x), 0
  {
    var text := Show(x, key, n);
    AtSplit(s, p, [n.notOp], text);
    var u := ParseShow(s, p + 1, x, key, resolve, n, end);
    v := ParseNot(s, p, n, resolve, u, Resume(s, end));
  }

  lemma {:induction false} ParseShowBin<T>(s: string, p: nat, isAnd: bool, l: Expr<T>, r: Expr<T>, key: T -> string,
                                           resolve: string -> Option<T>, n: Notation, end: nat)
    returns (v: Operand<T>)
    requires Readable(n) && IsConjExpr(Bin(isAnd, l, r)) && KeysResolve(Bin(isAnd, l, r), key, resolve)
    requires At(s, p, Show(Bin(isAnd, l, r), key, n)) && end == p + |Show(Bin(isAnd, l, r), key, n)| && Closes(s, end, n)
    ensures Parse(s, p, n, resolve) == Success((v, Resume(s, end)))
    ensures forall a :: OperandMeaning(v, a) == ExprMeaning(Bin(isAnd, l, r), a)
    decreases Bin(isAnd, l, r), 1
  {
    OperatorLayout(s, p, Show(Bin(isAnd, l, r), key, n), if isAnd then n.andOp else n.orOp,
                   Show(l, key, n), Show(r, key, n), n);
    if !isAnd {
      ClauseIsConj(l);
    }
    ClauseIsConj(r);
    var m := p + 1 + |Show(l, key, n)|;
    var v0 := ParseShowLeft(s, p, isAnd, l, r, key, resolve, n, m);
    var v1 := ParseShowRight(s, m, isAnd, l, r, key, resolve, n, end);
    v := CombineShown(s, p, isAnd, l, r, resolve, n, m, end, v0, v1);
  }

  /** The left operand of a written `Bin`, read back. */
  lemma {:induction false} ParseShowLeft<T>(s: string, p: nat, isAnd: bool, l: Expr<T>, r: Expr<T>, key: T -> string,
                                            resolve: string -> Option<T>, n: Notation, m: nat)
    returns (v0: Operand<T>)
    requires Readable(n) && IsConjExpr(l) && KeysResolve(l, key, resolve)
    requires At(s, p + 1, Show(l, key, n)) && m == p + 1 + |Show(l, key, n)| && Closes(s, m, n)
    ensures Parse(s, p + 1, n, resolve) == Success((v0, Resume(s, m)))
    ensures forall a :: OperandMeaning(v0, a) == ExprMeaning(l, a)
    decreases Bin(isAnd, l, r), 0
  {
    v0 := ParseShow(s, p + 1, l, key, resolve, n, m);
  }

  /** The right operand of a written `Bin`, read back. */
  lemma {:induction false} ParseShowRight<T>(s: string, m: nat, isAnd: bool, l: Expr<T>, r: Expr<T>, key: T -> string,
                                             resolve: string -> Option<T>, n: Notation, end: nat)
    returns (v1: Operand<T>)
    requires Readable(n) && IsConjExpr(r) && KeysResolve(r, key, resolve)
    requires At(s, m + 1, Show(r, key, n)) && end == m + 1 + |Show(r, key, n)| && Closes(s, end, n)
    ensures Parse(s, m + 1, n, resolve) == Success((v1, Resume(s, end)))
    ensures forall a :: OperandMeaning(v1, a) == ExprMeaning(r, a)
    decreases Bin(isAnd, l, r), 0
  {
    v1 := ParseShow(s, m + 1, r, key, resolve, n, end);
  }

  /** The two operands of a written `Bin`, read back, combine into the
      operand of the whole. */
  lemma CombineShown<T>(s: string, p: nat, isAnd: bool, l: Expr<T>, r: Expr<T>,
                        resolve: string -> Option<T>, n: Notation, m: nat, end: nat, v0: Operand<T>, v1: Operand<T>)
    returns (v: Operand<T>)
    requires Readable(n)
    requires isAnd || IsClauseExpr(l)
    requires IsClauseExpr(r)
    requires p < |s| && s[p] == (if isAnd then n.andOp else n.orOp) && p < m < |s| && s[m] == n.separator && m < end
    requires Parse(s, p + 1, n, resolve) == Success((v0, Resume(s, m)))
    requires Parse(s, m + 1, n, resolve) == Success((v1, Resume(s, end)))
    requires forall a :: OperandMeaning(v0, a) == ExprMeaning(l, a)
    requires forall a :: OperandMeaning(v1, a) == ExprMeaning(r, a)
    ensures Parse(s, p, n, resolve) == Success((v, Resume(s, end)))
    ensures forall a :: OperandMeaning(v, a) == ExprMeaning(Bin(isAnd, l, r), a)
  {
    var a1 := OperandWitness(v1, r);
    var a0 := a1;
    if !isAnd {
      a0 := OperandWitness(v0, l);
    }
    assert Resume(s, m) == m;
    v := ParseBin(s, p, isAnd, n, resolve, v0, m, v1, Resume(s, end), a0, a1);
    forall a ensures OperandMeaning(v, a) == ExprMeaning(Bin(isAnd, l, r), a) {
      assert OperandMeaning(v0, a) == ExprMeaning(l, a);
      assert OperandMeaning(v1, a) == ExprMeaning(r, a);
    }
  }

  /** An operand that means a clause holds somewhere. */
  lemma OperandWitness<T>(v: Operand<T>, e: Expr<T>) returns (a: T -> bool)
    requires IsClauseExpr(e) && forall a :: OperandMeaning(v, a) == ExprMeaning(e, a)
    ensures OperandMeaning(v, a)
  {
    a := ClauseWitness(e);
  }

  /** Where the operator, the left operand, the separator and the right
      operand of a written `op left sep right` sit in the text. */
  lemma OperatorLayout(s: string, p: nat, w: string, op: char, left: string, right: string, n: Notation)
    requires w == [op] + left + [n.separator] + right
    requires At(s, p, w) && Closes(s, p + |w|, n)
    ensures var m := p + 1 + |left|;
      && p < |s| && s[p] == op && m < |s| && s[m] == n.separator
      && At(s, p + 1, left) && Closes(s, m, n) && At(s, m + 1, right)
      && m + 1 + |right| == p + |w| && Closes(s, m + 1 + |right|, n)
  {
    var m := p + 1 + |left|;
    Nest([op], left, [n.separator], right);
    AtSplit(s, p, [op], left + ([n.separator] + right));
    AtSplit(s, p + 1, left, [n.separator] + right);
    AtSplit(s, m, [n.separator], right);
    assert s[p] == op by {
      assert s[p..p + 1] == [op];
    }
    assert s[m] == n.separator by {
      assert s[m..m + 1] == [n.separator];
    }
  }

  lemma Nest(a: string, b: string, c: string, d: string)
    ensures a + b + c + d == a + (b + (c + d))
  {
  }

  // ---------------------------------------------------------------------
  // The expression a listing writes
  // ---------------------------------------------------------------------

  /** `ops + args` with `k - 1` operators before `k` arguments reads as the
      arguments combined from the left. */
  function Fold<T>(isAnd: bool, es: seq<Expr<T>>): Expr<T>
    requires |es| > 0
    decreases |es|
  {
    if |es| == 1 then es[0] else Bin(isAnd, Fold(isAnd, es[..|es| - 1]), es[|es| - 1])
  }

  function LiteralExpr<T>(l: Literal<T>): Expr<T>
  {
    if l.negated then Not(Leaf(l.term)) else Leaf(l.term)
  }

  function ClauseExpr<T>(d: seq<Literal<T>>): Expr<T>
    requires |d| > 0
  {
    Fold(false, seq(|d|, i requires 0 <= i < |d| => LiteralExpr(d[i])))
  }

  function ConjExpr<T>(cs: seq<seq<Literal<T>>>): Expr<T>
    requires |cs| > 0 && forall i :: 0 <= i < |cs| ==> |cs[i]| > 0
  {
    Fold(true, seq(|cs|, i requires 0 <= i < |cs| => ClauseExpr(cs[i])))
  }

  /** A fold writes as its operators followed by its arguments joined with
      the separator. */
  lemma {:induction false} ShowFold<T>(isAnd: bool, es: seq<Expr<T>>, key: T -> string, n: Notation)
    requires |es| > 0
    ensures Show(Fold(isAnd, es), key, n)
            == Repeat(if isAnd then n.andOp else n.orOp, |es| - 1)
               + JoinWith(seq(|es|, i requires 0 <= i < |es| => Show(es[i], key, n)), n.separator)
    decreases |es|
  {
    if |es| == 1 {
      assert seq(|es|, i requires 0 <= i < |es| => Show(es[i], key, n)) == [Show(es[0], key, n)];
    } else {
      ShowFold(isAnd, es[..|es| - 1], key, n);
      ShowFoldStep(isAnd, es, key, n);
    }
  }

  /** The last argument of a fold writes after the others. */
  lemma ShowFoldStep<T>(isAnd: bool, es: seq<Expr<T>>, key: T -> string, n: Notation)
    requires |es| > 1
    requires var init := es[..|es| - 1];
      Show(Fold(isAnd, init), key, n)
        == Repeat(if isAnd then n.andOp else n.orOp, |init| - 1)
           + JoinWith(seq(|init|, i requires 0 <= i < |init| => Show(init[i], key, n)), n.separator)
    ensures Show(Fold(isAnd, es), key, n)
            == Repeat(if isAnd then n.andOp else n.orOp, |es| - 1)
               + JoinWith(seq(|es|, i requires 0 <= i < |es| => Show(es[i], key, n)), n.separator)
  {
    var k, op := |es|, if isAnd then n.andOp else n.orOp;
    var parts := seq(k, i requires 0 <= i < k => Show(es[i], key, n));
    var init := es[..k - 1];
    var front := seq(|init|, i requires 0 <= i < |init| => Show(init[i], key, n));
    var r, j, last := Repeat(op, k - 2), JoinWith(front, n.separator), Show(es[k - 1], key, n);
    assert Show(Fold(isAnd, es), key, n) == [op] + (r + j) + [n.separator] + last;
    Regroup([op], r, j, [n.separator], last);
    assert Repeat(op, k - 1) == [op] + r;
    assert parts[..k - 1] == front;
    assert JoinWith(parts, n.separator) == j + [n.separator] + last;
  }

  /** Concatenation regrouped. */
  lemma Regroup(a: string, b: string, c: string, d: string, e: string)
    ensures a + (b + c) + d + e == (a + b) + (c + d + e)
  {
  }

  /** A fold of `or`s over literals is a clause expression. */
  lemma {:induction false} FoldIsClause<T>(es: seq<Expr<T>>)
    requires |es| > 0 && forall i :: 0 <= i < |es| ==> IsLiteralExpr(es[i])
    ensures IsClauseExpr(Fold(false, es))
    decreases |es|
  {
    if |es| > 1 {
      FoldIsClause(es[..|es| - 1]);
    }
  }

  /** A fold of `and`s over clause expressions is a conjunction expression. */
  lemma {:induction false} FoldIsConj<T>(es: seq<Expr<T>>)
    requires |es| > 0 && forall i :: 0 <= i < |es| ==> IsClauseExpr(es[i])
    ensures IsConjExpr(Fold(true, es))
    decreases |es|
  {
    if |es| > 1 {
      FoldIsConj(es[..|es| - 1]);
    } else {
      ClauseIsConj(es[0]);
    }
  }

  /** The keys of a fold resolve when those of its arguments do. */
  lemma {:induction false} FoldKeys<T>(isAnd: bool, es: seq<Expr<T>>, key: T -> string, resolve: string -> Option<T>)
    requires |es| > 0 && forall i :: 0 <= i < |es| ==> KeysResolve(es[i], key, resolve)
    ensures KeysResolve(Fold(isAnd, es), key, resolve)
    decreases |es|
  {
    if |es| > 1 {
      FoldKeys(isAnd, es[..|es| - 1], key, resolve);
    }
  }

  /** A fold of `and`s holds when every argument does, a fold of `or`s when
      some argument does. */
  lemma {:induction false} FoldMeaning<T>(isAnd: bool, es: seq<Expr<T>>, a: T -> bool)
    requires |es| > 0
    ensures isAnd ==> (ExprMeaning(Fold(isAnd, es), a) <==> forall i :: 0 <= i < |es| ==> ExprMeaning(es[i], a))
    ensures !isAnd ==> (ExprMeaning(Fold(isAnd, es), a) <==> exists i :: 0 <= i < |es| && ExprMeaning(es[i], a))
    decreases |es|
  {
    if |es| > 1 {
      var init := es[..|es| - 1];
      FoldMeaning(isAnd, init, a);
      assert forall i :: 0 <= i < |init| ==> init[i] == es[i];
    }
  }


  /** A clause's expression writes as `EncodeClause`. */
  lemma ShowClause<T>(d: seq<Literal<T>>, key: T -> string, n: Notation)
    requires |d| > 0
    ensures Show(ClauseExpr(d), key, n) == EncodeClause(d, key, n)
  {
    var es := seq(|d|, i requires 0 <= i < |d| => LiteralExpr(d[i]));
    ShowFold(false, es, key, n);
    forall i | 0 <= i < |d| ensures Show(es[i], key, n) == ShowLiteral(d[i], key, n) {
      if !d[i].negated {
        assert ShowLiteral(d[i], key, n) == "" + key(d[i].term);
      }
    }
    assert seq(|es|, i requires 0 <= i < |es| => Show(es[i], key, n))
           == seq(|d|, i requires 0 <= i < |d| => ShowLiteral(d[i], key, n));
  }

  /** A listing's expression writes as `get_prefix_notation`. */
  lemma ShowConj<T>(cs: seq<seq<Literal<T>>>, key: T -> string, n: Notation)
    requires |cs| > 0 && forall i :: 0 <= i < |cs| ==> |cs[i]| > 0
    ensures Show(ConjExpr(cs), key, n) == EncodeListing(cs, key, n)
  {
    var es := seq(|cs|, i requires 0 <= i < |cs| => ClauseExpr(cs[i]));
    ShowFold(true, es, key, n);
    forall i | 0 <= i < |cs| ensures Show(es[i], key, n) == EncodeClause(cs[i], key, n) {
      ShowClause(cs[i], key, n);
    }
    assert seq(|es|, i requires 0 <= i < |es| => Show(es[i], key, n))
           == seq(|cs|, i requires 0 <= i < |cs| => EncodeClause(cs[i], key, n));
  }

  /** A clause's expression means the clause. */
  lemma ClauseExprMeaning<T>(d: seq<Literal<T>>, a: T -> bool)
    requires |d| > 0
    ensures ExprMeaning(ClauseExpr(d), a) == ClauseHolds(Elements(d), a)
  {
    var es := seq(|d|, i requires 0 <= i < |d| => LiteralExpr(d[i]));
    FoldMeaning(false, es, a);
    assert forall i :: 0 <= i < |d| ==> (ExprMeaning(es[i], a) == LiteralHolds(d[i], a));
    if ClauseHolds(Elements(d), a) {
      var l :| l in Elements(d) && LiteralHolds(l, a);
      var i :| 0 <= i < |d| && d[i] == l;
      assert ExprMeaning(es[i], a);
    }
  }

  /** A listing's expression means the conjunction it lists. */
  lemma ConjExprMeaning<T>(cs: seq<seq<Literal<T>>>, a: T -> bool)
    requires |cs| > 0 && forall i :: 0 <= i < |cs| ==> |cs[i]| > 0
    ensures ExprMeaning(ConjExpr(cs), a) == Holds(ClausesOf(cs), a)
  {
    var es := seq(|cs|, i requires 0 <= i < |cs| => ClauseExpr(cs[i]));
    FoldMeaning(true, es, a);
    forall i | 0 <= i < |cs| ensures ExprMeaning(es[i], a) == ClauseHolds(Elements(cs[i]), a) {
      ClauseExprMeaning(cs[i], a);
    }
    if Holds(ClausesOf(cs), a) {
      forall i | 0 <= i < |cs| ensures ExprMeaning(es[i], a) {
        assert Elements(cs[i]) in ClausesOf(cs);
      }
    }
  }

  /** A listing's expression has the shape the reader handles, and its keys
      resolve when every literal's do. */
  lemma ConjExprShape<T>(cs: seq<seq<Literal<T>>>, key: T -> string, resolve: string -> Option<T>)
    requires |cs| > 0 && forall i :: 0 <= i < |cs| ==> |cs[i]| > 0
    requires forall i, j :: 0 <= i < |cs| && 0 <= j < |cs[i]| ==>
               IsKey(key(cs[i][j].term)) && resolve(key(cs[i][j].term)) == Some(cs[i][j].term)
    ensures IsConjExpr(ConjExpr(cs)) && KeysResolve(ConjExpr(cs), key, resolve)
  {
    var es := seq(|cs|, i requires 0 <= i < |cs| => ClauseExpr(cs[i]));
    forall i | 0 <= i < |cs| ensures IsClauseExpr(es[i]) && KeysResolve(es[i], key, resolve) {
      var d := cs[i];
      var ls := seq(|d|, j requires 0 <= j < |d| => LiteralExpr(d[j]));
      FoldIsClause(ls);
      FoldKeys(false, ls, key, resolve);
    }
    FoldIsConj(es);
    FoldKeys(true, es, key, resolve);
  }

  /** `from_prefix_notation(get_prefix_notation(q))`: a formula with clauses,
      none of them empty, whose every term is written as a decimal key that
      the lookup turns back into the term, reads back as an operand with the
      formula's meaning, whatever order the clauses and literals were
      written in. The stream is left at its last character. */
  lemma PrefixRoundTrip<T>(q: Formula<T>, cs: seq<seq<Literal<T>>>, key: T -> string,
                           resolve: string -> Option<T>, n: Notation)
    returns (v: Operand<T>)
    requires Readable(n) && q.trivial == NonTrivial && Lists(cs, q.conjunction)
    requires q.conjunction != {} && {} !in q.conjunction
    requires forall d, l :: d in q.conjunction && l in d ==>
               IsKey(key(l.term)) && resolve(key(l.term)) == Some(l.term)
    ensures var s := EncodeListing(cs, key, n);
            Parse(s, 0, n, resolve) == Success((v, Resume(s, |s|)))
    ensures forall a :: OperandMeaning(v, a) == Eval(q, a)
  {
    EmptyListing(cs, key, n);
    forall i | 0 <= i < |cs| ensures |cs[i]| > 0 {
      assert Elements(cs[i]) in ClausesOf(cs);
      assert Elements(cs[i]) != {};
      var l :| l in Elements(cs[i]);
    }
    forall i, j | 0 <= i < |cs| && 0 <= j < |cs[i]|
      ensures IsKey(key(cs[i][j].term)) && resolve(key(cs[i][j].term)) == Some(cs[i][j].term)
    {
      assert Elements(cs[i]) in q.conjunction && cs[i][j] in Elements(cs[i]);
    }
    var s := EncodeListing(cs, key, n);
    var e := ConjExpr(cs);
    ShowConj(cs, key, n);
    ConjExprShape(cs, key, resolve);
    assert s[0..|s|] == s;
    v := ParseShow(s, 0, e, key, resolve, n, |s|);
    forall a ensures OperandMeaning(v, a) == Eval(q, a) {
      ConjExprMeaning(cs, a);
    }
  }
}

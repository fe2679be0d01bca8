/**
 For which expressions calc.c comes out right whatever the numbers in them are:
 the condition of CalcUsual is exact.
 */
module CalcShapes {
  import opened Arith
  import opened CalcSteps
  import opened CalcMeaning
  import opened CalcUsual

  /** Two expressions that differ only in their numbers. */
  predicate SameShape(e: Expr, f: Expr) {
    match e
    case Num(_) => f.Num?
    case Paren(a) => f.Paren? && SameShape(a, f.e)
    case Neg(a) => f.Neg? && SameShape(a, f.e)
    case Pos(a) => f.Pos? && SameShape(a, f.e)
    case Bin(op, l, r) => f.Bin? && f.op == op && SameShape(l, f.l) && SameShape(r, f.r)
  }

  lemma {:induction false} ShapeKeepsSigns(e: Expr, f: Expr)
    requires SameShape(e, f)
    ensures Signed(f) == Signed(e) && SignsHarmless(f) == SignsHarmless(e)
    ensures forall op :: TakesOp(op, f) == TakesOp(op, e)
    decreases e
  {
    match e
    case Num(_) =>
    case Paren(a) => ShapeKeepsSigns(a, f.e);
    case Neg(a) => ShapeKeepsSigns(a, f.e);
    case Pos(a) => ShapeKeepsSigns(a, f.e);
    case Bin(op, l, r) =>
      ShapeKeepsSigns(l, f.l);
      ShapeKeepsSigns(r, f.r);
  }

  // ---------- products without signs ----------

  function NatOp(op: char, x: nat, y: nat): nat
    requires IsProduct(op) && (op in "/%" ==> y != 0)
  {
    match op
    case '*' => x * y
    case '/' => x / y
    case _ => x % y
  }

  lemma SizeOfTimes(a: int, b: int)
    ensures Abs(a * b) == Abs(a) * Abs(b)
  {
    if a >= 0 && b >= 0 {
      assert a * b >= 0;
    } else if a >= 0 {
      assert a * -b >= 0 && a * b == -(a * -b);
    } else if b >= 0 {
      assert -a * b >= 0 && a * b == -(-a * b);
    } else {
      assert -a * -b >= 0 && a * b == -a * -b;
    }
  }

  lemma SizeOfQuotient(a: int, b: int)
    requires b != 0
    ensures Abs(TruncDiv(a, b)) == Abs(a) / Abs(b)
  {
    assert Abs(a) / Abs(b) >= 0;
  }

  lemma SizeOfRemainder(a: int, b: int)
    requires b != 0
    ensures Abs(TruncRem(a, b)) == Abs(a) % Abs(b)
  {
    var x: int, y: int := Abs(a), Abs(b);
    var q, r := x / y, x % y;
    assert x == y * q + r;
    assert TruncRem(a, b) == a - b * (if (a < 0) == (b < 0) then q else -q);
    hide *;
    RemainderSigned(a, b, q, r);
  }

  lemma RemainderSigned(a: int, b: int, q: int, r: int)
    requires b != 0 && Abs(a) == Abs(b) * q + r && r >= 0
    ensures Abs(a - b * (if (a < 0) == (b < 0) then q else -q)) == r
  {
    SignOfProduct(b, q);
  }

  /** The size of a result depends on the sizes of the operands alone. */
  lemma SizeOfApply(op: char, a: int, b: int)
    requires IsProduct(op) && (op in "/%" ==> b != 0)
    ensures Abs(Apply(op, a, b)) == NatOp(op, Abs(a), Abs(b))
  {
    hide TruncDiv, TruncRem;
    if op == '*' { SizeOfTimes(a, b); } else if op == '/' { SizeOfQuotient(a, b); } else { SizeOfRemainder(a, b); }
  }

  lemma DivOf(x: nat, q: nat, r: nat, m: nat)
    requires x == q * m + r && r < m
    ensures x / m == q && x % m == r
  {
    ModIs(x, q, r, m);
    assert x == m * (x / m) + x % m;
    assert m * (x / m) == m * q;
    TimesCancels(m, x / m, q);
  }

  lemma TimesCancels(m: int, p: int, q: int)
    requires m > 0 && m * p == m * q
    ensures p == q
  {
    var d := p - q;
    assert m * d == 0;
    assert d >= 1 ==> m * d >= m;
    assert d <= -1 ==> m * d <= -m;
  }

  /** `x o (y op z)` and `(x o y) op z` are different, and both at least `n`. */
  predicate FarApart(o: char, op: char, x: nat, y: nat, z: nat, n: nat)
    requires IsProduct(o) && IsProduct(op)
  {
    && y > 0 && z > 0 && NatOp(op, y, z) > 0
    && NatOp(o, x, NatOp(op, y, z)) >= n && NatOp(op, NatOp(o, x, y), z) >= n
    && NatOp(o, x, NatOp(op, y, z)) != NatOp(op, NatOp(o, x, y), z)
  }

  lemma ApartBehindTimes(op: char, n: nat) returns (x: nat, y: nat, z: nat)
    requires op in "/%" && n >= 1
    ensures FarApart('*', op, x, y, z, n)
  {
    if op == '/' {
      x, y, z := 2 * n, 3, 2;
    } else {
      x, y, z := 2, n + 1, n + 2;
      DivOf(n + 1, 0, n + 1, n + 2);
      DivOf(2 * (n + 1), 1, n, n + 2);
    }
  }

  lemma ApartBehindQuotient(op: char, n: nat) returns (x: nat, y: nat, z: nat)
    requires IsProduct(op) && n >= 1
    ensures FarApart('/', op, x, y, z, n)
  {
    if op in "*/" {
      x, y, z := 4 * n, 2, 2;
      assert x / 2 == 2 * n && x / 4 == n && 2 * n / 2 == n;
    } else {
      x, y, z := n * (n + 2), n + 2, n + 1;
      assert x >= 3 * n by { assert n * (n + 2) - n * 3 == n * (n - 1); }
      DivOf(n + 2, 1, 1, n + 1);
      DivOf(n, 0, n, n + 1);
      DivOf(x, n, 0, n + 2);
    }
  }

  lemma ApartBehindRemainder(op: char, n: nat) returns (x: nat, y: nat, z: nat)
    requires IsProduct(op) && n >= 1
    ensures FarApart('%', op, x, y, z, n)
  {
    if op == '*' {
      x, y, z := n, n + 1, 2;
      DivOf(n, 0, n, n + 1);
      DivOf(n, 0, n, 2 * n + 2);
    } else if op == '/' {
      x, y, z := 2 * n, 4 * n + 2, 2;
      DivOf(2 * n, 0, 2 * n, 2 * n + 1);
      DivOf(2 * n, 0, 2 * n, 4 * n + 2);
    } else {
      x, y, z := 2 * n + 3, 2 * n + 5, n + 3;
      DivOf(2 * n + 5, 1, n + 2, n + 3);
      DivOf(2 * n + 3, 1, n + 1, n + 2);
      DivOf(2 * n + 3, 0, 2 * n + 3, 2 * n + 5);
      DivOf(2 * n + 3, 1, n, n + 3);
    }
  }

  /** Only multiplications group either way; for all other pairs results as large as wanted differ. */
  lemma {:induction false} Apart(o: char, op: char, n: nat) returns (x: nat, y: nat, z: nat)
    requires IsProduct(o) && IsProduct(op) && !(o == '*' && op == '*') && n >= 1
    ensures FarApart(o, op, x, y, z, n)
  {
    if o == '*' {
      x, y, z := ApartBehindTimes(op, n);
    } else if o == '/' {
      x, y, z := ApartBehindQuotient(op, n);
    } else {
      x, y, z := ApartBehindRemainder(op, n);
    }
  }

  lemma ApartRightTimes(v: nat, w: nat, n: nat)
    requires v < w && v >= 1 && n >= 1
    ensures n * w > n * v >= n
  {
    assert n * w - n * v == n * (w - v) && n * v - n * 1 == n * (v - 1);
    assert n * (w - v) >= 1 && n * (v - 1) >= 0;
  }

  lemma ApartRightQuotient(v: nat, w: nat, n: nat)
    requires v < w && v >= 1 && n >= 1
    ensures var x := n * w * v; x / v == n * w && x / w == n * v
  {
    var x := n * w * v;
    assert x == n * v * w by { assert w * v == v * w && n * (w * v) == n * w * v && n * (v * w) == n * v * w; }
    hide *;
    DivOf(x, n * w, 0, v);
    DivOf(x, n * v, 0, w);
  }

  lemma ApartRightRemainder(v: nat, w: nat, n: nat) returns (x: nat)
    requires v < w && v > 2 * n && n >= 1
    ensures x % v >= n && x % w >= n && x % v != x % w
  {
    if w > v + n {
      x := v + n;
      DivOf(x, 1, n, v);
      DivOf(x, 0, x, w);
    } else {
      x := w + n;
      DivOf(x, 1, n, w);
      DivOf(x, 1, w - v + n, v);
    }
  }

  /** A left operand for which two different right operands give different results. */
  lemma {:induction false} ApartRight(op: char, v: nat, w: nat, n: nat) returns (x: nat)
    requires IsProduct(op) && v < w && v > 2 * n && n >= 1
    ensures NatOp(op, x, v) >= n && NatOp(op, x, w) >= n && NatOp(op, x, v) != NatOp(op, x, w)
  {
    ApartRightTimes(v, w, n);
    if op == '*' {
      x := n;
    } else if op == '/' {
      ApartRightQuotient(v, w, n);
      x := n * w * v;
    } else {
      x := ApartRightRemainder(v, w, n);
    }
  }

  // ---------- numbers of a given value ----------

  function Digits(n: nat): (ds: string)
    ensures ds != []
  {
    (if n < 10 then [] else Digits(n / 10)) + [('0' as int + n % 10) as char]
  }

  lemma {:induction false} DigitsAppend(acc: int, ds: string, c: char)
    ensures DigitsFrom(acc, ds + [c]) == 10 * DigitsFrom(acc, ds) + (c as int - '0' as int)
    decreases |ds|
  {
    if ds == [] {
      assert ([] + [c])[1..] == [];
    } else {
      assert (ds + [c])[1..] == ds[1..] + [c];
      DigitsAppend(10 * acc + (ds[0] as int - '0' as int), ds[1..], c);
    }
  }

  lemma {:induction false} DigitsMeet(n: nat)
    ensures IsDigits(Digits(n)) && DigitsFrom(0, Digits(n)) == n
  {
    var front := if n < 10 then [] else Digits(n / 10);
    if n >= 10 { DigitsMeet(n / 10); }
    DigitsAppend(0, front, ('0' as int + n % 10) as char);
  }

  // ---------- instances of a shape ----------

  /** `f` is `e` with other numbers, and neither reading of it divides by zero. */
  predicate Instance(e: Expr, f: Expr) {
    SameShape(e, f) && Usual(f) && Defined(f) && Defined(Regrouped(f))
  }

  /** What it is worth without its sign, as it is meant and as the evaluator takes it. */
  function Meant(f: Expr): nat { Abs(Value(f)) }

  function Taken(f: Expr): nat { Abs(Value(Regrouped(f))) }

  lemma InstanceOfBin(op: char, l: Expr, r: Expr, fl: Expr, fr: Expr)
    requires Usual(Bin(op, l, r)) && Instance(l, fl) && Instance(r, fr) && (op in "/%" ==> Value(fr) != 0)
    ensures SameShape(Bin(op, l, r), Bin(op, fl, fr)) && Usual(Bin(op, fl, fr)) && Defined(Bin(op, fl, fr))
    ensures IsProduct(op) ==> Meant(Bin(op, fl, fr)) == NatOp(op, Meant(fl), Meant(fr))
  {
    if IsProduct(op) { SizeOfApply(op, Value(fl), Value(fr)); }
  }

  /** The part of `l` that gets an operator behind it. */
  function Attached(l: Expr): Expr {
    match l
    case Neg(x) => Attached(x)
    case Pos(x) => Attached(x)
    case Bin(o, _, b) => if IsProduct(o) && Signed(b) then Attached(b) else l
    case _ => l
  }

  /** An operation that leaves the size of the part it applies to leaves the size of the whole. */
  lemma {:induction false} MulIntoNeutral(op: char, l: Expr, r: Expr)
    requires IsProduct(op) && Defined(l) && Defined(r) && (op in "/%" ==> Value(r) != 0)
    requires NatOp(op, Abs(Value(Attached(l))), Abs(Value(r))) == Abs(Value(Attached(l)))
    ensures Defined(MulInto(op, l, r)) && Abs(Value(MulInto(op, l, r))) == Abs(Value(l))
    decreases l
  {
    match l
    case Neg(x) => MulIntoNeutral(op, x, r);
    case Pos(x) => MulIntoNeutral(op, x, r);
    case Bin(o, a, b) =>
      if IsProduct(o) && Signed(b) {
        MulIntoNeutral(op, b, r);
        SameSize(o, a, b, MulInto(op, b, r));
      } else {
        SizeOfApply(op, Value(l), Value(r));
      }
    case _ => SizeOfApply(op, Value(l), Value(r));
  }

  lemma SameSize(o: char, a: Expr, b: Expr, c: Expr)
    requires IsProduct(o) && Defined(Bin(o, a, b)) && Defined(c) && Abs(Value(b)) == Abs(Value(c))
    ensures Defined(Bin(o, a, c)) && Abs(Value(Bin(o, a, c))) == Abs(Value(Bin(o, a, b)))
  {
    SizeOfApply(o, Value(a), Value(b));
    SizeOfApply(o, Value(a), Value(c));
  }

  /** A right operand that changes no size: 1, or for a remainder something large. */
  function Neutral(op: char, fl: Expr): nat {
    if op == '%' then Meant(fl) + Abs(Value(Attached(Regrouped(fl)))) + 1 else 1
  }

  lemma NeutralTail(op: char, l: Expr, r: Expr, fl: Expr, fr: Expr)
    requires IsProduct(op) && Usual(Bin(op, l, r)) && Instance(l, fl) && Instance(r, fr)
    requires Meant(fr) == Taken(fr) == Neutral(op, fl)
    ensures var f := Bin(op, fl, fr); Instance(Bin(op, l, r), f) && Meant(f) == Meant(fl) && Taken(f) == Taken(fl)
  {
    InstanceOfBin(op, l, r, fl, fr);
    IsNeutral(op, Meant(fl), Neutral(op, fl));
    IsNeutral(op, Abs(Value(Attached(Regrouped(fl)))), Neutral(op, fl));
    hide NatOp, Value, Attached, MulInto, Defined, Usual, SameShape;
    MulIntoNeutral(op, Regrouped(fl), Regrouped(fr));
    assert Regrouped(Bin(op, fl, fr)) == MulInto(op, Regrouped(fl), Regrouped(fr));
  }

  lemma IsNeutral(op: char, x: nat, y: nat)
    requires IsProduct(op) && y >= 1 && if op == '%' then y > x else y == 1
    ensures NatOp(op, x, y) == x
  {
  }

  /** Every expression has an instance of every size, on which both readings agree but for the sign. */
  lemma {:induction false} OfSize(e: Expr, x: nat) returns (f: Expr)
    requires Usual(e)
    ensures Instance(e, f) && Meant(f) == Taken(f) == x
    decreases e
  {
    match e
    case Num(_) =>
      DigitsMeet(x);
      f := Num(Digits(x));
    case Paren(a) =>
      var g := OfSize(a, x);
      f := Paren(g);
    case Neg(a) =>
      var g := OfSize(a, x);
      f := Neg(g);
    case Pos(a) =>
      var g := OfSize(a, x);
      f := Pos(g);
    case Bin(op, l, r) =>
      var fl := OfSize(l, x);
      var fr := OfSize(r, if IsProduct(op) then Neutral(op, fl) else 0);
      f := Bin(op, fl, fr);
      if IsProduct(op) { NeutralTail(op, l, r, fl, fr); } else { SumWithNothing(op, l, r, fl, fr); }
  }

  lemma SumWithNothing(op: char, l: Expr, r: Expr, fl: Expr, fr: Expr)
    requires op in "+-" && Usual(Bin(op, l, r)) && Instance(l, fl) && Instance(r, fr)
    ensures var f := Bin(op, fl, fr);
            && Instance(Bin(op, l, r), f)
            && (Meant(fr) == Taken(fr) == 0 ==> Meant(f) == Meant(fl) && Taken(f) == Taken(fl))
            && (Meant(fl) == Taken(fl) == 0 ==> Meant(f) == Meant(fr) && Taken(f) == Taken(fr))
  {
  }

  // ---------- instances that come out wrong ----------

  /** An instance with different sizes in the two readings, both at least `n`. */
  predicate Differs(e: Expr, f: Expr, n: nat) {
    Instance(e, f) && Meant(f) != Taken(f) && Meant(f) >= n && Taken(f) >= n
  }

  lemma {:induction false} SignedMulInto(op: char, l: Expr, r: Expr)
    requires Signed(l)
    ensures Signed(MulInto(op, l, r))
  {
    if l.Pos? { SignedMulInto(op, l.e, r); }
  }

  /** What stands behind an operand with a sign goes to that operand. */
  lemma {:induction false} MulIntoSigned(op: char, o: char, l: Expr, b: Expr, r: Expr)
    requires IsProduct(o) && Signed(b)
    ensures MulInto(op, MulInto(o, l, b), r) == MulInto(o, l, MulInto(op, b, r))
    decreases l
  {
    match l
    case Neg(x) => MulIntoSigned(op, o, x, b, r);
    case Pos(x) => MulIntoSigned(op, o, x, b, r);
    case Bin(p, a, c) =>
      if IsProduct(p) && Signed(c) {
        SignedMulInto(o, c, b);
        MulIntoSigned(op, o, c, b, r);
      }
    case _ =>
  }

  /** A factor 1 in the middle changes no size. */
  lemma {:induction false} TimesOne(op: char, l: Expr, b: Expr, r: Expr)
    requires IsProduct(op) && !Signed(b) && Abs(Value(b)) == 1 && Defined(b) && Defined(MulInto(op, l, r))
    ensures var m := MulInto(op, MulInto('*', l, b), r);
            Defined(m) && Abs(Value(m)) == Abs(Value(MulInto(op, l, r)))
    decreases l
  {
    match l
    case Neg(x) => TimesOne(op, x, b, r);
    case Pos(x) => TimesOne(op, x, b, r);
    case Bin(p, a, c) =>
      if IsProduct(p) && Signed(c) {
        TimesOne(op, c, b, r);
        SignedMulInto('*', c, b);
        SameSize(p, a, MulInto(op, c, r), MulInto(op, MulInto('*', c, b), r));
      } else {
        OneBefore(op, l, b, r);
      }
    case _ => OneBefore(op, l, b, r);
  }

  lemma OneBefore(op: char, l: Expr, b: Expr, r: Expr)
    requires IsProduct(op) && Abs(Value(b)) == 1 && Defined(b) && Defined(Bin(op, l, r))
    ensures var m := Bin(op, Bin('*', l, b), r); Defined(m) && Abs(Value(m)) == Abs(Value(Bin(op, l, r)))
  {
    SizeOfApply('*', Value(l), Value(b));
    SizeOfApply(op, Value(l), Value(r));
    SizeOfApply(op, Value(Bin('*', l, b)), Value(r));
  }

  lemma {:induction false} OnlyTimesTaken(o: char, op: char, l: Expr)
    requires TakesOp(o, l) && !TakesOp(op, l)
    ensures o == '*' && op != '*'
  {
    if !(Signed(l.r) && !(l.op == '*' && op == '*')) { OnlyTimesTaken(o, op, l.l); }
  }

  /** With the sign on the operand in front of it, `op` is taken into that operand. */
  lemma {:induction false} WrongAtEnd(op: char, o: char, l: Expr, b: Expr, r: Expr, n: nat) returns (f: Expr)
    requires IsProduct(op) && IsProduct(o) && Usual(Bin(op, Bin(o, l, b), r)) && n >= 1
    requires SignsHarmless(Bin(o, l, b)) && Signed(b) && !(o == '*' && op == '*')
    ensures Differs(Bin(op, Bin(o, l, b), r), f, n)
  {
    var x, y, z := Apart(o, op, n);
    var fl := OfSize(l, x);
    var fb := OfSize(b, y);
    var fr := OfSize(r, z);
    f := Bin(op, Bin(o, fl, fb), fr);
    ShapeKeepsSigns(l, fl);
    ShapeKeepsSigns(b, fb);
    SignedStays(fb);
    TakesThenAbsorbs(o, fl);
    TakesThenAbsorbs(op, fb);
    var rl, rb, rr := Regrouped(fl), Regrouped(fb), Regrouped(fr);
    MulIntoValue(op, rb, rr);
    SizeOfApply(op, Value(rb), Value(rr));
    var m := MulInto(op, rb, rr);
    MulIntoValue(o, rl, m);
    SizeOfApply(o, Value(rl), Value(m));
    MulIntoSigned(op, o, rl, rb, rr);
    assert Regrouped(f) == MulInto(op, MulInto(o, rl, rb), rr);
    SizeOfApply(o, Value(fl), Value(fb));
    SizeOfApply(op, Value(Bin(o, fl, fb)), Value(fr));
  }

  /** The same with any operands in front, of which those with a sign are only multiplied. */
  lemma {:induction false} WrongTail(op: char, l: Expr, r: Expr, n: nat) returns (f: Expr)
    requires IsProduct(op) && Usual(Bin(op, l, r)) && n >= 1
    requires SignsHarmless(l) && !TakesOp(op, l)
    ensures Differs(Bin(op, l, r), f, n)
    decreases l
  {
    var o, l', b := l.op, l.l, l.r;
    if Signed(b) && !(o == '*' && op == '*') {
      f := WrongAtEnd(op, o, l', b, r, n);
    } else {
      OnlyTimesTaken(o, op, l');
      var g := WrongTail(op, l', r, n);
      var fb := OfSize(b, 1);
      f := Bin(op, Bin('*', g.l, fb), g.r);
      ShapeKeepsSigns(b, fb);
      OneInside(op, l', b, r, g, fb);
    }
  }

  /** A factor 1 more does not bring the two readings together. */
  lemma {:induction false} OneInside(op: char, l: Expr, b: Expr, r: Expr, g: Expr, fb: Expr)
    requires IsProduct(op) && Usual(Bin(op, Bin('*', l, b), r)) && Instance(Bin(op, l, r), g)
    requires Instance(b, fb) && Meant(fb) == Taken(fb) == 1 && !Signed(fb)
    ensures var f := Bin(op, Bin('*', g.l, fb), g.r);
            Instance(Bin(op, Bin('*', l, b), r), f) && Meant(f) == Meant(g) && Taken(f) == Taken(g)
  {
    var f, left := Bin(op, Bin('*', g.l, fb), g.r), Regrouped(g.l);
    OneBefore(op, g.l, fb, g.r);
    SignedStays(fb);
    assert Regrouped(g) == MulInto(op, left, Regrouped(g.r));
    assert Regrouped(f) == MulInto(op, MulInto('*', left, Regrouped(fb)), Regrouped(g.r));
    TimesOne(op, left, Regrouped(fb), Regrouped(g.r));
  }

  /** An operand in brackets that differs makes the whole differ, behind any left side that takes the operator. */
  lemma {:induction false} WrongRight(op: char, l: Expr, r: Expr, fr: Expr, n: nat) returns (f: Expr)
    requires IsProduct(op) && Usual(Bin(op, l, r)) && TakesOp(op, l) && n >= 1 && Differs(r, fr, 2 * n + 1)
    ensures Differs(Bin(op, l, r), f, n)
  {
    var v, w := Meant(fr), Taken(fr);
    var x: nat;
    if v < w { x := ApartRight(op, v, w, n); } else { x := ApartRight(op, w, v, n); }
    var fl := OfSize(l, x);
    f := Bin(op, fl, fr);
    InstanceOfBin(op, l, r, fl, fr);
    ShapeKeepsSigns(l, fl);
    TakesThenAbsorbs(op, fl);
    MulIntoValue(op, Regrouped(fl), Regrouped(fr));
    SizeOfApply(op, Value(Regrouped(fl)), Value(Regrouped(fr)));
  }

  /** An expression whose signs can do harm has instances in which they do. */
  lemma {:induction false} HarmDone(e: Expr, n: nat) returns (f: Expr)
    requires Usual(e) && !SignsHarmless(e) && n >= 1
    ensures Differs(e, f, n)
    decreases e
  {
    hide Value, MulInto, Defined, Signed;
    match e
    case Paren(a) =>
      var g := HarmDone(a, n);
      f := Paren(g);
      SameInside(g);
    case Neg(a) =>
      var g := HarmDone(a, n);
      f := Neg(g);
      SameInside(g);
    case Pos(a) =>
      var g := HarmDone(a, n);
      f := Pos(g);
      SameInside(g);
    case Bin(op, l, r) =>
      if !SignsHarmless(l) {
        var fl := HarmDone(l, n);
        var fr := OfSize(r, if IsProduct(op) then Neutral(op, fl) else 0);
        f := Bin(op, fl, fr);
        if IsProduct(op) { NeutralTail(op, l, r, fl, fr); } else { SumWithNothing(op, l, r, fl, fr); }
      } else if IsProduct(op) && !TakesOp(op, l) {
        f := WrongTail(op, l, r, n);
      } else {
        var fr := HarmDone(r, 2 * n + 1);
        if IsProduct(op) {
          f := WrongRight(op, l, r, fr, n);
        } else {
          var fl := OfSize(l, 0);
          f := Bin(op, fl, fr);
          SumWithNothing(op, l, r, fl, fr);
        }
      }
  }

  lemma SameInside(f: Expr)
    requires Defined(f) && Defined(Regrouped(f))
    ensures Meant(Paren(f)) == Meant(Neg(f)) == Meant(Pos(f)) == Meant(f)
    ensures Taken(Paren(f)) == Taken(Neg(f)) == Taken(Pos(f)) == Taken(f)
    ensures Defined(Paren(f)) && Defined(Neg(f)) && Defined(Pos(f))
    ensures Defined(Regrouped(Paren(f))) && Defined(Regrouped(Neg(f))) && Defined(Regrouped(Pos(f)))
  {
  }

  // ---------- the condition is exact ----------

  lemma {:induction false} NoBlanks(e: Expr)
    requires Usual(e)
    ensures Strip(Text(e)) == Text(e)
  {
    BlankFree(e);
    StripNothing(Text(e));
  }

  lemma {:induction false} BlankFree(e: Expr)
    requires Usual(e)
    ensures forall i :: 0 <= i < |Text(e)| ==> !IsBlank(Text(e)[i])
  {
    match e
    case Num(_) =>
    case Paren(a) => BlankFree(a);
    case Neg(a) => BlankFree(a);
    case Pos(a) => BlankFree(a);
    case Bin(_, l, r) => BlankFree(l); BlankFree(r);
  }

  /** A text of the form of `e` in which, as it is usually read, nothing is divided by zero. */
  predicate Spells(e: Expr, f: Expr, text: string) {
    SameShape(e, f) && Usual(f) && Defined(f) && Strip(text) == Text(f)
  }

  /**
   An expression comes out right for all numbers in it exactly when an inner
   operand of a product has a minus sign only between multiplications.
   */
  lemma {:induction false} RightForAllNumbersIff(e: Expr)
    requires Usual(e)
    ensures (forall f, text :: Spells(e, f, text) ==> Calc(FRESH, text) == Returned(Value(f), USED))
            <==> SignsHarmless(e)
  {
    hide Calc, Strip, Text, Value, Usual, Defined, Regrouped, SignsHarmless, SameShape;
    if SignsHarmless(e) {
      forall f, text | Spells(e, f, text) ensures Calc(FRESH, text) == Returned(Value(f), USED) {
        ShapeKeepsSigns(e, f);
        EvaluatesUsual(f, text);
      }
    } else {
      var f := HarmDone(e, 1);
      NoBlanks(f);
      EvaluatesRegrouped(f, Text(f));
      assert Spells(e, f, Text(f));
    }
  }
}

/**
 What a reader means by a text with signs, and for which texts that is what
 calc.c computes.
 */
module CalcUsual {
  import opened CalcSteps
  import opened CalcMeaning

  // ---------- trees without brackets, and signs ----------

  /** An expression as a reader means it: a sign belongs to the operand next to it. */
  datatype Tree = Lit(digits: string) | Minus(t: Tree) | Op(op: char, l: Tree, r: Tree)

  predicate ProperTree(t: Tree) {
    match t
    case Lit(ds) => ds != [] && IsDigits(ds)
    case Minus(a) => ProperTree(a)
    case Op(op, l, r) => IsOperator(op) && ProperTree(l) && ProperTree(r)
  }

  /** The recursive value, and whether it exists. */
  function TreeValue(t: Tree): int {
    match t
    case Lit(ds) => DigitsFrom(0, ds)
    case Minus(a) => -TreeValue(a)
    case Op(op, l, r) =>
      if !IsOperator(op) || (op in "/%" && TreeValue(r) == 0) then 0 else Apply(op, TreeValue(l), TreeValue(r))
  }

  predicate TreeDefined(t: Tree) {
    match t
    case Lit(_) => true
    case Minus(a) => TreeDefined(a)
    case Op(op, l, r) => TreeDefined(l) && TreeDefined(r) && (op in "/%" ==> TreeValue(r) != 0)
  }

  function Bracketed(need: bool, e: Expr): Expr { if need then Paren(e) else e }

  /** Printing with brackets only where an operand would otherwise come apart. */
  function Print(t: Tree): Expr {
    match t
    case Lit(ds) => Num(ds)
    case Minus(a) => Neg(Bracketed(LeftLevel(Print(a)) <= 1, Print(a)))
    case Op(op, l, r) =>
      Bin(op, Bracketed(RightLevel(Print(l)) < Level(op), Print(l)), Bracketed(LeftLevel(Print(r)) <= Level(op), Print(r)))
  }

  lemma {:induction false} PrintIsFaithful(t: Tree)
    requires ProperTree(t)
    ensures WellFormed(Print(t)) && Value(Print(t)) == TreeValue(t)
    ensures TreeDefined(t) <==> Defined(Print(t))
  {
    match t
    case Lit(_) =>
    case Minus(a) => PrintIsFaithful(a);
    case Op(_, l, r) => PrintIsFaithful(l); PrintIsFaithful(r);
  }

  /** Every expression tree, printed with as few brackets as possible, evaluates to its recursive value. */
  lemma EvaluatesPrinted(t: Tree, text: string)
    requires ProperTree(t) && TreeDefined(t) && Strip(text) == Text(Print(t))
    ensures Calc(FRESH, text) == Returned(TreeValue(t), USED)
  {
    PrintIsFaithful(t);
    Evaluates(Print(t), text);
  }

  // ---------- the usual reading of signs ----------

  predicate IsProduct(c: char) { c in "*/%" }

  /** Trees whose text reads back as themselves in the usual way: a sign belongs to the operand next to it. */
  predicate Usual(e: Expr) {
    match e
    case Num(ds) => ds != [] && IsDigits(ds)
    case Paren(a) => Usual(a)
    case Neg(a) => Usual(a) && !a.Bin?
    case Pos(a) => Usual(a) && !a.Bin?
    case Bin(op, l, r) =>
      && IsOperator(op) && Usual(l) && Usual(r)
      && (l.Bin? ==> Level(l.op) >= Level(op)) && (r.Bin? ==> Level(r.op) > Level(op))
  }

  /** The operand has a minus sign of its own. */
  predicate Signed(e: Expr) { e.Neg? || (e.Pos? && Signed(e.e)) }

  /**
   A minus sign inside the product `l` lets `op` behind it alone: where an
   operand has one, the operator in front of it and `op` are multiplications.
   */
  predicate TakesOp(op: char, l: Expr) {
    l.Bin? && IsProduct(l.op) ==> (Signed(l.r) ==> l.op == '*' && op == '*') && TakesOp(op, l.l)
  }

  /** An inner operand of a product has a minus sign only between multiplications, and only these follow. */
  predicate SignsHarmless(e: Expr) {
    match e
    case Num(_) => true
    case Paren(a) => SignsHarmless(a)
    case Neg(a) => SignsHarmless(a)
    case Pos(a) => SignsHarmless(a)
    case Bin(op, l, r) => SignsHarmless(l) && SignsHarmless(r) && (IsProduct(op) ==> TakesOp(op, l))
  }

  /** A leading sign may be read as belonging to the first factor or to the whole product. */
  lemma {:induction false} SignOfProductAgrees(op: char, a: int, b: int)
    requires op in "*/%" && (op in "/%" ==> b != 0)
    ensures Apply(op, -a, b) == -Apply(op, a, b)
  {
    SignOfProduct(a, b);
    if op in "/%" {
      SignOfProduct(b, TruncDiv(a, b));
      assert Abs(-a) == Abs(a);
      assert TruncDiv(-a, b) == -TruncDiv(a, b) by {
        if a == 0 { assert 0 / Abs(b) == 0; }
      }
    }
  }

  /** `l op r` as the evaluator groups it: every sign in `l` that ends at its end takes `op r` in. */
  function MulInto(op: char, l: Expr, r: Expr): Expr {
    match l
    case Neg(x) => Neg(MulInto(op, x, r))
    case Pos(x) => Pos(MulInto(op, x, r))
    case Bin(o, a, b) => if IsProduct(o) && Signed(b) then Bin(o, a, MulInto(op, b, r)) else Bin(op, l, r)
    case _ => Bin(op, l, r)
  }

  /** The tree that the evaluator makes of the text of `e`. */
  function Regrouped(e: Expr): Expr {
    match e
    case Num(_) => e
    case Paren(a) => Paren(Regrouped(a))
    case Neg(a) => Neg(Regrouped(a))
    case Pos(a) => Pos(Regrouped(a))
    case Bin(op, l, r) =>
      if IsProduct(op) then MulInto(op, Regrouped(l), Regrouped(r)) else Bin(op, Regrouped(l), Regrouped(r))
  }

  /** Behind its signs, down to the last operand, `e` is a product or a single operand. */
  predicate IsFactor(e: Expr) {
    match e
    case Num(_) => true
    case Paren(_) => true
    case Neg(x) => IsFactor(x)
    case Pos(x) => IsFactor(x)
    case Bin(o, _, b) => IsProduct(o) && (Signed(b) ==> IsFactor(b))
  }

  lemma {:induction false} UnsignedEnd(e: Expr)
    requires WellFormed(e) && LeftLevel(e) == 3 && !Signed(e)
    ensures RightLevel(e) == 3
  {
    if e.Pos? { UnsignedEnd(e.e); }
  }

  lemma {:induction false} MulIntoText(op: char, l: Expr, r: Expr)
    ensures Text(MulInto(op, l, r)) == Text(l) + [op] + Text(r)
    decreases l
  {
    match l
    case Neg(x) =>
      MulIntoText(op, x, r);
      assert "-" + (Text(x) + [op] + Text(r)) == ("-" + Text(x)) + [op] + Text(r);
    case Pos(x) =>
      MulIntoText(op, x, r);
      assert "+" + (Text(x) + [op] + Text(r)) == ("+" + Text(x)) + [op] + Text(r);
    case Bin(o, a, b) =>
      MulIntoText(op, b, r);
      assert Text(a) + [o] + (Text(b) + [op] + Text(r)) == Text(l) + [op] + Text(r);
    case _ =>
  }

  lemma {:induction false} MulIntoFits(op: char, l: Expr, r: Expr)
    requires IsProduct(op) && WellFormed(l) && LeftLevel(l) > 1 && IsFactor(l)
    requires WellFormed(r) && LeftLevel(r) == 3 && IsFactor(r)
    ensures var m := MulInto(op, l, r);
            && WellFormed(m) && LeftLevel(m) > 1 && IsFactor(m)
            && (Signed(l) ==> Signed(m)) && (Signed(l) && LeftLevel(l) == 3 ==> LeftLevel(m) == 3)
    decreases l
  {
    match l
    case Neg(x) => MulIntoFits(op, x, r);
    case Pos(x) => MulIntoFits(op, x, r);
    case Bin(o, a, b) =>
      LevelsPositive(b);
      if Signed(b) { MulIntoFits(op, b, r); } else { UnsignedEnd(b); }
    case _ =>
  }

  lemma {:induction false} SignedStays(e: Expr)
    requires Usual(e) && !e.Bin?
    ensures Signed(Regrouped(e)) <==> Signed(e)
  {
    if e.Pos? { SignedStays(e.e); }
  }

  /** The evaluator's tree is well formed for it and has the same text, wherever the signs are. */
  lemma {:induction false} RegroupedFits(e: Expr)
    requires Usual(e)
    ensures WellFormed(Regrouped(e)) && Text(Regrouped(e)) == Text(e)
    ensures !e.Bin? ==> LeftLevel(Regrouped(e)) == 3
    ensures !e.Bin? || IsProduct(e.op) ==> LeftLevel(Regrouped(e)) > 1 && IsFactor(Regrouped(e))
    decreases e
  {
    match e
    case Num(_) =>
    case Paren(a) => RegroupedFits(a);
    case Neg(a) => RegroupedFits(a);
    case Pos(a) => RegroupedFits(a);
    case Bin(op, l, r) =>
      RegroupedFits(l);
      RegroupedFits(r);
      LevelsPositive(Regrouped(l));
      if IsProduct(op) {
        MulIntoText(op, Regrouped(l), Regrouped(r));
        MulIntoFits(op, Regrouped(l), Regrouped(r));
      }
  }

  /**
   Every text evaluates to the value of the evaluator's tree, so it is right
   exactly when that is the value of the usual reading.
   */
  lemma {:induction false} EvaluatesRegrouped(e: Expr, text: string)
    requires Usual(e) && Defined(Regrouped(e)) && Strip(text) == Text(e)
    ensures Calc(FRESH, text) == Returned(Value(Regrouped(e)), USED)
    ensures Calc(FRESH, text) == Returned(Value(e), USED) <==> Value(Regrouped(e)) == Value(e)
  {
    hide Calc, Strip, Text, Value, Usual, Defined, WellFormed, Regrouped;
    RegroupedFits(e);
    Evaluates(Regrouped(e), text);
  }

  /** `TakesOp`, for the tree the evaluator makes of `l`. */
  predicate Absorbs(op: char, l: Expr) {
    match l
    case Num(_) => true
    case Paren(_) => true
    case Neg(x) => Absorbs(op, x)
    case Pos(x) => Absorbs(op, x)
    case Bin(o, _, b) => IsProduct(o) && Signed(b) ==> o == '*' && op == '*' && Absorbs(op, b)
  }

  lemma {:induction false} AbsorbsMulInto(op: char, o: char, l: Expr, r: Expr)
    requires IsProduct(o) && Absorbs(op, l) && Absorbs(op, r) && (Signed(r) ==> o == '*' && op == '*')
    ensures Absorbs(op, MulInto(o, l, r))
    decreases l
  {
    match l
    case Neg(x) => AbsorbsMulInto(op, o, x, r);
    case Pos(x) => AbsorbsMulInto(op, o, x, r);
    case Bin(p, a, b) => if IsProduct(p) && Signed(b) { AbsorbsMulInto(op, o, b, r); }
    case _ =>
  }

  lemma {:induction false} TakesThenAbsorbs(op: char, l: Expr)
    requires Usual(l) && TakesOp(op, l)
    ensures Absorbs(op, Regrouped(l))
    decreases l
  {
    match l
    case Num(_) =>
    case Paren(_) =>
    case Neg(x) => TakesThenAbsorbs(op, x);
    case Pos(x) => TakesThenAbsorbs(op, x);
    case Bin(o, a, b) =>
      if IsProduct(o) {
        TakesThenAbsorbs(op, a);
        TakesThenAbsorbs(op, b);
        SignedStays(b);
        AbsorbsMulInto(op, o, Regrouped(a), Regrouped(b));
      }
  }

  lemma TimesRegroups(a: Expr, b: Expr, c: Expr)
    ensures Value(Bin('*', Bin('*', a, b), c)) == Value(a) * Value(Bin('*', b, c))
  {
    var x, y, z := Value(a), Value(b), Value(c);
    assert Value(Bin('*', a, b)) == x * y && Value(Bin('*', b, c)) == y * z;
    assert x * (y * z) == x * y * z;
  }

  lemma {:induction false} MulIntoValue(op: char, l: Expr, r: Expr)
    requires IsProduct(op) && Absorbs(op, l) && Defined(Bin(op, l, r))
    ensures Defined(MulInto(op, l, r)) && Value(MulInto(op, l, r)) == Value(Bin(op, l, r))
    decreases l
  {
    match l
    case Neg(x) =>
      MulIntoValue(op, x, r);
      SignOfProductAgrees(op, Value(x), Value(r));
    case Pos(x) => MulIntoValue(op, x, r);
    case Bin(o, a, b) =>
      if IsProduct(o) && Signed(b) {
        MulIntoValue(op, b, r);
        TimesRegroups(a, b, r);
      }
    case _ =>
  }

  /** It has the usual value, if the minus signs inside products do no harm. */
  lemma {:induction false} RegroupedMeans(e: Expr)
    requires Usual(e) && SignsHarmless(e) && Defined(e)
    ensures Defined(Regrouped(e)) && Value(Regrouped(e)) == Value(e)
    decreases e
  {
    match e
    case Num(_) =>
    case Paren(a) => RegroupedMeans(a);
    case Neg(a) => RegroupedMeans(a);
    case Pos(a) => RegroupedMeans(a);
    case Bin(op, l, r) =>
      RegroupedMeans(l);
      RegroupedMeans(r);
      if IsProduct(op) {
        TakesThenAbsorbs(op, l);
        MulIntoValue(op, Regrouped(l), Regrouped(r));
      }
  }

  /**
   Every text whose usual reading has a minus sign on an inner operand of a
   product only between multiplications evaluates to what that reading means.
   */
  lemma {:induction false} EvaluatesUsual(e: Expr, text: string)
    requires Usual(e) && Defined(e) && SignsHarmless(e) && Strip(text) == Text(e)
    ensures Calc(FRESH, text) == Returned(Value(e), USED)
  {
    hide Calc, Strip, Text, Value, Usual, Defined, SignsHarmless, Regrouped;
    RegroupedMeans(e);
    EvaluatesRegrouped(e, text);
  }

  // ---------- the same condition, read off the text ----------

  /** A minus sign stands behind one of * / %, with at most plus signs between. */
  predicate MinusBehindProduct(text: string) {
    exists i, j :: 0 <= i < j < |text| && MinusAt(text, i, j)
  }

  predicate MinusAt(text: string, i: nat, j: nat)
    requires i < j < |text|
  {
    IsProduct(text[i]) && text[j] == '-' && forall k :: i < k < j ==> text[k] == '+'
  }

  lemma MinusInPart(a: string, b: string, c: string)
    ensures MinusBehindProduct(b) ==> MinusBehindProduct(a + b + c)
  {
    if MinusBehindProduct(b) {
      var i, j :| 0 <= i < j < |b| && MinusAt(b, i, j);
      var t := a + b + c;
      assert forall k :: 0 <= k < |b| ==> t[|a| + k] == b[k];
      assert MinusAt(t, |a| + i, |a| + j) by {
        forall k | |a| + i < k < |a| + j ensures t[k] == '+' {
          assert t[k] == b[k - |a|];
        }
      }
    }
  }

  lemma {:induction false} SignedText(e: Expr) returns (j: nat)
    requires Signed(e)
    ensures j < |Text(e)| && Text(e)[j] == '-' && forall k :: 0 <= k < j ==> Text(e)[k] == '+'
  {
    if e.Neg? {
      j := 0;
    } else {
      var i := SignedText(e.e);
      j := i + 1;
      forall k | 0 <= k < j ensures Text(e)[k] == '+' {
        assert k > 0 ==> Text(e)[k] == Text(e.e)[k - 1];
      }
    }
  }

  lemma SignedFactor(l: Expr, op: char, r: Expr)
    requires IsProduct(op) && Signed(r)
    ensures MinusBehindProduct(Text(l) + [op] + Text(r))
  {
    var j := SignedText(r);
    var t, i := Text(l) + [op] + Text(r), |Text(l)|;
    assert t[i] == op && forall k :: 0 <= k < |Text(r)| ==> t[i + 1 + k] == Text(r)[k];
    assert MinusAt(t, i, i + 1 + j) by {
      forall k | i < k < i + 1 + j ensures t[k] == '+' {
        assert t[k] == Text(r)[k - i - 1];
      }
    }
  }

  /** Without a minus sign behind a product operator none is on an operand behind the first. */
  lemma {:induction false} SignsSeen(e: Expr)
    requires !MinusBehindProduct(Text(e))
    ensures SignsHarmless(e) && forall op :: TakesOp(op, e)
    decreases e
  {
    match e
    case Num(_) =>
    case Paren(a) => MinusInPart("(", Text(a), ")"); SignsSeen(a);
    case Neg(a) => MinusInPart("-", Text(a), ""); assert "-" + Text(a) + "" == Text(e); SignsSeen(a);
    case Pos(a) => MinusInPart("+", Text(a), ""); assert "+" + Text(a) + "" == Text(e); SignsSeen(a);
    case Bin(op, l, r) =>
      MinusInPart("", Text(l), [op] + Text(r));
      assert "" + Text(l) + ([op] + Text(r)) == Text(e);
      MinusInPart(Text(l) + [op], Text(r), "");
      assert Text(l) + [op] + Text(r) + "" == Text(e);
      SignsSeen(l);
      SignsSeen(r);
      if IsProduct(op) && Signed(r) { SignedFactor(l, op, r); }
  }

  /** The tree as it is usually written: a sign binds tightest, and only operators need brackets. */
  function Written(t: Tree): Expr {
    match t
    case Lit(ds) => Num(ds)
    case Minus(a) => Neg(Bracketed(a.Op?, Written(a)))
    case Op(op, l, r) =>
      Bin(op, Bracketed(l.Op? && Level(l.op) < Level(op), Written(l)), Bracketed(r.Op? && Level(r.op) <= Level(op), Written(r)))
  }

  lemma {:induction false} WrittenMeets(t: Tree)
    requires ProperTree(t)
    ensures Usual(Written(t)) && Value(Written(t)) == TreeValue(t)
    ensures TreeDefined(t) <==> Defined(Written(t))
    ensures Written(t).Bin? <==> t.Op?
    ensures t.Op? ==> Written(t).op == t.op
  {
    match t
    case Lit(_) =>
    case Minus(a) => WrittenMeets(a);
    case Op(_, l, r) => WrittenMeets(l); WrittenMeets(r);
  }

  /** Every tree, written as usual, evaluates to its value, if the text has no minus sign behind * / %. */
  lemma {:induction false} EvaluatesWritten(t: Tree, text: string)
    requires ProperTree(t) && TreeDefined(t)
    requires Strip(text) == Text(Written(t)) && !MinusBehindProduct(Strip(text))
    ensures Calc(FRESH, text) == Returned(TreeValue(t), USED)
  {
    hide Calc, Strip, Text, Value, Usual, Defined, SignsHarmless, Written, MinusBehindProduct;
    WrittenMeets(t);
    SignsSeen(Written(t));
    EvaluatesUsual(Written(t), text);
  }

  // ---------- a minus sign inside a product ----------

  predicate Primary(e: Expr) { (e.Num? || e.Paren?) && WellFormed(e) }

  /** a op1 -b op2 c as a reader means it. */
  function AsMeant(op1: char, op2: char, a: Expr, b: Expr, c: Expr): Expr {
    Bin(op2, Bin(op1, a, Neg(b)), c)
  }

  /** And as the evaluator takes it: the sign has the rest of the product behind it. */
  function AsTaken(op1: char, op2: char, a: Expr, b: Expr, c: Expr): Expr {
    Bin(op1, a, Neg(Bin(op2, b, c)))
  }

  lemma SignOfRightFactor(op: char, a: int, b: int)
    requires IsProduct(op) && (op in "/%" ==> b != 0)
    ensures Apply(op, a, -b) == if op == '%' then Apply(op, a, b) else -Apply(op, a, b)
  {
    SignOfProduct(a, b);
    if op in "/%" {
      SignOfProduct(b, TruncDiv(a, b));
      assert Abs(-b) == Abs(b);
      assert TruncDiv(a, -b) == -TruncDiv(a, b) by {
        if a == 0 { assert 0 / Abs(b) == 0; }
      }
    }
  }

  /** No division by zero in x op1 -y op2 z as it is meant. */
  predicate Meaningful(op1: char, op2: char, y: int, z: int) {
    (op1 in "/%" ==> y != 0) && (op2 in "/%" ==> z != 0)
  }

  /** And none as the evaluator takes it. */
  predicate Computable(op1: char, op2: char, y: int, z: int)
    requires IsProduct(op2) && Meaningful(op1, op2, y, z)
  {
    op1 in "/%" ==> Apply(op2, y, z) != 0
  }

  predicate Regroups(op1: char, op2: char, x: int, y: int, z: int)
    requires IsProduct(op1) && IsProduct(op2) && Meaningful(op1, op2, y, z) && Computable(op1, op2, y, z)
  {
    Apply(op1, x, Apply(op2, y, z)) == Apply(op2, Apply(op1, x, y), z)
  }

  /**
   What the evaluator makes of x op1 -y op2 z. Where y op2 z is 0, a quotient
   gives the error code of the last loop as its value, and a remainder traps.
   */
  function TakenOutcome(op1: char, op2: char, x: int, y: int, z: int): Outcome
    requires IsProduct(op1) && IsProduct(op2) && Meaningful(op1, op2, y, z)
  {
    if Computable(op1, op2, y, z) then Returned(Apply(op1, x, -Apply(op2, y, z)), USED)
    else if op1 == '/' then Returned(-2, USED)
    else NoReturn
  }

  /** The outcome is the one meant: the two operators regroup, or the error code happens to be the value `meant`. */
  predicate TakenRightly(op1: char, op2: char, x: int, y: int, z: int, meant: int)
    requires IsProduct(op1) && IsProduct(op2) && Meaningful(op1, op2, y, z)
  {
    if Computable(op1, op2, y, z) then Regroups(op1, op2, x, y, z) else op1 == '/' && meant == -2
  }

  /**
   What becomes of a op1 -b op2 c, whenever its usual reading divides by
   nothing that is zero, and exactly when it is what the text means.
   */
  lemma {:induction false} SignInsideProduct(op1: char, op2: char, a: Expr, b: Expr, c: Expr, text: string)
    requires IsProduct(op1) && IsProduct(op2) && Primary(a) && Primary(b) && Primary(c)
    requires Defined(AsMeant(op1, op2, a, b, c)) && Strip(text) == Text(AsMeant(op1, op2, a, b, c))
    ensures Meaningful(op1, op2, Value(b), Value(c))
    ensures Calc(FRESH, text) == TakenOutcome(op1, op2, Value(a), Value(b), Value(c))
    ensures Calc(FRESH, text) == Returned(Value(AsMeant(op1, op2, a, b, c)), USED)
        <==> TakenRightly(op1, op2, Value(a), Value(b), Value(c), Value(AsMeant(op1, op2, a, b, c)))
  {
    PartsDefined(op1, op2, a, b, c);
    hide Calc, Strip, Text, Value, Defined, Regroups, Computable;
    if Computable(op1, op2, Value(b), Value(c)) {
      SameText(op1, op2, a, b, c);
      BothValues(op1, op2, a, b, c);
      Evaluates(AsTaken(op1, op2, a, b, c), text);
    } else {
      TakenByZero(op1, op2, a, b, c, text);
    }
  }

  lemma PartsDefined(op1: char, op2: char, a: Expr, b: Expr, c: Expr)
    requires IsProduct(op1) && IsProduct(op2) && Defined(AsMeant(op1, op2, a, b, c))
    ensures Defined(a) && Defined(b) && Defined(c) && Meaningful(op1, op2, Value(b), Value(c))
  {
    var left, n := Bin(op1, a, Neg(b)), Neg(b);
    assert Defined(left) && Defined(c) && (op2 in "/%" ==> Value(c) != 0);
    assert Defined(a) && Defined(n) && (op1 in "/%" ==> Value(n) != 0);
    assert Defined(b) && Value(n) == -Value(b);
  }

  lemma {:induction false} BothValues(op1: char, op2: char, a: Expr, b: Expr, c: Expr)
    requires IsProduct(op1) && IsProduct(op2) && Primary(a) && Primary(b) && Primary(c)
    requires Defined(AsMeant(op1, op2, a, b, c)) && Meaningful(op1, op2, Value(b), Value(c))
    requires Computable(op1, op2, Value(b), Value(c))
    ensures WellFormed(AsTaken(op1, op2, a, b, c)) && Defined(AsTaken(op1, op2, a, b, c))
    ensures Value(AsTaken(op1, op2, a, b, c)) == Apply(op1, Value(a), -Apply(op2, Value(b), Value(c)))
    ensures Value(AsTaken(op1, op2, a, b, c)) == Value(AsMeant(op1, op2, a, b, c))
        <==> Regroups(op1, op2, Value(a), Value(b), Value(c))
  {
    hide TruncDiv, TruncRem;
    PartsDefined(op1, op2, a, b, c);
    var right, left := Bin(op2, b, c), Bin(op1, a, Neg(b));
    assert WellFormed(right) && LeftLevel(right) == 2;
    assert Defined(right) && Value(right) == Apply(op2, Value(b), Value(c));
    assert Defined(Neg(right)) && Value(Neg(right)) == -Value(right);
    assert Value(left) == Apply(op1, Value(a), Value(Neg(b)));
    SignsMoved(op1, op2, Value(a), Value(b), Value(c));
  }

  /** Both signs can be taken out of the product. */
  lemma {:induction false} SignsMoved(op1: char, op2: char, x: int, y: int, z: int)
    requires IsProduct(op1) && IsProduct(op2) && Meaningful(op1, op2, y, z) && Computable(op1, op2, y, z)
    ensures Apply(op1, x, -Apply(op2, y, z)) == Apply(op2, Apply(op1, x, -y), z) <==> Regroups(op1, op2, x, y, z)
  {
    SignOfRightFactor(op1, x, Apply(op2, y, z));
    SignOfRightFactor(op1, x, y);
    SignOfProductAgrees(op2, Apply(op1, x, y), z);
    hide Apply;
  }

  /** A sign behind an operator puts a 0 and a minus on the stacks. */
  lemma {:induction false} ReadSign(op: char, a: Expr)
    requires IsProduct(op) && Primary(a) && Defined(a)
    ensures FeedAll(FRESH, Text(a) + [op] + "-") == Result(Ok, Stacks([Value(a), 0], [op, '-'], OPR))
  {
    var s, t := Stacks([Value(a)], [op], OPR), Stacks([Value(a), 0], [op, '-'], OPR);
    assert FRESH.num + [Value(a)] == s.num && FRESH.opr + [op] == s.opr;
    assert Feed(s, '-') == Result(Ok, t);
    assert RightLevel(a) == 3 && LeftLevel(a) == 3;
    hide FeedAll, Feed, Reduce, Text, Value, Defined;
    ReadExpr(FRESH, a, 2);
    ReadOperator(FRESH, Text(a), Value(a), op);
    FeedConcat(FRESH, Text(a) + [op], "-");
    FeedOne(s, '-');
  }

  /** With b op2 c worth 0 the last loop comes to a division by zero, with the number of the sign in front of it. */
  lemma {:induction false} TakenByZero(op1: char, op2: char, a: Expr, b: Expr, c: Expr, text: string)
    requires op1 in "/%" && IsProduct(op2) && Primary(a) && Primary(b) && Primary(c)
    requires Defined(AsMeant(op1, op2, a, b, c)) && Meaningful(op1, op2, Value(b), Value(c))
    requires Apply(op2, Value(b), Value(c)) == 0 && Strip(text) == Text(AsMeant(op1, op2, a, b, c))
    ensures Calc(FRESH, text) == if op1 == '/' then Returned(-2, USED) else NoReturn
  {
    var s, right, front := Stacks([Value(a), 0], [op1, '-'], OPR), Bin(op2, b, c), Text(a) + [op1] + "-";
    PartsDefined(op1, op2, a, b, c);
    assert Value(right) == 0 && Defined(right) && WellFormed(right) && LeftLevel(right) == 2 && RightLevel(right) == 2;
    assert Text(AsMeant(op1, op2, a, b, c)) == front + Text(right) by {
      SameText(op1, op2, a, b, c);
      assert Text(Neg(right)) == "-" + Text(right);
      assert Text(a) + [op1] + ("-" + Text(right)) == front + Text(right);
    }
    hide FeedAll, Reduce, Strip, Text, Value, Defined, Finish, Apply, WellFormed, LeftLevel, RightLevel;
    ReadSign(op1, a);
    ReadExpr(s, right, 2);
    FeedConcat(FRESH, front, Text(right));
    BlanksAreIgnored(FRESH, text);
    FinishIsReduce(FeedAll(s, Text(right)).s, 2);
    NothingToReduce(WithOperand(s, 0), 2);
    assert WithOperand(s, 0) == Stacks([Value(a), 0, 0], [op1, '-'], NUM);
    FinishByZero(op1, Value(a));
  }

  lemma NothingToReduce(s: Stacks, k: nat)
    requires ValidOpr(s.opr) && s.opr != [] && Level(Top(s.opr)) < k
    ensures Reduce(s, k) == Left(s)
  {
  }

  lemma FinishByZero(op: char, x: int)
    requires op in "/%"
    ensures Finish(Stacks([x, 0, 0], [op, '-'], NUM)) == if op == '/' then Returned(-2, USED) else NoReturn
  {
    var s, t := Stacks([x, 0, 0], [op, '-'], NUM), Stacks([x, 0], [op], NUM);
    assert Popped(s.num) == [x, 0] && Popped(Popped(s.num)) == [x] && Popped(s.opr) == [op];
    assert DoStack(s) == Result(Ok, t) by { assert [x] + [0] == [x, 0]; }
    assert Popped(t.num) == [x] && Popped(Popped(t.num)) == [] && Popped(t.opr) == [];
  }

  lemma SameText(op1: char, op2: char, a: Expr, b: Expr, c: Expr)
    ensures Text(AsTaken(op1, op2, a, b, c)) == Text(AsMeant(op1, op2, a, b, c))
  {
    var p, q, r := Text(a), Text(b), Text(c);
    assert Text(Neg(Bin(op2, b, c))) == "-" + (q + [op2] + r) && Text(Bin(op1, a, Neg(b))) == p + [op1] + ("-" + q);
    assert p + [op1] + ("-" + (q + [op2] + r)) == (p + [op1] + ("-" + q)) + [op2] + r;
  }

  /** Behind another operator it matters: 6/-2*3 is evaluated as 6/-(2*3). */
  lemma {:induction false} SignBehindOperator()
    ensures Calc(FRESH, "6/-2*3") == Returned(-1, USED)
    ensures TreeValue(Op('*', Op('/', Lit("6"), Minus(Lit("2"))), Lit("3"))) == -9
  {
    hide Calc, FeedAll, Finish, Strip;
    var product := Bin('*', Num("2"), Num("3"));
    var e := Bin('/', Num("6"), Neg(product));
    assert DigitsFrom(0, "6") == 6 && DigitsFrom(0, "2") == 2 && DigitsFrom(0, "3") == 3;
    assert Text(product) == "2*3" && Text(Neg(product)) == "-2*3" && Text(e) == "6/-2*3";
    assert Value(product) == 6 && Value(Neg(product)) == -6;
    assert TruncDiv(6, -6) == -1 && TruncDiv(6, -2) == -3;
    StripNothing("6/-2*3");
    Evaluates(e, "6/-2*3");
  }

  /** Multiplications may be regrouped; for every other pair of operators some numbers come out wrong. */
  lemma {:induction false} OnlyTimesRegroups(op1: char, op2: char) returns (x: nat, y: nat, z: nat)
    requires IsProduct(op1) && IsProduct(op2)
    ensures op1 == '*' && op2 == '*' ==> forall u, v, w :: Regroups(op1, op2, u, v, w)
    ensures x <= 9 && y <= 9 && z <= 9 && Meaningful(op1, op2, y, z) && Computable(op1, op2, y, z)
    ensures !(op1 == '*' && op2 == '*') ==> !Regroups(op1, op2, x, y, z)
  {
    x, y, z := 1, 1, 1;
    if op1 == '*' && op2 == '*' {
      forall u: int, v: int, w: int ensures Regroups(op1, op2, u, v, w) {
        assert u * (v * w) == u * v * w;
      }
    } else if op1 == '*' {
      x, y, z := 3, 5, 2;
    } else if op1 == '/' {
      x, y, z := if op2 == '*' then 6 else 8, if op2 == '*' then 2 else 4, if op2 == '/' then 2 else 3;
    } else {
      x, y, z := if op2 == '*' then 5 else 7, if op2 == '*' then 3 else if op2 == '/' then 6 else 5, if op2 == '%' then 3 else 2;
    }
  }

  /** The text p op1 -q op2 r. */
  function Chain(op1: char, op2: char, p: string, q: string, r: string): string {
    p + [op1] + ("-" + q) + [op2] + r
  }

  predicate IsNumber(ds: string) { ds != [] && IsDigits(ds) }

  /** The evaluator gets p op1 -q op2 r right for these numbers. */
  predicate ChainRight(op1: char, op2: char, p: string, q: string, r: string) {
    Calc(FRESH, Chain(op1, op2, p, q, r)) == Returned(Value(AsMeant(op1, op2, Num(p), Num(q), Num(r))), USED)
  }

  /** The usual reading of p op1 -q op2 r divides by nothing that is zero. */
  predicate ChainMeaningful(op1: char, op2: char, p: string, q: string, r: string) {
    IsNumber(p) && IsNumber(q) && IsNumber(r) && Defined(AsMeant(op1, op2, Num(p), Num(q), Num(r)))
  }

  /** For all numbers the evaluator gets p op1 -q op2 r right exactly when both operators are multiplications. */
  lemma SignInsideProductIff(op1: char, op2: char)
    requires IsProduct(op1) && IsProduct(op2)
    ensures (forall p, q, r :: ChainMeaningful(op1, op2, p, q, r) ==> ChainRight(op1, op2, p, q, r))
            <==> op1 == '*' && op2 == '*'
  {
    hide Calc, Apply, Regroups, Chain, ChainRight, DigitsFrom;
    var x, y, z := OnlyTimesRegroups(op1, op2);
    forall p, q, r | ChainMeaningful(op1, op2, p, q, r)
      ensures op1 == '*' && op2 == '*' ==> ChainRight(op1, op2, p, q, r)
    {
      ChainIs(op1, op2, p, q, r);
    }
    OneDigit(x);
    OneDigit(y);
    OneDigit(z);
    ChainIs(op1, op2, Digit(x), Digit(y), Digit(z));
  }

  lemma ChainText(op1: char, op2: char, p: string, q: string, r: string)
    requires IsProduct(op1) && IsProduct(op2) && IsNumber(p) && IsNumber(q) && IsNumber(r)
    ensures var text := Chain(op1, op2, p, q, r); Strip(text) == text == Text(AsMeant(op1, op2, Num(p), Num(q), Num(r)))
  {
    var text := Chain(op1, op2, p, q, r);
    forall i | 0 <= i < |text| ensures !IsBlank(text[i]) {
      assert text[i] in p || text[i] in q || text[i] in r || text[i] in [op1, op2, '-'];
    }
    StripNothing(text);
    assert Text(Neg(Num(q))) == "-" + q;
    assert Text(Bin(op1, Num(p), Neg(Num(q)))) == p + [op1] + ("-" + q);
  }

  lemma {:induction false} ChainIs(op1: char, op2: char, p: string, q: string, r: string)
    requires IsProduct(op1) && IsProduct(op2) && IsNumber(p) && IsNumber(q) && IsNumber(r)
    ensures var x, y, z := DigitsFrom(0, p), DigitsFrom(0, q), DigitsFrom(0, r);
            && (ChainMeaningful(op1, op2, p, q, r) <==> Meaningful(op1, op2, y, z))
            && (Meaningful(op1, op2, y, z) && Computable(op1, op2, y, z) ==>
                  (ChainRight(op1, op2, p, q, r) <==> Regroups(op1, op2, x, y, z)))
  {
    hide Calc, Strip, Regroups, Apply;
    ChainText(op1, op2, p, q, r);
    var n := Neg(Num(q));
    var left := Bin(op1, Num(p), n);
    assert Value(n) == -Value(Num(q)) && Defined(n);
    assert Defined(left) <==> (op1 in "/%" ==> Value(n) != 0);
    assert Defined(Bin(op2, left, Num(r))) <==> Defined(left) && (op2 in "/%" ==> Value(Num(r)) != 0);
    if ChainMeaningful(op1, op2, p, q, r) { SignInsideProduct(op1, op2, Num(p), Num(q), Num(r), Chain(op1, op2, p, q, r)); }
  }

  function Digit(n: nat): string
    requires n <= 9
  {
    [('0' as int + n) as char]
  }

  lemma OneDigit(n: nat)
    requires n <= 9
    ensures IsNumber(Digit(n)) && DigitsFrom(0, Digit(n)) == n
  {
    assert Digit(n)[1..] == [];
  }

  /**
   Where the evaluator comes to a division by zero that the text does not
   have: -2 for a value of -1, -2 for a value of -2, and a trap for a value of 0.
   */
  lemma {:induction false} DividedByZero()
    ensures Calc(FRESH, "6/-2/3") == Returned(-2, USED) && Value(AsMeant('/', '/', Num("6"), Num("2"), Num("3"))) == -1
    ensures Calc(FRESH, "12/-2/3") == Returned(-2, USED) && Value(AsMeant('/', '/', Num("12"), Num("2"), Num("3"))) == -2
    ensures Calc(FRESH, "6%-2/3") == NoReturn && Value(AsMeant('%', '/', Num("6"), Num("2"), Num("3"))) == 0
  {
    assert DigitsFrom(0, "12") == DigitsFrom(1, "2") == 12 && DigitsFrom(0, "6") == 6;
    assert DigitsFrom(0, "2") == 2 && DigitsFrom(0, "3") == 3;
    assert Chain('/', '/', "6", "2", "3") == "6/-2/3" && Chain('/', '/', "12", "2", "3") == "12/-2/3";
    assert Chain('%', '/', "6", "2", "3") == "6%-2/3";
    hide Calc, Strip, Text, DigitsFrom, Chain;
    ThreeNumbers('/', '/', "6", "2", "3", 6, -1);
    ThreeNumbers('/', '/', "12", "2", "3", 12, -2);
    ThreeNumbers('%', '/', "6", "2", "3", 6, 0);
  }

  lemma {:induction false} ThreeNumbers(op1: char, op2: char, p: string, q: string, r: string, x: int, value: int)
    requires op1 in "/%" && op2 == '/' && IsNumber(p) && IsNumber(q) && IsNumber(r)
    requires DigitsFrom(0, p) == x && DigitsFrom(0, q) == 2 && DigitsFrom(0, r) == 3
    requires value == TruncDiv(Apply(op1, x, -2), 3)
    ensures Value(AsMeant(op1, op2, Num(p), Num(q), Num(r))) == value
    ensures Calc(FRESH, Chain(op1, op2, p, q, r)) == if op1 == '/' then Returned(-2, USED) else NoReturn
  {
    hide Calc, Strip, Text, Chain;
    var n := Neg(Num(q));
    var left := Bin(op1, Num(p), n);
    assert Value(n) == -2 && Defined(n) && Value(left) == Apply(op1, x, -2) && Defined(left);
    ChainText(op1, op2, p, q, r);
    SignInsideProduct(op1, op2, Num(p), Num(q), Num(r), Chain(op1, op2, p, q, r));
    assert TruncDiv(2, 3) == 0;
  }
}

/**
 What calc.c computes, said about texts and numbers alone: operators, signs,
 brackets, the order of operations, and what comes of texts that are in error.
 */
module CalcLaws {
  import opened Arith
  import opened CalcSteps
  import opened CalcMeaning
  import CalcShapes

  lemma {:induction false} StripConcat(a: string, b: string)
    ensures Strip(a + b) == Strip(a) + Strip(b)
    decreases |a|
  {
    if a == [] {
      assert a + b == b;
    } else {
      assert (a + b)[0] == a[0] && (a + b)[1..] == a[1..] + b;
      StripConcat(a[1..], b);
    }
  }

  lemma StripOne(c: char)
    ensures Strip([c]) == if IsBlank(c) then [] else [c]
  {
    assert [c][1..] == [];
  }

  lemma {:induction false} StripAround(a: string, c: char, b: string)
    ensures Strip(a + [c] + b) == Strip(a) + (if IsBlank(c) then [] else [c]) + Strip(b)
  {
    hide Strip;
    StripConcat(a + [c], b);
    StripConcat(a, [c]);
    StripOne(c);
  }

  lemma StripBehind(c: char, b: string)
    requires !IsBlank(c)
    ensures Strip([c] + b) == [c] + Strip(b)
  {
    assert ([c] + b)[1..] == b;
  }

  // ---------- operators ----------

  /** `r` is smaller than `y` and has the sign of `x`, or is 0. */
  predicate IsRemainder(x: int, y: int, r: int) {
    (if y < 0 then y < r < -y else -y < r < y) && (r == 0 || (r < 0 <==> x < 0))
  }

  predicate ResultOf(op: char, x: int, y: int, z: int) {
    match op
    case '+' => z == x + y
    case '-' => z == x - y
    case '*' => z == x * y
    case '/' => y != 0 && IsRemainder(x, y, x - y * z)
    case '%' => y != 0 && IsRemainder(x, y, z) && (x - z) % Abs(y) == 0
    case _ => false
  }

  lemma MultipleMod(d: int, y: int, q: int)
    requires y != 0 && d == y * q
    ensures d % Abs(y) == 0
  {
    var m: int, k: int := Abs(y), if y < 0 then -q else q;
    SignOfProduct(y, q);
    assert d == m * k;
    ModIs(d, k, 0, m);
  }

  lemma {:induction false} ApplyMeets(op: char, x: int, y: int)
    requires IsOperator(op) && (op in "/%" ==> y != 0)
    ensures ResultOf(op, x, y, Apply(op, x, y))
  {
    OperatorsMean(x, y);
    if op == '%' {
      var q, r := Apply('/', x, y), Apply('%', x, y);
      hide Apply;
      MultipleMod(x - r, y, q);
    } else if op == '/' {
      hide Apply;
      assert x - y * Apply('/', x, y) == Apply('%', x, y);
    }
  }

  /** Two texts with an operator between them give the sum, difference, product, quotient or remainder of what they give. */
  lemma {:induction false} OperatorLaw(l: Expr, op: char, r: Expr, tl: string, tr: string)
    requires WellFormed(Bin(op, l, r)) && Defined(Bin(op, l, r)) && Strip(tl) == Text(l) && Strip(tr) == Text(r)
    ensures var x, y, z := Calc(FRESH, tl), Calc(FRESH, tr), Calc(FRESH, tl + [op] + tr);
            x.Returned? && y.Returned? && z.Returned? && ResultOf(op, x.value, y.value, z.value)
  {
    assert Text(Bin(op, l, r)) == Text(l) + [op] + Text(r);
    assert Value(Bin(op, l, r)) == Apply(op, Value(l), Value(r));
    ApplyMeets(op, Value(l), Value(r));
    hide Calc, Strip, Text, Value, Apply, ResultOf;
    StripAround(tl, op, tr);
    Evaluates(l, tl);
    Evaluates(r, tr);
    Evaluates(Bin(op, l, r), tl + [op] + tr);
  }

  lemma {:induction false} BracketLaw(e: Expr, text: string)
    requires WellFormed(e) && Defined(e) && Strip(text) == Text(e)
    ensures Calc(FRESH, "(" + text + ")") == Returned(Value(e), USED)
  {
    assert Text(Paren(e)) == "(" + Text(e) + ")" && Value(Paren(e)) == Value(e);
    hide Calc, Strip, Text, Value, FeedAll;
    StripAround("(" + text, ')', "");
    assert "(" + text + ")" + "" == "(" + text + ")" && Strip("") == "" by { StripEmpty(); }
    StripBehind('(', text);
    Evaluates(Paren(e), "(" + text + ")");
  }

  lemma StripEmpty()
    ensures Strip("") == ""
  {
  }

  lemma {:induction false} SignLaw(e: Expr, text: string)
    requires WellFormed(e) && Defined(e) && Strip(text) == Text(e)
    ensures Calc(FRESH, "+" + text) == Returned(Value(e), USED)
    ensures LeftLevel(e) > 1 ==> Calc(FRESH, "-" + text) == Returned(-Value(e), USED)
  {
    assert Text(Pos(e)) == "+" + Text(e) && Text(Neg(e)) == "-" + Text(e);
    assert Value(Pos(e)) == Value(e) && Value(Neg(e)) == -Value(e);
    hide Calc, Strip, Text, Value, FeedAll;
    StripBehind('+', text);
    StripBehind('-', text);
    Evaluates(Pos(e), "+" + text);
    if LeftLevel(e) > 1 { Evaluates(Neg(e), "-" + text); }
  }

  /** Brackets and a plus sign change nothing, a minus sign in front of a product or an operand negates. */
  lemma {:induction false} BracketAndSignLaw(e: Expr, text: string)
    requires WellFormed(e) && Defined(e) && Strip(text) == Text(e)
    ensures Calc(FRESH, text).Returned?
    ensures Calc(FRESH, "(" + text + ")") == Calc(FRESH, text) == Calc(FRESH, "+" + text)
    ensures LeftLevel(e) > 1 ==> Calc(FRESH, "-" + text) == Returned(-Calc(FRESH, text).value, USED)
  {
    hide *;
    Evaluates(e, text);
    BracketLaw(e, text);
    SignLaw(e, text);
  }

  // ---------- sums of products ----------

  function Decimal(ds: string): int {
    if ds == [] then 0 else 10 * Decimal(ds[..|ds| - 1]) + (ds[|ds| - 1] as int - '0' as int)
  }

  lemma {:induction false} DecimalIs(ds: string)
    ensures Decimal(ds) == DigitsFrom(0, ds)
    decreases |ds|
  {
    if ds != [] {
      var k := |ds| - 1;
      DecimalIs(ds[..k]);
      CalcShapes.DigitsAppend(0, ds[..k], ds[k]);
      assert ds == ds[..k] + [ds[k]];
    }
  }

  predicate IsNumber(ds: string) { ds != [] && IsDigits(ds) }

  datatype Factor = Factor(op: char, digits: string)

  /** A number and what it is multiplied with or divided by, with a sign in front. */
  datatype Product = Product(minus: bool, first: string, rest: seq<Factor>)

  function ProductText(first: string, rest: seq<Factor>): string {
    if rest == [] then first
    else ProductText(first, rest[..|rest| - 1]) + [rest[|rest| - 1].op] + rest[|rest| - 1].digits
  }

  predicate ProductOk(first: string, rest: seq<Factor>) {
    && IsNumber(first)
    && forall i :: 0 <= i < |rest| ==>
         IsNumber(rest[i].digits) && rest[i].op in "*/%" && (rest[i].op in "/%" ==> Decimal(rest[i].digits) != 0)
  }

  /** From left to right. */
  function ProductValue(first: string, rest: seq<Factor>): int {
    if rest == [] then Decimal(first)
    else
      var x, f := ProductValue(first, rest[..|rest| - 1]), rest[|rest| - 1];
      var y := Decimal(f.digits);
      if f.op == '*' then x * y else if y == 0 then 0 else if f.op == '/' then TruncDiv(x, y) else TruncRem(x, y)
  }

  /** The signs of the products stand between them; in front of the first only a minus sign is written. */
  function SumText(ts: seq<Product>): string {
    if ts == [] then []
    else
      var t := ts[|ts| - 1];
      SumText(ts[..|ts| - 1]) + (if t.minus then "-" else if |ts| == 1 then "" else "+") + ProductText(t.first, t.rest)
  }

  function SumValue(ts: seq<Product>): int {
    if ts == [] then 0
    else
      var t := ts[|ts| - 1];
      SumValue(ts[..|ts| - 1]) + (if t.minus then -ProductValue(t.first, t.rest) else ProductValue(t.first, t.rest))
  }

  lemma {:induction false} ProductExpr(first: string, rest: seq<Factor>) returns (e: Expr)
    requires ProductOk(first, rest)
    ensures WellFormed(e) && Defined(e) && Text(e) == ProductText(first, rest) && Value(e) == ProductValue(first, rest)
    ensures LeftLevel(e) >= 2 && RightLevel(e) >= 2
    decreases |rest|
  {
    if rest == [] {
      e := Num(first);
      DecimalIs(first);
    } else {
      var f := rest[|rest| - 1];
      var d := ProductExpr(first, rest[..|rest| - 1]);
      DecimalIs(f.digits);
      e := Bin(f.op, d, Num(f.digits));
    }
  }

  lemma FirstText(t: Product)
    ensures SumText([t]) == (if t.minus then "-" else "") + ProductText(t.first, t.rest)
  {
    var sign := if t.minus then "-" else "";
    assert [t][..0] == [] && SumText([]) == "";
    assert "" + sign == sign;
  }

  lemma FirstValue(t: Product)
    ensures SumValue([t]) == (if t.minus then -1 else 1) * ProductValue(t.first, t.rest)
  {
    assert [t][..0] == [] && SumValue([]) == 0;
  }

  lemma {:induction false} FirstTerm(t: Product) returns (e: Expr)
    requires ProductOk(t.first, t.rest)
    ensures WellFormed(e) && Defined(e) && Text(e) == SumText([t]) && Value(e) == SumValue([t])
  {
    FirstText(t);
    FirstValue(t);
    hide SumText, SumValue, ProductText, ProductValue, ProductOk;
    var p := ProductExpr(t.first, t.rest);
    e := if t.minus then Neg(p) else p;
    assert "" + Text(p) == Text(p);
  }

  lemma NextTerm(ts: seq<Product>)
    requires |ts| > 1
    ensures var front, t := ts[..|ts| - 1], ts[|ts| - 1];
            && SumText(ts) == SumText(front) + [if t.minus then '-' else '+'] + ProductText(t.first, t.rest)
            && SumValue(ts) == SumValue(front) + (if t.minus then -1 else 1) * ProductValue(t.first, t.rest)
  {
  }

  lemma {:induction false} SumExpr(ts: seq<Product>) returns (e: Expr)
    requires ts != [] && forall i :: 0 <= i < |ts| ==> ProductOk(ts[i].first, ts[i].rest)
    ensures WellFormed(e) && Defined(e) && Text(e) == SumText(ts) && Value(e) == SumValue(ts)
    decreases |ts|
  {
    hide SumText, SumValue, ProductText, ProductValue, ProductOk;
    var t := ts[|ts| - 1];
    if |ts| == 1 {
      e := FirstTerm(t);
      assert ts == [t];
    } else {
      NextTerm(ts);
      var p := ProductExpr(t.first, t.rest);
      var d := SumExpr(ts[..|ts| - 1]);
      LevelsPositive(d);
      e := Bin(if t.minus then '-' else '+', d, p);
    }
  }

  /** Products are worked out before sums, both from left to right, for any number of terms and factors. */
  lemma {:induction false} SumsOfProducts(ts: seq<Product>, text: string)
    requires ts != [] && forall i :: 0 <= i < |ts| ==> ProductOk(ts[i].first, ts[i].rest)
    requires Strip(text) == SumText(ts)
    ensures Calc(FRESH, text) == Returned(SumValue(ts), USED)
  {
    hide Calc, Strip, SumText, SumValue, Text, Value;
    var e := SumExpr(ts);
    Evaluates(e, text);
  }

  // ---------- blanks, and texts in error ----------

  /** A space, a newline or a tab anywhere makes no difference. */
  lemma {:induction false} BlankAnywhere(s: Stacks, a: string, c: char, b: string)
    requires ValidOpr(s.opr) && c in " \n\t"
    ensures Calc(s, a + [c] + b) == Calc(s, a + b)
  {
    BlanksAreIgnored(s, a + [c] + b);
    BlanksAreIgnored(s, a + b);
    assert IsBlank(c);
    hide FeedAll, Strip;
    StripAround(a, c, b);
    StripConcat(a, b);
    assert Strip(a) + [] + Strip(b) == Strip(a) + Strip(b);
  }

  lemma NothingGivesZero(text: string)
    requires Strip(text) == []
    ensures Calc(FRESH, text) == Returned(0, FRESH)
  {
    BlanksAreIgnored(FRESH, text);
  }

  /** Reading stops with -1 at any character that is no digit, operator, bracket or blank. */
  lemma {:induction false} UnknownCharacter(s: Stacks, a: string, c: char, rest: string)
    requires ValidOpr(s.opr) && FeedAll(s, a).code == Ok && c !in "0123456789+-*/%() \n\t"
    ensures Calc(s, a + [c] + rest) == Returned(-1, FeedAll(s, a).s)
  {
    assert !('0' <= c <= '9') by {
      assert c !in ['0', '1', '2', '3', '4', '5', '6', '7', '8', '9'] by {
        assert "0123456789+-*/%() \n\t"[..10] == ['0', '1', '2', '3', '4', '5', '6', '7', '8', '9'];
      }
    }
    assert !IsOperator(c) && !IsBlank(c) && c !in "()";
    var t := FeedAll(s, a).s;
    FeedAllValid(s, a);
    assert Feed(t, c) == Result(Fail(-1), t);
    hide FeedAll, Feed;
    FeedConcat(s, a, [c]);
    FeedOne(t, c);
    FeedStops(s, a + [c], rest);
  }

  lemma NothingPending(s: Stacks, k: nat)
    requires ValidOpr(s.opr) && k > 0 && (s.opr == [] || Level(Top(s.opr)) < k)
    ensures Reduce(s, k) == Left(s)
  {
  }

  /** Once an expression is read, what is left below level `k` is its value, and the end goes on from there. */
  lemma {:induction false} ReadWhole(s: Stacks, e: Expr, k: nat)
    requires ValidOpr(s.opr) && s.flag == OPR && WellFormed(e) && Defined(e)
    requires 0 < k <= RightLevel(e) && (s.opr == [] || Level(Top(s.opr)) < Min(k, LeftLevel(e)))
    ensures var u := FeedAll(s, Text(e));
            && u.code == Ok && ValidOpr(u.s.opr)
            && Reduce(u.s, k) == Left(WithOperand(s, Value(e))) && Finish(u.s) == Finish(WithOperand(s, Value(e)))
  {
    hide FeedAll, Finish, Reduce, Text, Value, Defined, WellFormed;
    ReadExpr(s, e, k);
    NothingPending(WithOperand(s, Value(e)), k);
    FinishIsReduce(FeedAll(s, Text(e)).s, k);
  }

  /** Nothing binds looser than level 1. */
  lemma {:induction false} ReadAll(s: Stacks, e: Expr)
    requires (s == FRESH || s == Stacks([], ['('], OPR)) && WellFormed(e) && Defined(e)
    ensures var u := FeedAll(s, Text(e));
            && u.code == Ok && ValidOpr(u.s.opr)
            && Reduce(u.s, 1) == Left(Stacks([Value(e)], s.opr, NUM)) && Finish(u.s) == Finish(Stacks([Value(e)], s.opr, NUM))
  {
    LevelsPositive(e);
    assert WithOperand(s, Value(e)) == Stacks([Value(e)], s.opr, NUM);
    hide FeedAll, Finish, Reduce, Text, Value, Defined, WellFormed, LeftLevel, RightLevel;
    ReadWhole(s, e, 1);
  }

  lemma OpenBracket(x: int)
    ensures Feed(FRESH, '(') == Result(Ok, Stacks([], ['('], OPR)) && ValidOpr(FRESH.opr) && ValidOpr(['('])
    ensures Finish(Stacks([x], ['('], NUM)) == Returned(-3, Stacks([x], ['('], NUM))
  {
    assert [] + ['('] == ['('];
  }

  /** A bracket that is not closed gives -3. */
  lemma {:induction false} UnclosedBracket(e: Expr, text: string)
    requires WellFormed(e) && Defined(e) && Strip(text) == Text(e)
    ensures Calc(FRESH, "(" + text) == Returned(-3, Stacks([Value(e)], ['('], NUM))
  {
    hide *;
    OpenBracket(Value(e));
    BracketsAreNoBlanks();
    StripBehind('(', text);
    FeedOne(FRESH, '(');
    FeedConcat(FRESH, "(", Text(e));
    ReadAll(Stacks([], ['('], OPR), e);
    CalcOfStripped("(" + text, FeedAll(Stacks([], ['('], OPR), Text(e)).s);
  }

  lemma {:induction false} CloseFails(s: Stacks)
    requires ValidOpr(s.opr) && Reduce(s, 1).Left? && Reduce(s, 1).s.opr == []
    ensures CloseBracket(s) == Result(Fail(-1), Reduce(s, 1).s)
    decreases |s.opr|
  {
    if s.opr != [] { CloseFails(DoStack(s).s); }
  }

  lemma {:induction false} CloseUnopened(u: Stacks, x: int)
    requires ValidOpr(u.opr) && Reduce(u, 1) == Left(Stacks([x], [], NUM))
    ensures Feed(u, ')') == Result(Fail(-1), Stacks([x], [], NUM))
  {
    CloseFails(u);
    assert Feed(u, ')') == CloseBracket(u);
  }

  /** A closing bracket without an opening one gives -1, whatever follows. */
  lemma {:induction false} UnopenedBracket(e: Expr, text: string, rest: string)
    requires WellFormed(e) && Defined(e) && Strip(text) == Text(e)
    ensures Calc(FRESH, text + ")" + rest) == Returned(-1, Stacks([Value(e)], [], NUM))
  {
    hide *;
    StripAround(text, ')', rest);
    BracketsAreNoBlanks();
    FreshOpr();
    ReadAll(FRESH, e);
    var u := FeedAll(FRESH, Text(e)).s;
    CloseUnopened(u, Value(e));
    CalcFails(text + ")" + rest, Text(e), ')', Strip(rest), u);
  }

  /** A text read to its end is worked off from there. */
  lemma CalcOfStripped(text: string, t: Stacks)
    requires FeedAll(FRESH, Strip(text)) == Result(Ok, t)
    ensures ValidOpr(t.opr) && Calc(FRESH, text) == Finish(t)
  {
    FeedAllValid(FRESH, Strip(text));
    BlanksAreIgnored(FRESH, text);
  }

  lemma OperatorIsNoBlank(c: char)
    ensures IsOperator(c) ==> !IsBlank(c)
  {
  }

  /** The left operand of an operator is a number by the time that is read. */
  lemma {:induction false} ReadLeft(s: Stacks, e: Expr, op: char)
    requires s == FRESH || s == Stacks([], ['('], OPR)
    requires WellFormed(e) && Defined(e) && IsOperator(op) && Level(op) <= RightLevel(e)
    ensures FeedAll(s, Text(e) + [op]) == Result(Ok, Stacks([Value(e)], s.opr + [op], OPR))
  {
    assert s.num + [Value(e)] == [Value(e)];
    LevelsPositive(e);
    hide FeedAll, Text, Value, Reduce, Defined, WellFormed, LeftLevel, RightLevel;
    ReadExpr(s, e, Level(op));
    ReadOperator(s, Text(e), Value(e), op);
  }

  /** A text that ends with an operator gives -2, and leaves that operator behind. */
  lemma {:induction false} MissingOperand(e: Expr, op: char, text: string)
    requires WellFormed(e) && Defined(e) && Strip(text) == Text(e) && IsOperator(op) && Level(op) <= RightLevel(e)
    ensures Calc(FRESH, text + [op]) == Returned(-2, Stacks([], [op], OPR))
  {
    hide *;
    StripConcat(text, [op]);
    OperatorIsNoBlank(op);
    StripOne(op);
    ReadLeft(FRESH, e, op);
    assert FRESH.opr + [op] == [op] by { FreshOpr(); }
    CalcOfStripped(text + [op], Stacks([Value(e)], [op], OPR));
    FinishOnOne(Value(e), op);
  }

  lemma FinishOnOne(x: int, op: char)
    requires IsOperator(op)
    ensures Finish(Stacks([x], [op], OPR)) == Returned(-2, Stacks([], [op], OPR))
  {
  }

  lemma FinishOnZero(x: int, op: char)
    requires op in "/%"
    ensures Finish(Stacks([x, 0], [op], NUM)) == if op == '/' then Returned(-2, USED) else NoReturn
  {
    var s := Stacks([x, 0], [op], NUM);
    assert Popped(s.num) == [x] && Popped(Popped(s.num)) == [] && Popped(s.opr) == [];
  }

  /** A quotient by an operand worth 0 gives -2; a remainder does not return. */
  lemma {:induction false} DivisionByZero(l: Expr, op: char, r: Expr, tl: string, tr: string)
    requires op in "/%" && WellFormed(Bin(op, l, r)) && Defined(l) && Defined(r) && Value(r) == 0 && RightLevel(r) == 3
    requires Strip(tl) == Text(l) && Strip(tr) == Text(r)
    ensures Calc(FRESH, tl + [op] + tr) == if op == '/' then Returned(-2, USED) else NoReturn
  {
    DividedReading(l, op, r, Value(l));
    var s, t := Stacks([Value(l)], [op], OPR), Stacks([Value(l), 0], [op], NUM);
    hide *;
    StripAround(tl, op, tr);
    OperatorIsNoBlank(op);
    FreshOpr();
    ReadLeft(FRESH, l, op);
    assert FRESH.opr + [op] == [op];
    ReadWhole(s, r, 3);
    FeedConcat(FRESH, Text(l) + [op], Text(r));
    CalcOfStripped(tl + [op] + tr, FeedAll(s, Text(r)).s);
    FinishOnZero(Value(l), op);
  }

  lemma DividedReading(l: Expr, op: char, r: Expr, x: int)
    requires op in "/%" && WellFormed(Bin(op, l, r))
    ensures WellFormed(l) && WellFormed(r) && IsOperator(op) && Level(op) == 2 <= RightLevel(l) && LeftLevel(r) == 3
    ensures ValidOpr([op]) && ValidOpr(FRESH.opr) && Top([op]) == op && Min(3, 3) == 3
    ensures WithOperand(Stacks([x], [op], OPR), 0) == Stacks([x, 0], [op], NUM)
  {
    LevelsPositive(r);
    assert [x] + [0] == [x, 0];
  }

  lemma FreshOpr()
    ensures FRESH.opr == [] && ValidOpr(FRESH.opr)
  {
  }

  /** What is read up to a failing character decides. */
  lemma CalcFails(text: string, a: string, c: char, rest: string, t: Stacks)
    requires Strip(text) == a + [c] + rest && FeedAll(FRESH, a) == Result(Ok, t) && ValidOpr(t.opr)
    requires Feed(t, c).code != Ok
    ensures Calc(FRESH, text) == if Feed(t, c).code.Fail? then Returned(Feed(t, c).code.code, Feed(t, c).s) else NoReturn
  {
    BlanksAreIgnored(FRESH, text);
    hide FeedAll, Feed;
    FeedConcat(FRESH, a, [c]);
    FeedOne(t, c);
    FeedStops(FRESH, a + [c], rest);
  }

  /** An operand and an operator behind an opening bracket. */
  lemma {:induction false} ReadLeftInBracket(e: Expr, op: char)
    requires WellFormed(e) && Defined(e) && IsOperator(op) && Level(op) <= RightLevel(e)
    ensures FeedAll(FRESH, "(" + Text(e) + [op]) == Result(Ok, Stacks([Value(e)], ['(', op], OPR))
  {
    var s := Stacks([], ['('], OPR);
    assert Feed(FRESH, '(') == Result(Ok, s) && s.opr + [op] == ['(', op] && ValidOpr(FRESH.opr) && ValidOpr(s.opr);
    assert "(" + Text(e) + [op] == "(" + (Text(e) + [op]);
    hide *;
    FeedOne(FRESH, '(');
    FeedConcat(FRESH, "(", Text(e) + [op]);
    ReadLeft(s, e, op);
  }

  /** A closing bracket where an operand is missing makes the program hang. */
  lemma {:induction false} BracketForOperand(e: Expr, op: char, text: string, rest: string)
    requires WellFormed(e) && Defined(e) && Strip(text) == Text(e) && IsOperator(op) && Level(op) <= RightLevel(e)
    ensures Calc(FRESH, "(" + text + [op] + ")" + rest) == NoReturn
  {
    var t := Stacks([Value(e)], ['(', op], OPR);
    assert Feed(t, ')').code == Hang;
    hide *;
    StripBracketed(text, op, rest);
    BracketStacks(op);
    ReadLeftInBracket(e, op);
    CalcFails("(" + text + [op] + ")" + rest, "(" + Text(e) + [op], ')', Strip(rest), t);
  }

  lemma BracketsAreNoBlanks()
    ensures !IsBlank('(') && !IsBlank(')')
  {
  }

  lemma {:induction false} StripBracketed(text: string, op: char, rest: string)
    requires IsOperator(op)
    ensures Strip("(" + text + [op] + ")" + rest) == "(" + Strip(text) + [op] + [')'] + Strip(rest)
  {
    hide *;
    StripAround("(" + text + [op], ')', rest);
    StripConcat("(" + text, [op]);
    BracketsAreNoBlanks();
    StripBehind('(', text);
    OperatorIsNoBlank(op);
    StripOne(op);
  }

  lemma BracketStacks(op: char)
    requires IsOperator(op)
    ensures ValidOpr(FRESH.opr) && ValidOpr(['(']) && ValidOpr(['(', op])
  {
  }

  /** Of two operators of the higher level in a row the second gives -1. */
  lemma {:induction false} DoubleOperator(e: Expr, op: char, c: char, text: string, rest: string)
    requires WellFormed(e) && Defined(e) && Strip(text) == Text(e) && op in "*/%" && c in "*/%" && RightLevel(e) >= 2
    ensures Calc(FRESH, text + [op] + [c] + rest) == Returned(-1, Stacks([], [op], OPR))
  {
    var t := Stacks([Value(e)], [op], OPR);
    assert Feed(t, c) == Result(Fail(-1), Stacks([], [op], OPR)) && ValidOpr(t.opr) && Level(op) == 2;
    assert FRESH.opr + [op] == [op] && IsOperator(op) && !IsBlank(op) && !IsBlank(c);
    hide *;
    StripAround(text + [op], c, rest);
    StripConcat(text, [op]);
    StripOne(op);
    ReadLeft(FRESH, e, op);
    CalcFails(text + [op] + [c] + rest, Text(e) + [op], c, Strip(rest), t);
  }

  lemma {:induction false} DecimalConcat(p: string, q: string)
    ensures DigitsFrom(0, p + q) == DigitsFrom(DigitsFrom(0, p), q)
    decreases |q|
  {
    if q == [] {
      assert p + q == p;
    } else {
      var k := |q| - 1;
      DecimalConcat(p, q[..k]);
      CalcShapes.DigitsAppend(0, p + q[..k], q[k]);
      CalcShapes.DigitsAppend(DigitsFrom(0, p), q[..k], q[k]);
      assert p + q == p + q[..k] + [q[k]] && q == q[..k] + [q[k]];
    }
  }

  lemma NumbersHaveNoBlanks(p: string, q: string)
    requires IsNumber(p) && IsNumber(q)
    ensures Strip(p + "(" + q + ")") == p + "(" + q + ")"
  {
    var t := p + "(" + q + ")";
    forall i | 0 <= i < |t| ensures !IsBlank(t[i]) {
      assert t[i] in p || t[i] in q || t[i] in "()";
    }
    StripNothing(t);
  }

  /** A bracket around nothing but digits leaves the stacks as they are. */
  lemma BracketSteps(x: int, y: int)
    ensures Feed(Stacks([x], [], NUM), '(') == Result(Ok, Stacks([x], ['('], NUM))
    ensures Feed(Stacks([y], ['('], NUM), ')') == Result(Ok, Stacks([y], [], NUM))
    ensures Finish(Stacks([y], [], NUM)) == Returned(y, USED)
  {
    assert [] + ['('] == ['('];
  }

  lemma NumberRead(p: string, q: string)
    requires IsNumber(p) && IsNumber(q)
    ensures var x := DigitsFrom(0, p);
            && FeedAll(FRESH, p) == Result(Ok, Stacks([x], [], NUM))
            && FeedAll(Stacks([x], ['('], NUM), q) == Result(Ok, Stacks([DigitsFrom(x, q)], ['('], NUM))
    ensures ValidOpr(FRESH.opr) && ValidOpr([]) && ValidOpr(['('])
  {
    var x := DigitsFrom(0, p);
    var t := Stacks([x], ['('], NUM);
    assert FRESH.num + [x] == [x] && Popped(t.num) + [DigitsFrom(x, q)] == [DigitsFrom(x, q)];
    hide FeedAll, DigitsFrom;
    FeedNumber(FRESH, p);
    FeedDigits(t, q);
  }

  /** Brackets do not end a number: p(q) is read as the digits of both in a row. */
  lemma {:induction false} BracketInNumber(p: string, q: string)
    requires IsNumber(p) && IsNumber(q)
    ensures Calc(FRESH, p + "(" + q + ")") == Returned(Decimal(p + q), USED)
  {
    var x, y := DigitsFrom(0, p), DigitsFrom(DigitsFrom(0, p), q);
    var s, t, u := Stacks([x], [], NUM), Stacks([x], ['('], NUM), Stacks([y], ['('], NUM);
    assert IsDigits(p) && IsDigits(q) && p != [] && q != [];
    hide *;
    NumbersHaveNoBlanks(p, q);
    BracketSteps(x, y);
    DecimalConcat(p, q);
    DecimalIs(p + q);
    NumberRead(p, q);
    FeedOne(s, '(');
    FeedConcat(FRESH, p, "(");
    FeedConcat(FRESH, p + "(", q);
    FeedOne(u, ')');
    FeedConcat(FRESH, p + "(" + q, ")");
    CalcOfStripped(p + "(" + q + ")", Stacks([y], [], NUM));
  }
}

/**
 The expressions calc.c evaluates, their text and their value, and the proof
 that the two stacks compute that value.
 */
module CalcMeaning {
  import opened CalcSteps

  /** Concrete expressions. Brackets are part of the tree, so redundant ones are allowed anywhere. */
  datatype Expr =
    | Num(digits: string)
    | Paren(e: Expr)
    | Neg(e: Expr)
    | Pos(e: Expr)
    | Bin(op: char, l: Expr, r: Expr)

  function Text(e: Expr): string {
    match e
    case Num(ds) => ds
    case Paren(a) => "(" + Text(a) + ")"
    case Neg(a) => "-" + Text(a)
    case Pos(a) => "+" + Text(a)
    case Bin(op, l, r) => Text(l) + [op] + Text(r)
  }

  /** The number a string of digits stands for, on top of `acc`. */
  function DigitsFrom(acc: int, ds: string): int
    decreases |ds|
  {
    if ds == [] then acc else DigitsFrom(10 * acc + (ds[0] as int - '0' as int), ds[1..])
  }

  predicate IsDigits(ds: string) {
    forall i :: 0 <= i < |ds| ==> '0' <= ds[i] <= '9'
  }

  /** The value; a division by zero counts as 0 here and is excluded by `Defined`. */
  function Value(e: Expr): int {
    match e
    case Num(ds) => DigitsFrom(0, ds)
    case Paren(a) => Value(a)
    case Neg(a) => -Value(a)
    case Pos(a) => Value(a)
    case Bin(op, l, r) =>
      if !IsOperator(op) || (op in "/%" && Value(r) == 0) then 0 else Apply(op, Value(l), Value(r))
  }

  /** No division or remainder in `e` is by zero. */
  predicate Defined(e: Expr) {
    match e
    case Num(_) => true
    case Paren(a) => Defined(a)
    case Neg(a) => Defined(a)
    case Pos(a) => Defined(a)
    case Bin(op, l, r) => Defined(l) && Defined(r) && (op in "/%" ==> Value(r) != 0)
  }

  function Min(a: nat, b: nat): nat { if a < b then a else b }

  /** An operator in front of `e` must bind looser than this, or it would take only part of `e`. */
  function LeftLevel(e: Expr): nat {
    match e
    case Num(_) => 3
    case Paren(_) => 3
    case Neg(_) => 3
    case Pos(a) => LeftLevel(a)
    case Bin(op, l, _) => Min(LeftLevel(l), Level(op))
  }

  /** An operator behind `e` must not bind tighter than this, or `e` would lose its end to it. */
  function RightLevel(e: Expr): nat {
    match e
    case Num(_) => 3
    case Paren(_) => 3
    case Neg(a) => Min(1, RightLevel(a))
    case Pos(a) => RightLevel(a)
    case Bin(op, _, r) => Min(Level(op), RightLevel(r))
  }

  /**
   Trees whose text reads back as themselves: operators of one level group to
   the left, * / % bind tighter than + -, and a sign takes the whole product
   behind it.
   */
  predicate WellFormed(e: Expr) {
    match e
    case Num(ds) => ds != [] && IsDigits(ds)
    case Paren(a) => WellFormed(a)
    case Neg(a) => WellFormed(a) && LeftLevel(a) > 1
    case Pos(a) => WellFormed(a)
    case Bin(op, l, r) =>
      IsOperator(op) && WellFormed(l) && WellFormed(r) && RightLevel(l) >= Level(op) && LeftLevel(r) > Level(op)
  }

  lemma {:induction false} LevelsPositive(e: Expr)
    requires WellFormed(e)
    ensures 1 <= LeftLevel(e) <= 3 && 1 <= RightLevel(e) <= 3
  {
    match e
    case Num(_) =>
    case Paren(a) =>
    case Neg(a) => LevelsPositive(a);
    case Pos(a) => LevelsPositive(a);
    case Bin(op, l, r) => LevelsPositive(l); LevelsPositive(r);
  }

  // ---------- working off what is pending ----------

  datatype Pending = Stopped | Left(s: Stacks)

  /** The stacks once every operator of level `k` or more on top has been worked off. */
  function Reduce(s: Stacks, k: nat): Pending
    requires ValidOpr(s.opr) && k > 0
    decreases |s.opr|
  {
    if s.opr == [] || Level(Top(s.opr)) < k then Left(s)
    else
      var r := DoStack(s);
      if r.code == Ok then Reduce(r.s, k) else Stopped
  }

  lemma {:induction false} ReduceValid(s: Stacks, k: nat)
    requires ValidOpr(s.opr) && k > 0 && Reduce(s, k).Left?
    ensures ValidOpr(Reduce(s, k).s.opr) && Reduce(s, k).s.flag == s.flag
    decreases |s.opr|
  {
    if s.opr != [] && Level(Top(s.opr)) >= k { ReduceValid(DoStack(s).s, k); }
  }

  /** Working off level `j` first changes nothing for a lower level `k`. */
  lemma {:induction false} ReduceTwice(s: Stacks, j: nat, k: nat)
    requires ValidOpr(s.opr) && 0 < k <= j
    ensures Reduce(s, j).Left? ==> ValidOpr(Reduce(s, j).s.opr) && Reduce(Reduce(s, j).s, k) == Reduce(s, k)
    ensures Reduce(s, j).Stopped? ==> Reduce(s, k).Stopped?
    decreases |s.opr|
  {
    if s.opr != [] && Level(Top(s.opr)) >= j && DoStack(s).code == Ok { ReduceTwice(DoStack(s).s, j, k); }
  }

  /** Pushing an operator is working off its level and then pushing. */
  lemma {:induction false} PushIsReduce(s: Stacks, c: char)
    requires IsOperator(c) && ValidOpr(s.opr)
    ensures Reduce(s, Level(c)).Left? ==>
              PushOperator(s, c) == Result(Ok, Reduce(s, Level(c)).s.(opr := Reduce(s, Level(c)).s.opr + [c]))
    decreases |s.opr|
  {
    if s.opr != [] && Level(Top(s.opr)) >= Level(c) && DoStack(s).code == Ok { PushIsReduce(DoStack(s).s, c); }
  }

  /** A closing bracket works off everything down to its opening bracket. */
  lemma {:induction false} CloseIsReduce(s: Stacks)
    requires ValidOpr(s.opr) && Reduce(s, 1).Left?
    requires Reduce(s, 1).s.opr != [] && Top(Reduce(s, 1).s.opr) == '('
    ensures CloseBracket(s) == Result(Ok, Reduce(s, 1).s.(opr := Popped(Reduce(s, 1).s.opr)))
    decreases |s.opr|
  {
    if s.opr != [] && Level(Top(s.opr)) >= 1 { CloseIsReduce(DoStack(s).s); }
  }

  /** The loop at the end of the text goes through what working off a level leaves. */
  lemma {:induction false} FinishIsReduce(s: Stacks, k: nat)
    requires ValidOpr(s.opr) && k > 0 && Reduce(s, k).Left?
    ensures ValidOpr(Reduce(s, k).s.opr) && Finish(s) == Finish(Reduce(s, k).s)
    decreases |s.opr|
  {
    if s.opr != [] && Level(Top(s.opr)) >= k { FinishIsReduce(DoStack(s).s, k); }
  }

  lemma {:induction false} FlagIsIgnored(s: Stacks, f: Flag, k: nat)
    requires ValidOpr(s.opr) && k > 0
    ensures Reduce(s.(flag := f), k) == if Reduce(s, k).Left? then Left(Reduce(s, k).s.(flag := f)) else Stopped
    decreases |s.opr|
  {
    if s.opr != [] && Level(Top(s.opr)) >= k && DoStack(s).code == Ok {
      assert DoStack(s.(flag := f)).s == DoStack(s).s.(flag := f);
      FlagIsIgnored(DoStack(s).s, f, k);
    }
  }

  // ---------- reading text ----------

  lemma {:induction false} FeedConcat(s: Stacks, a: string, b: string)
    requires ValidOpr(s.opr) && FeedAll(s, a).code == Ok
    ensures ValidOpr(FeedAll(s, a).s.opr)
    ensures FeedAll(s, a + b) == FeedAll(FeedAll(s, a).s, b)
    decreases |a|
  {
    FeedAllValid(s, a);
    if a == [] {
      assert a + b == b;
    } else {
      FeedValid(s, a[0]);
      assert (a + b)[1..] == a[1..] + b;
      FeedConcat(Feed(s, a[0]).s, a[1..], b);
    }
  }

  lemma {:induction false} FeedPrefix(s: Stacks, a: string, b: string)
    requires ValidOpr(s.opr) && FeedAll(s, a + b).code == Ok
    ensures FeedAll(s, a).code == Ok
    decreases |a|
  {
    if a != [] {
      FeedValid(s, a[0]);
      assert (a + b)[1..] == a[1..] + b;
      FeedPrefix(Feed(s, a[0]).s, a[1..], b);
    }
  }

  lemma {:induction false} FeedStops(s: Stacks, a: string, b: string)
    requires ValidOpr(s.opr) && FeedAll(s, a).code != Ok
    ensures FeedAll(s, a + b) == FeedAll(s, a)
    decreases |a|
  {
    FeedValid(s, a[0]);
    assert (a + b)[1..] == a[1..] + b;
    if Feed(s, a[0]).code == Ok { FeedStops(Feed(s, a[0]).s, a[1..], b); }
  }

  lemma FeedOne(s: Stacks, c: char)
    requires ValidOpr(s.opr)
    ensures FeedAll(s, [c]) == Feed(s, c)
  {
    FeedValid(s, c);
    assert [c][1..] == [];
  }

  /** Further digits of a number are added to the one on top. */
  lemma {:induction false} FeedDigits(s: Stacks, ds: string)
    requires ValidOpr(s.opr) && IsDigits(ds) && s.flag == NUM && s.num != []
    ensures FeedAll(s, ds) == Result(Ok, s.(num := Popped(s.num) + [DigitsFrom(Top(s.num), ds)]))
    decreases |ds|
  {
    if ds != [] {
      var t := NumHandle(s, ds[0]);
      assert t.num == Popped(s.num) + [10 * Top(s.num) + (ds[0] as int - '0' as int)];
      assert Popped(t.num) == Popped(s.num);
      FeedDigits(t, ds[1..]);
    }
  }

  lemma FeedNumber(s: Stacks, ds: string)
    requires ValidOpr(s.opr) && ds != [] && IsDigits(ds) && s.flag == OPR
    ensures FeedAll(s, ds) == Result(Ok, s.(num := s.num + [DigitsFrom(0, ds)], flag := NUM))
  {
    var t := NumHandle(s, ds[0]);
    assert Popped(t.num) == s.num;
    FeedDigits(t, ds[1..]);
  }

  /** `s` with the operand `v` read. */
  function WithOperand(s: Stacks, v: int): Stacks {
    s.(num := s.num + [v], flag := NUM)
  }

  /** After reading a text from `s`, what is pending at level `k` is what `v` alone would leave. */
  ghost predicate ReadsAs(s: Stacks, text: string, v: int, k: nat)
    requires ValidOpr(s.opr) && k > 0
  {
    var r := FeedAll(s, text);
    && r.code == Ok && r.s.flag == NUM && ValidOpr(r.s.opr)
    && Reduce(r.s, k) == Reduce(WithOperand(s, v), k)
  }

  lemma ReadNum(s: Stacks, ds: string, k: nat)
    requires ValidOpr(s.opr) && k > 0 && s.flag == OPR && ds != [] && IsDigits(ds)
    ensures ReadsAs(s, ds, DigitsFrom(0, ds), k)
  {
    FeedNumber(s, ds);
  }

  lemma {:induction false} ReadParen(s: Stacks, text: string, v: int, k: nat)
    requires ValidOpr(s.opr) && k > 0 && s.flag == OPR
    requires ReadsAs(s.(opr := s.opr + ['(']), text, v, 1)
    ensures ReadsAs(s, "(" + text + ")", v, k)
  {
    var s1 := s.(opr := s.opr + ['(']);
    FeedOne(s, '(');
    FeedConcat(s, "(", text);
    var s2 := FeedAll(s1, text).s;
    assert Reduce(s2, 1) == Left(WithOperand(s1, v));
    CloseIsReduce(s2);
    FeedOne(s2, ')');
    FeedConcat(s, "(" + text, ")");
    assert Popped(s1.opr) == s.opr;
  }

  lemma {:induction false} ReadNeg(s: Stacks, text: string, v: int, k: nat)
    requires ValidOpr(s.opr) && k == 1 && s.flag == OPR
    requires ReadsAs(s.(num := s.num + [0], opr := s.opr + ['-']), text, v, k)
    ensures ReadsAs(s, "-" + text, -v, k)
  {
    hide FeedAll, Reduce;
    var s1 := s.(num := s.num + [0], opr := s.opr + ['-']);
    FeedOne(s, '-');
    FeedConcat(s, "-", text);
    OneOperation(s, 0, v, '-', k);
    assert WithOperand(s1, v) == Stacks(s.num + [0] + [v], s.opr + ['-'], NUM);
  }

  lemma {:induction false} ReadPos(s: Stacks, text: string, v: int, k: nat)
    requires ValidOpr(s.opr) && k > 0 && s.flag == OPR
    requires ReadsAs(s, text, v, k)
    ensures ReadsAs(s, "+" + text, v, k)
  {
    FeedOne(s, '+');
    FeedConcat(s, "+", text);
  }

  /** Two operands with their operator on top count as the result, for any level up to the operator's. */
  lemma {:induction false} OneOperation(s: Stacks, a: int, b: int, op: char, k: nat)
    requires ValidOpr(s.opr) && IsOperator(op) && 0 < k <= Level(op) && (op in "/%" ==> b != 0)
    ensures Reduce(Stacks(s.num + [a] + [b], s.opr + [op], NUM), k) == Reduce(WithOperand(s, Apply(op, a, b)), k)
  {
    var t := Stacks(s.num + [a] + [b], s.opr + [op], NUM);
    assert Popped(t.num) == s.num + [a] && Popped(Popped(t.num)) == s.num && Popped(t.opr) == s.opr;
    assert DoStack(t) == Result(Ok, WithOperand(s, Apply(op, a, b)));
  }

  /** What is pending down to the level of an operator is worked off when that is read. */
  lemma {:induction false} ReadOperator(s: Stacks, left: string, a: int, op: char)
    requires ValidOpr(s.opr) && s.flag == OPR && IsOperator(op)
    requires (s.opr == [] || Level(Top(s.opr)) < Level(op)) && ReadsAs(s, left, a, Level(op))
    ensures FeedAll(s, left + [op]) == Result(Ok, Stacks(s.num + [a], s.opr + [op], OPR))
  {
    var s1 := FeedAll(s, left).s;
    assert Reduce(s1, Level(op)) == Left(WithOperand(s, a));
    FlagIsIgnored(s1, OPR, Level(op));
    PushIsReduce(s1.(flag := OPR), op);
    FeedOne(s1, op);
    FeedConcat(s, left, [op]);
  }

  lemma {:induction false} ReadBin(s: Stacks, left: string, a: int, op: char, right: string, b: int, k: nat)
    requires ValidOpr(s.opr) && s.flag == OPR && IsOperator(op) && (op in "/%" ==> b != 0)
    requires 0 < k <= Level(op) && (s.opr == [] || Level(Top(s.opr)) < Level(op))
    requires ReadsAs(s, left, a, Level(op))
    requires ReadsAs(Stacks(s.num + [a], s.opr + [op], OPR), right, b, k)
    ensures ReadsAs(s, left + [op] + right, Apply(op, a, b), k)
  {
    ReadOperator(s, left, a, op);
    FeedConcat(s, left + [op], right);
    OneOperation(s, a, b, op, k);
  }

  /** Reading a well-formed expression amounts to reading its value. */
  lemma {:induction false} ReadExpr(s: Stacks, e: Expr, k: nat)
    requires ValidOpr(s.opr) && s.flag == OPR && WellFormed(e) && Defined(e)
    requires 0 < k <= RightLevel(e) && (s.opr == [] || Level(Top(s.opr)) < LeftLevel(e))
    ensures ReadsAs(s, Text(e), Value(e), k)
    decreases e
  {
    hide FeedAll, Feed, Reduce, ReadsAs, Apply, DigitsFrom, IsDigits;
    LevelsPositive(e);
    match e
    case Num(ds) => ReadNum(s, ds, k);
    case Paren(a) =>
      LevelsPositive(a);
      ReadExpr(s.(opr := s.opr + ['(']), a, 1);
      ReadParen(s, Text(a), Value(a), k);
    case Neg(a) =>
      LevelsPositive(a);
      ReadExpr(s.(num := s.num + [0], opr := s.opr + ['-']), a, k);
      ReadNeg(s, Text(a), Value(a), k);
    case Pos(a) =>
      ReadExpr(s, a, k);
      ReadPos(s, Text(a), Value(a), k);
    case Bin(op, l, r) =>
      ReadExpr(s, l, Level(op));
      ReadExpr(Stacks(s.num + [Value(l)], s.opr + [op], OPR), r, k);
      ReadBin(s, Text(l), Value(l), op, Text(r), Value(r), k);
  }

  // ---------- the evaluator ----------

  /** The text without its blanks. */
  function Strip(t: string): string {
    if t == [] then [] else (if IsBlank(t[0]) then [] else [t[0]]) + Strip(t[1..])
  }

  lemma {:induction false} BlanksAreIgnored(s: Stacks, t: string)
    requires ValidOpr(s.opr)
    ensures FeedAll(s, t) == FeedAll(s, Strip(t))
    decreases |t|
  {
    if t != [] {
      FeedValid(s, t[0]);
      var rest := Strip(t[1..]);
      if IsBlank(t[0]) {
        BlanksAreIgnored(s, t[1..]);
        assert Strip(t) == rest;
      } else {
        assert Strip(t)[0] == t[0] && Strip(t)[1..] == rest;
        if Feed(s, t[0]).code == Ok { BlanksAreIgnored(Feed(s, t[0]).s, t[1..]); }
      }
    }
  }

  lemma {:induction false} StripNothing(t: string)
    requires forall i :: 0 <= i < |t| ==> !IsBlank(t[i])
    ensures Strip(t) == t
  {
    if t != [] { StripNothing(t[1..]); }
  }

  const FRESH := Stacks([], [], OPR)
  const USED := Stacks([], [], NUM)

  /**
   Every text that spells a well-formed expression without division by zero,
   with blanks anywhere, evaluates to the value of the expression, and both
   stacks are empty afterwards.
   */
  lemma {:induction false} Evaluates(e: Expr, text: string)
    requires WellFormed(e) && Defined(e) && Strip(text) == Text(e)
    ensures Calc(FRESH, text) == Returned(Value(e), USED)
  {
    hide FeedAll, Strip, Text, Value, Defined, WellFormed, LeftLevel, RightLevel;
    LevelsPositive(e);
    BlanksAreIgnored(FRESH, text);
    ReadExpr(FRESH, e, 1);
    var t := FeedAll(FRESH, Text(e)).s;
    FinishIsReduce(t, 1);
    assert WithOperand(FRESH, Value(e)) == Stacks([Value(e)], [], NUM);
  }
}

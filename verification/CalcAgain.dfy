/** A second text on the same calculator, whose flag says that a number was read last. */
module CalcAgain {
  import opened CalcSteps
  import opened CalcMeaning

  /** The first token that is not an opening bracket is a sign. */
  predicate BeginsWithSign(e: Expr) {
    match e
    case Num(_) => false
    case Paren(a) => BeginsWithSign(a)
    case Neg(_) => true
    case Pos(_) => true
    case Bin(_, l, _) => BeginsWithSign(l)
  }

  /** The flag left by an earlier text does not matter to a text that does not begin with a sign. */
  lemma {:induction false} StaleFlag(o: string, e: Expr)
    requires ValidOpr(o) && WellFormed(e) && !BeginsWithSign(e)
    requires FeedAll(Stacks([], o, OPR), Text(e)).code == Ok
    ensures FeedAll(Stacks([], o, NUM), Text(e)) == FeedAll(Stacks([], o, OPR), Text(e))
    decreases e
  {
    hide FeedAll, PushOperator, CloseBracket;
    var s, t := Stacks([], o, OPR), Stacks([], o, NUM);
    match e
    case Num(ds) => StaleNumber(o, ds);
    case Paren(a) =>
      var o' := o + ['('];
      assert Text(e) == "(" + (Text(a) + ")");
      FeedPrefix(s, "(", Text(a) + ")");
      FeedOne(s, '(');
      FeedOne(t, '(');
      FeedConcat(s, "(", Text(a) + ")");
      FeedConcat(t, "(", Text(a) + ")");
      FeedPrefix(Stacks([], o', OPR), Text(a), ")");
      StaleFlag(o', a);
      FeedConcat(Stacks([], o', OPR), Text(a), ")");
      FeedConcat(Stacks([], o', NUM), Text(a), ")");
    case Bin(op, l, r) =>
      assert Text(e) == Text(l) + ([op] + Text(r));
      FeedPrefix(s, Text(l), [op] + Text(r));
      StaleFlag(o, l);
      FeedConcat(s, Text(l), [op] + Text(r));
      FeedConcat(t, Text(l), [op] + Text(r));
  }

  lemma StaleNumber(o: string, ds: string)
    requires ValidOpr(o) && ds != [] && IsDigits(ds)
    ensures FeedAll(Stacks([], o, NUM), ds) == FeedAll(Stacks([], o, OPR), ds)
  {
    assert NumHandle(Stacks([], o, NUM), ds[0]) == NumHandle(Stacks([], o, OPR), ds[0]);
  }

  // ---------- texts that begin with a sign ----------

  ghost function Ops(o: seq<char>): nat {
    if o == [] then 0 else Ops(Popped(o)) + if IsOperator(Top(o)) then 1 else 0
  }

  ghost function Brackets(o: seq<char>): nat {
    if o == [] then 0 else Brackets(Popped(o)) + if Top(o) == '(' then 1 else 0
  }

  /** There are too few numbers for the operators, and an operator is left to show it. */
  ghost predicate Short(s: Stacks) {
    ValidOpr(s.opr) && Ops(s.opr) >= 1 && |s.num| + (if s.flag == OPR then 1 else 0) <= Ops(s.opr)
  }

  lemma Pushed(o: seq<char>, c: char)
    ensures Ops(o + [c]) == Ops(o) + if IsOperator(c) then 1 else 0
    ensures Brackets(o + [c]) == Brackets(o) + if c == '(' then 1 else 0
  {
    assert Popped(o + [c]) == o;
  }

  /** Pushing an operator consumes as many operators as numbers. */
  lemma {:induction false} PushShort(s: Stacks, c: char)
    requires IsOperator(c) && s.flag == OPR && Short(s.(flag := NUM))
    ensures var r := PushOperator(s, c);
            && r.s.flag == OPR
            && (r.code == Ok ==> Short(r.s) && Brackets(r.s.opr) == Brackets(s.opr))
    decreases |s.opr|
  {
    Pushed(s.opr, c);
    if s.opr != [] && Level(c) <= Level(Top(s.opr)) && DoStack(s).code == Ok { PushShort(DoStack(s).s, c); }
  }

  /** So does closing a bracket; a division by zero inside even loses a number more. */
  lemma {:induction false} CloseShort(s: Stacks)
    requires s.flag == NUM && Short(s) && Brackets(s.opr) >= 1
    ensures var r := CloseBracket(s);
            && !r.code.Fail?
            && (r.code == Ok ==> r.s.flag == NUM && Short(r.s) && Brackets(r.s.opr) == Brackets(s.opr) - 1)
    decreases |s.opr|
  {
    if Top(s.opr) != '(' && |s.num| >= 2 && DoStack(s).code != Trap { CloseShort(DoStack(s).s); }
  }

  /** And in the end an operator remains. */
  lemma {:induction false} FinishShort(s: Stacks)
    requires s.flag == NUM && Short(s) && Brackets(s.opr) == 0
    ensures Finish(s).Returned? ==> Finish(s).s.opr != []
    decreases |s.opr|
  {
    assert Popped(s.opr) == [] ==> Ops(Popped(s.opr)) == 0;
    if IsOperator(Top(s.opr)) && DoStack(s).code == Ok { FinishShort(DoStack(s).s); }
  }

  /** How reading goes from a state with too few numbers: it stays short, or stops with the flag still up. */
  ghost predicate StaysShort(s: Stacks, text: string)
    requires ValidOpr(s.opr)
  {
    var r := FeedAll(s, text);
    && (r.code == Ok ==> r.s.flag == NUM && Short(r.s) && Brackets(r.s.opr) == Brackets(s.opr))
    && (r.code.Fail? ==> r.s.flag == OPR)
  }

  lemma {:induction false} ThenOperator(s: Stacks, left: string, op: char)
    requires ValidOpr(s.opr) && IsOperator(op) && StaysShort(s, left)
    ensures var r := FeedAll(s, left + [op]);
            && (r.code == Ok ==> r.s.flag == OPR && Short(r.s) && Brackets(r.s.opr) == Brackets(s.opr))
            && (r.code.Fail? ==> r.s.flag == OPR)
  {
    hide FeedAll, PushOperator, Ops, Brackets;
    var r := FeedAll(s, left);
    if r.code == Ok {
      FeedConcat(s, left, [op]);
      FeedOne(r.s, op);
      PushShort(r.s.(flag := OPR), op);
    } else {
      FeedStops(s, left, [op]);
    }
  }

  lemma {:induction false} ThenRight(s: Stacks, left: string, op: char, right: string)
    requires ValidOpr(s.opr) && IsOperator(op) && StaysShort(s, left)
    requires FeedAll(s, left + [op]).code == Ok ==>
               var t := FeedAll(s, left + [op]).s; ValidOpr(t.opr) && StaysShort(t, right)
    ensures StaysShort(s, left + [op] + right)
  {
    hide FeedAll, PushOperator, Ops, Brackets;
    ThenOperator(s, left, op);
    if FeedAll(s, left + [op]).code == Ok {
      FeedConcat(s, left + [op], right);
    } else {
      FeedStops(s, left + [op], right);
    }
  }

  lemma {:induction false} InBrackets(s: Stacks, text: string)
    requires ValidOpr(s.opr)
    requires var t := s.(opr := s.opr + ['(']); ValidOpr(t.opr) && StaysShort(t, text)
    ensures StaysShort(s, "(" + text + ")")
  {
    hide FeedAll, CloseBracket, Ops, Brackets;
    var t := s.(opr := s.opr + ['(']);
    Pushed(s.opr, '(');
    FeedOne(s, '(');
    FeedConcat(s, "(", text);
    var r := FeedAll(t, text);
    if r.code == Ok {
      FeedConcat(s, "(" + text, ")");
      FeedOne(r.s, ')');
      CloseShort(r.s);
    } else {
      FeedStops(s, "(" + text, ")");
    }
  }

  lemma {:induction false} BehindSign(s: Stacks, c: char, text: string)
    requires ValidOpr(s.opr) && c in "+-"
    requires Feed(s, c).code == Ok && Brackets(Feed(s, c).s.opr) == Brackets(s.opr)
    requires ValidOpr(Feed(s, c).s.opr) && StaysShort(Feed(s, c).s, text)
    ensures StaysShort(s, [c] + text)
  {
    hide FeedAll, Feed, Ops, Brackets;
    FeedOne(s, c);
    FeedConcat(s, [c], text);
  }

  /** No expression makes up for the missing number. */
  lemma {:induction false} ReadShort(s: Stacks, e: Expr)
    requires s.flag == OPR && Short(s) && WellFormed(e)
    ensures StaysShort(s, Text(e))
    decreases e
  {
    hide FeedAll, PushOperator, CloseBracket, StaysShort, Ops, Brackets;
    match e
    case Num(ds) => NumberShort(s, ds);
    case Paren(a) =>
      Pushed(s.opr, '(');
      ReadShort(s.(opr := s.opr + ['(']), a);
      InBrackets(s, Text(a));
    case Neg(a) =>
      Pushed(s.opr, '-');
      ReadShort(s.(num := s.num + [0], opr := s.opr + ['-']), a);
      BehindSign(s, '-', Text(a));
    case Pos(a) =>
      ReadShort(s, a);
      BehindSign(s, '+', Text(a));
    case Bin(op, l, r) =>
      ReadShort(s, l);
      ThenOperator(s, Text(l), op);
      if FeedAll(s, Text(l) + [op]).code == Ok { ReadShort(FeedAll(s, Text(l) + [op]).s, r); }
      ThenRight(s, Text(l), op, Text(r));
  }

  lemma NumberShort(s: Stacks, ds: string)
    requires s.flag == OPR && Short(s) && ds != [] && IsDigits(ds)
    ensures StaysShort(s, ds)
  {
    FeedNumber(s, ds);
  }

  /** A sign behind nothing but brackets is taken for an operator without a left side. */
  lemma {:induction false} SignMakesShort(o: seq<char>, e: Expr)
    requires ValidOpr(o) && Ops(o) == 0 && WellFormed(e) && BeginsWithSign(e)
    ensures StaysShort(Stacks([], o, NUM), Text(e))
    decreases e
  {
    hide FeedAll, CloseBracket, StaysShort, Ops, Brackets;
    var s := Stacks([], o, NUM);
    match e
    case Paren(a) =>
      Pushed(o, '(');
      SignMakesShort(o + ['('], a);
      InBrackets(s, Text(a));
    case Neg(a) =>
      OnlyBrackets(o);
      Pushed(o, '-');
      ReadShort(Stacks([], o + ['-'], OPR), a);
      BehindSign(s, '-', Text(a));
    case Pos(a) =>
      OnlyBrackets(o);
      Pushed(o, '+');
      ReadShort(Stacks([], o + ['+'], OPR), a);
      BehindSign(s, '+', Text(a));
    case Bin(op, l, r) =>
      SignMakesShort(o, l);
      ThenOperator(s, Text(l), op);
      if FeedAll(s, Text(l) + [op]).code == Ok { ReadShort(FeedAll(s, Text(l) + [op]).s, r); }
      ThenRight(s, Text(l), op, Text(r));
  }

  lemma OnlyBrackets(o: seq<char>)
    requires ValidOpr(o) && Ops(o) == 0
    ensures o == [] || Top(o) == '('
  {
  }

  /** Whether a text begins with a sign can be read off its first character that is no opening bracket. */
  predicate SignFirst(text: string) {
    text != [] && (text[0] in "+-" || (text[0] == '(' && SignFirst(text[1..])))
  }

  lemma {:induction false} SignIsFirst(e: Expr, rest: string)
    requires WellFormed(e)
    ensures SignFirst(Text(e) + rest) <==> BeginsWithSign(e)
    decreases e
  {
    match e
    case Num(ds) =>
    case Paren(a) =>
      assert (Text(e) + rest)[1..] == Text(a) + (")" + rest);
      SignIsFirst(a, ")" + rest);
    case Neg(a) =>
    case Pos(a) =>
    case Bin(op, l, r) =>
      assert Text(e) + rest == Text(l) + ([op] + Text(r) + rest);
      SignIsFirst(l, [op] + Text(r) + rest);
  }

  /**
   A calculator that has evaluated one text evaluates the next, and is ready
   for one more, exactly when that does not begin with a sign.
   */
  lemma {:induction false} EvaluatesAgain(e: Expr, text: string)
    requires WellFormed(e) && Defined(e) && Strip(text) == Text(e)
    ensures Calc(USED, text) == Returned(Value(e), USED) <==> !SignFirst(Strip(text))
  {
    hide FeedAll, Finish, Strip, ReadsAs, WellFormed, SignFirst;
    SignIsFirst(e, "");
    assert Text(e) + "" == Text(e);
    BlanksAreIgnored(USED, text);
    if BeginsWithSign(e) {
      SignMakesShort([], e);
      var r := FeedAll(USED, Text(e));
      if r.code == Ok { FinishShort(r.s); }
    } else {
      Evaluates(e, text);
      LevelsPositive(e);
      ReadExpr(FRESH, e, 1);
      ReadsOk(e);
      BlanksAreIgnored(FRESH, text);
      StaleFlag([], e);
    }
  }

  lemma ReadsOk(e: Expr)
    requires ReadsAs(FRESH, Text(e), Value(e), 1)
    ensures FeedAll(FRESH, Text(e)).code == Ok
  {
  }

  lemma SignedUsed(d: char)
    requires '0' <= d <= '9'
    ensures Calc(USED, ['-', d]) == Returned(-2, Stacks([], ['-'], NUM))
  {
    var s1, s2 := Stacks([], ['-'], OPR), Stacks([d as int - '0' as int], ['-'], NUM);
    assert Feed(USED, '-') == Result(Ok, s1) && Feed(s1, d) == Result(Ok, s2);
    FeedConcat(USED, ['-'], [d]);
    FeedOne(USED, '-');
    FeedOne(s1, d);
    assert ['-'] + [d] == ['-', d];
  }

  /**
   On a used calculator every "-d" gives -2, with an operator left over: right by
   accident for "-2", and wrong for the others. A fresh one gives -d.
   */
  lemma SignedDigit(d: char)
    requires '0' <= d <= '9'
    ensures Calc(USED, ['-', d]) == Returned(-2, Stacks([], ['-'], NUM))
    ensures Calc(FRESH, ['-', d]) == Returned('0' as int - d as int, USED)
  {
    SignedUsed(d);
    var e := Neg(Num([d]));
    hide Calc, Strip, FeedAll;
    StripNothing(['-', d]);
    assert DigitsFrom(0, [d]) == DigitsFrom(d as int - '0' as int, [d][1..]);
    Evaluates(e, ['-', d]);
  }
}

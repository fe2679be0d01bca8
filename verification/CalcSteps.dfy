/**
 What the handlers of calc.c do, as functions of the two stacks and the flag.
 The top of a stack is the end of its sequence. Numbers are unbounded.
 */
module CalcSteps {

  /** The kind of token read last, calc.h:7-10. */
  datatype Flag = OPR | NUM

  datatype Stacks = Stacks(num: seq<int>, opr: seq<char>, flag: Flag)

  /**
   How a handler ends. `Trap` is the remainder by zero, on which the program
   dies; `Hang` is the closing bracket whose loop finds too few numbers and
   then repeats without end.
   */
  datatype Code = Ok | Fail(code: int) | Trap | Hang

  datatype Result = Result(code: Code, s: Stacks)

  // ---------- arithmetic of the source language ----------

  function Abs(x: int): nat { if x < 0 then -x else x }

  /** Division truncates towards zero. */
  function TruncDiv(a: int, b: int): int
    requires b != 0
  {
    var q := Abs(a) / Abs(b);
    if (a < 0) == (b < 0) then q else -q
  }

  /** The remainder takes the sign of the dividend. */
  function TruncRem(a: int, b: int): int
    requires b != 0
  {
    a - b * TruncDiv(a, b)
  }

  /** Quotient and remainder belong together, and the remainder is smaller than the divisor. */
  lemma TruncDivision(a: int, b: int)
    requires b != 0
    ensures a == b * TruncDiv(a, b) + TruncRem(a, b)
    ensures Abs(TruncRem(a, b)) < Abs(b)
    ensures TruncRem(a, b) == 0 || (TruncRem(a, b) < 0 <==> a < 0)
  {
    var x: int, y: int := Abs(a), Abs(b);
    var q := x / y;
    assert x == y * q + x % y;
    SignOfProduct(b, q);
    assert b * TruncDiv(a, b) == if a < 0 then -(y * q) else y * q;
  }

  lemma SignOfProduct(b: int, q: int)
    ensures b * -q == -(b * q) && -b * q == -(b * q)
    ensures Abs(b) * q == if b < 0 then -(b * q) else b * q
  {
  }

  function Apply(op: char, a: int, b: int): int
    requires IsOperator(op) && (op == '/' || op == '%' ==> b != 0)
  {
    match op
    case '+' => a + b
    case '-' => a - b
    case '*' => a * b
    case '/' => TruncDiv(a, b)
    case _ => TruncRem(a, b)
  }

  /** What each operator computes. */
  lemma OperatorsMean(a: int, b: int)
    ensures Apply('+', a, b) == a + b && Apply('-', a, b) == a - b && Apply('*', a, b) == a * b
    ensures b != 0 ==> a == b * Apply('/', a, b) + Apply('%', a, b) && Abs(Apply('%', a, b)) < Abs(b)
    ensures b != 0 ==> Apply('%', a, b) == 0 || (Apply('%', a, b) < 0 <==> a < 0)
  {
    if b != 0 { TruncDivision(a, b); }
  }

  predicate IsOperator(c: char) { c in "+-*/%" }

  /** calc.c:26-48 */
  function Level(c: char): nat {
    if c in "*/%" then 2 else if c in "+-" then 1 else 0
  }

  function Top<T>(s: seq<T>): T
    requires s != []
  {
    s[|s| - 1]
  }

  function Popped<T>(s: seq<T>): seq<T>
    requires s != []
  {
    s[..|s| - 1]
  }

  /** The operator stack holds operators and opening brackets. */
  predicate ValidOpr(o: seq<char>) {
    forall i :: 0 <= i < |o| ==> IsOperator(o[i]) || o[i] == '('
  }

  // ---------- the handlers ----------

  /** calc.c:55-115; numbers popped before a failure stay popped. */
  function DoStack(s: Stacks): (r: Result)
    requires s.opr != [] ==> IsOperator(Top(s.opr))
  {
    if |s.num| == 0 then Result(Fail(-1), s)
    else if |s.num| == 1 then Result(Fail(-1), s.(num := []))
    else if s.opr == [] then Result(Fail(-2), s.(num := Popped(Popped(s.num))))
    else
      var a, b, op := Top(Popped(s.num)), Top(s.num), Top(s.opr);
      var rest := s.(num := Popped(Popped(s.num)), opr := Popped(s.opr));
      if op == '/' && b == 0 then Result(Fail(-3), rest)
      else if op == '%' && b == 0 then Result(Trap, rest)
      else Result(Ok, rest.(num := rest.num + [Apply(op, a, b)]))
  }

  /** One pending operation, for each operator, and with too few numbers or operators. */
  lemma DoStackMeans(num: seq<int>, a: int, b: int, opr: seq<char>, f: Flag)
    ensures DoStack(Stacks(num + [a, b], opr + ['+'], f)) == Result(Ok, Stacks(num + [a + b], opr, f))
    ensures DoStack(Stacks(num + [a, b], opr + ['-'], f)) == Result(Ok, Stacks(num + [a - b], opr, f))
    ensures DoStack(Stacks(num + [a, b], opr + ['*'], f)) == Result(Ok, Stacks(num + [a * b], opr, f))
    ensures b == 0 ==> DoStack(Stacks(num + [a, b], opr + ['/'], f)) == Result(Fail(-3), Stacks(num, opr, f))
    ensures b == 0 ==> DoStack(Stacks(num + [a, b], opr + ['%'], f)).code == Trap
    ensures b != 0 ==> DoStack(Stacks(num + [a, b], opr + ['/'], f)) == Result(Ok, Stacks(num + [TruncDiv(a, b)], opr, f))
    ensures b != 0 ==> DoStack(Stacks(num + [a, b], opr + ['%'], f)) == Result(Ok, Stacks(num + [TruncRem(a, b)], opr, f))
    ensures DoStack(Stacks(num + [a, b], [], f)) == Result(Fail(-2), Stacks(num, [], f))
    ensures DoStack(Stacks([a], opr + ['+'], f)) == DoStack(Stacks([], opr + ['+'], f))
         == Result(Fail(-1), Stacks([], opr + ['+'], f))
  {
    var s := num + [a, b];
    assert Popped(s) == num + [a] && Popped(Popped(s)) == num && Top(s) == b && Top(Popped(s)) == a;
    forall op: char ensures Popped(opr + [op]) == opr && Top(opr + [op]) == op { }
  }

  /** calc.c:9-24 */
  function NumHandle(s: Stacks, c: char): Stacks
    requires '0' <= c <= '9'
  {
    var d := c as int - '0' as int;
    if s.flag == OPR then s.(flag := NUM, num := s.num + [d])
    else if s.num == [] then s.(num := [d])
    else s.(num := Popped(s.num) + [d + Top(s.num) * 10])
  }

  /** calc.c:149-170: what binds no looser than `c` is worked off, then `c` is pushed. */
  function PushOperator(s: Stacks, c: char): (r: Result)
    requires IsOperator(c) && ValidOpr(s.opr)
    decreases |s.opr|
  {
    if s.opr == [] || Level(c) > Level(Top(s.opr)) then Result(Ok, s.(opr := s.opr + [c]))
    else
      var r := DoStack(s);
      if r.code.Fail? then Result(Fail(-1), r.s)
      else if r.code != Ok then r
      else PushOperator(r.s, c)
  }

  /** calc.c:119-175 */
  function OprHandle(s: Stacks, c: char): (r: Result)
    requires IsOperator(c) && ValidOpr(s.opr)
  {
    if s.flag == NUM then PushOperator(s.(flag := OPR), c)
    else if c == '+' then Result(Ok, s)
    else if c == '-' then Result(Ok, s.(num := s.num + [0], opr := s.opr + [c]))
    else PushOperator(s, c)
  }

  /** calc.c:189-199; a failing `do_stack` is ignored, so with too few numbers the loop never ends. */
  function CloseBracket(s: Stacks): (r: Result)
    requires ValidOpr(s.opr)
    decreases |s.opr|
  {
    if s.opr == [] then Result(Fail(-1), s)
    else if Top(s.opr) == '(' then Result(Ok, s.(opr := Popped(s.opr)))
    else if |s.num| < 2 then Result(Hang, s)
    else
      var r := DoStack(s);
      if r.code == Trap then r else CloseBracket(r.s)
  }

  /** calc.c:177-210 */
  function BracketHandle(s: Stacks, c: char): (r: Result)
    requires ValidOpr(s.opr) && c in "()"
  {
    if c == '(' then Result(Ok, s.(opr := s.opr + ['('])) else CloseBracket(s)
  }

  predicate IsBlank(c: char) { c in " \n\t" }

  /** One round of the loop of calc.c:220-253. */
  function Feed(s: Stacks, c: char): (r: Result)
    requires ValidOpr(s.opr)
  {
    if '0' <= c <= '9' then Result(Ok, NumHandle(s, c))
    else if IsOperator(c) then OprHandle(s, c)
    else if IsBlank(c) then Result(Ok, s)
    else if c in "()" then BracketHandle(s, c)
    else Result(Fail(-1), s)
  }

  lemma {:induction false} PushOperatorValid(s: Stacks, c: char)
    requires IsOperator(c) && ValidOpr(s.opr)
    ensures ValidOpr(PushOperator(s, c).s.opr)
    decreases |s.opr|
  {
    if s.opr != [] && Level(c) <= Level(Top(s.opr)) && DoStack(s).code == Ok {
      PushOperatorValid(DoStack(s).s, c);
    }
  }

  lemma {:induction false} CloseBracketValid(s: Stacks)
    requires ValidOpr(s.opr)
    ensures ValidOpr(CloseBracket(s).s.opr)
    decreases |s.opr|
  {
    if s.opr != [] && Top(s.opr) != '(' && |s.num| >= 2 && DoStack(s).code != Trap {
      CloseBracketValid(DoStack(s).s);
    }
  }

  /** Every operator on the stack binds tighter than the entry below it. */
  predicate Rising(o: seq<char>) {
    forall i :: 0 <= i < |o| - 1 ==> o[i + 1] == '(' || Level(o[i]) < Level(o[i + 1])
  }

  lemma {:induction false} PushOperatorRises(s: Stacks, c: char)
    requires IsOperator(c) && ValidOpr(s.opr) && Rising(s.opr)
    ensures Rising(PushOperator(s, c).s.opr)
    decreases |s.opr|
  {
    if s.opr != [] && Level(c) <= Level(Top(s.opr)) && DoStack(s).code == Ok {
      PushOperatorRises(DoStack(s).s, c);
    }
  }

  lemma {:induction false} CloseBracketRises(s: Stacks)
    requires ValidOpr(s.opr) && Rising(s.opr)
    ensures Rising(CloseBracket(s).s.opr)
    decreases |s.opr|
  {
    if s.opr != [] && Top(s.opr) != '(' && |s.num| >= 2 && DoStack(s).code != Trap {
      CloseBracketRises(DoStack(s).s);
    }
  }

  /** A minus sign directly behind an operator that is still waiting. */
  predicate MinusOnOperator(s: Stacks, c: char) {
    c == '-' && s.flag == OPR && s.opr != [] && IsOperator(Top(s.opr))
  }

  /** Reading a character keeps the levels rising, except exactly for a minus sign behind an operator. */
  lemma FeedRises(s: Stacks, c: char)
    requires ValidOpr(s.opr) && Rising(s.opr)
    ensures Rising(Feed(s, c).s.opr) <==> !MinusOnOperator(s, c)
  {
    hide PushOperator, CloseBracket;
    if IsOperator(c) {
      PushOperatorRises(s, c);
      PushOperatorRises(s.(flag := OPR), c);
      if MinusOnOperator(s, c) {
        var o := Feed(s, c).s.opr;
        assert o[|s.opr| - 1] == Top(s.opr) && o[|s.opr|] == '-';
      }
    }
    CloseBracketRises(s);
  }

  /** Reading any character keeps the operator stack well formed. */
  lemma FeedValid(s: Stacks, c: char)
    requires ValidOpr(s.opr)
    ensures ValidOpr(Feed(s, c).s.opr)
  {
    if IsOperator(c) {
      PushOperatorValid(s, c);
      PushOperatorValid(s.(flag := OPR), c);
    }
    CloseBracketValid(s);
  }

  /** The loop of calc.c:220-253; it stops at the first character that fails. */
  function FeedAll(s: Stacks, text: string): (r: Result)
    requires ValidOpr(s.opr)
    decreases |text|
  {
    if text == [] then Result(Ok, s)
    else
      var r := Feed(s, text[0]);
      FeedValid(s, text[0]);
      if r.code != Ok then r else FeedAll(r.s, text[1..])
  }

  /** How `calc_main` ends: with a value, or not at all. */
  datatype Outcome = Returned(value: int, s: Stacks) | NoReturn

  /** calc.c:255-277: the operators left over are worked off. */
  function Finish(s: Stacks): Outcome
    requires ValidOpr(s.opr)
    decreases |s.opr|
  {
    if s.opr == [] then
      if s.num == [] then Returned(0, s) else Returned(Top(s.num), s.(num := Popped(s.num)))
    else if Top(s.opr) == '(' then Returned(-3, s)
    else
      var r := DoStack(s);
      if r.code == Trap then NoReturn
      else if r.code != Ok then Returned(-2, r.s)
      else Finish(r.s)
  }

  lemma {:induction false} FeedAllValid(s: Stacks, text: string)
    requires ValidOpr(s.opr)
    ensures ValidOpr(FeedAll(s, text).s.opr)
    decreases |text|
  {
    if text != [] {
      FeedValid(s, text[0]);
      if Feed(s, text[0]).code == Ok { FeedAllValid(Feed(s, text[0]).s, text[1..]); }
    }
  }

  /** calc.c:212-278 */
  function Calc(s: Stacks, text: string): Outcome
    requires ValidOpr(s.opr)
  {
    FeedAllValid(s, text);
    var r := FeedAll(s, text);
    match r.code
    case Ok => Finish(r.s)
    case Fail(code) => Returned(code, r.s)
    case _ => NoReturn
  }
}

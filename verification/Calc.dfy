/** The evaluator of calc.c itself; each handler is proved to do what its function in CalcSteps says. */
module Calc {
  import opened CalcSteps
  import A = CalcAgain
  import M = CalcMeaning
  import S = CalcSteps

  class CalcInfo {
    var num: seq<int>
    var opr: seq<char>
    var flag: Flag
    /** The text from the current character on. */
    var cur: string

    ghost predicate Valid()
      reads this
    {
      ValidOpr(opr)
    }

    ghost function State(): Stacks
      reads this
    {
      Stacks(num, opr, flag)
    }

    /** calc.c:282-305 */
    constructor ()
      ensures Valid() && State() == M.FRESH
    {
      num, opr, cur, flag := [], [], "", OPR;
    }

    /** calc.c:9-24 */
    method NumHandle()
      requires cur != "" && '0' <= cur[0] <= '9'
      modifies `num, `flag
      ensures State() == S.NumHandle(old(State()), cur[0])
    {
      var n := cur[0] as int - '0' as int;
      var prev := 0;
      if flag == OPR {
        flag := NUM;
      } else {
        if num != [] {
          prev, num := num[|num| - 1], num[..|num| - 1];
        }
        n := n + prev * 10;
      }
      num := num + [n];
    }

    /** calc.c:55-115. A remainder by zero does not return. */
    method DoStack() returns (code: Code)
      requires opr != [] ==> IsOperator(Top(opr))
      requires S.DoStack(State()).code != Trap
      modifies `num, `opr
      ensures Result(code, State()) == S.DoStack(old(State()))
    {
      if num == [] { return Fail(-1); }
      var b := num[|num| - 1];
      num := num[..|num| - 1];
      if num == [] { return Fail(-1); }
      var a := num[|num| - 1];
      num := num[..|num| - 1];
      if opr == [] { return Fail(-2); }
      var op := opr[|opr| - 1];
      opr := opr[..|opr| - 1];
      var ret;
      match op {
        case '+' => ret := a + b;
        case '-' => ret := a - b;
        case '*' => ret := a * b;
        case '/' =>
          if b == 0 { return Fail(-3); }
          ret := TruncDiv(a, b);
        case _ => ret := TruncRem(a, b);
      }
      num := num + [ret];
      return Ok;
    }

    /** calc.c:119-175 */
    method OprHandle() returns (code: Code)
      requires Valid() && cur != "" && IsOperator(cur[0])
      requires S.OprHandle(State(), cur[0]).code != Trap
      modifies `num, `opr, `flag
      ensures Valid() && Result(code, State()) == S.OprHandle(old(State()), cur[0])
    {
      PushOperatorValid(State(), cur[0]);
      PushOperatorValid(State().(flag := OPR), cur[0]);
      var c := cur[0];
      if flag == NUM {
        flag := OPR;
      } else {
        match c {
          case '+' => return Ok;
          case '-' =>
            num := num + [0];
            opr := opr + [c];
            return Ok;
          case _ =>
        }
      }
      ghost var goal := PushOperator(State(), c);
      while opr != [] && Level(c) <= Level(Top(opr))
        invariant Valid() && flag == OPR && goal.code != Trap
        invariant PushOperator(State(), c) == goal
        decreases |opr|
      {
        var rc := DoStack();
        if rc.Fail? {
          return Fail(-1);
        }
      }
      opr := opr + [c];
      return Ok;
    }

    /**
     calc.c:177-210. The result of `do_stack` is not looked at, so with fewer
     than two numbers left in front of an operator the source never returns.
     */
    method BracketHandle() returns (code: Code)
      requires Valid() && cur != "" && cur[0] in "()"
      requires S.BracketHandle(State(), cur[0]).code != Trap
      requires S.BracketHandle(State(), cur[0]).code != Hang
      modifies `num, `opr
      ensures Valid() && Result(code, State()) == S.BracketHandle(old(State()), cur[0])
    {
      CloseBracketValid(State());
      var c := cur[0];
      if c == '(' {
        opr := opr + [c];
        return Ok;
      }
      ghost var goal := CloseBracket(State());
      while opr != [] && Top(opr) != '('
        invariant Valid() && goal.code != Trap && goal.code != Hang
        invariant CloseBracket(State()) == goal
        decreases |opr|
      {
        var rc := DoStack();
      }
      if opr == [] {
        return Fail(-1);
      }
      opr := opr[..|opr| - 1];
      return Ok;
    }

    /**
     calc.c:212-278, on a text that neither sends a closing bracket into its
     endless loop nor takes a remainder by zero.
     */
    method CalcMain(expr: string) returns (ret: int)
      requires Valid() && S.Calc(State(), expr) != NoReturn
      modifies this
      ensures Valid() && Returned(ret, State()) == S.Calc(old(State()), expr)
    {
      cur := expr;
      FeedAllValid(State(), expr);
      ghost var goal := FeedAll(State(), expr);
      while cur != ""
        invariant Valid() && goal.code != Trap && goal.code != Hang
        invariant FeedAll(State(), cur) == goal
        decreases |cur|
      {
        FeedValid(State(), cur[0]);
        var c := cur[0];
        var code := Ok;
        if '0' <= c <= '9' {
          NumHandle();
        } else if IsOperator(c) {
          code := OprHandle();
        } else if c in "()" {
          code := BracketHandle();
        } else if !IsBlank(c) {
          return -1;
        }
        if code.Fail? {
          return code.code;
        }
        cur := cur[1..];
      }
      ghost var end := Finish(State());
      while opr != []
        invariant Valid() && end != NoReturn
        invariant Finish(State()) == end
        decreases |opr|
      {
        if Top(opr) == '(' {
          return -3;
        }
        var code := DoStack();
        if code != Ok {
          return -2;
        }
      }
      ret := 0;
      if num != [] {
        ret, num := num[|num| - 1], num[..|num| - 1];
      }
    }
  }

  /** The calculator of test.c: one calculator, several texts. */
  method CalcTwice(first: M.Expr, text1: string, second: M.Expr, text2: string) returns (v1: int, v2: int)
    requires M.WellFormed(first) && M.Defined(first) && M.Strip(text1) == M.Text(first)
    requires M.WellFormed(second) && M.Defined(second) && M.Strip(text2) == M.Text(second)
    requires !A.SignFirst(M.Strip(text2))
    ensures v1 == M.Value(first) && v2 == M.Value(second)
  {
    M.Evaluates(first, text1);
    A.EvaluatesAgain(second, text2);
    hide *;
    var info := new CalcInfo();
    v1 := info.CalcMain(text1);
    v2 := info.CalcMain(text2);
  }
}

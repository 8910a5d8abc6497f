/** The postfix evaluator of `calculate_postfix`: tokens are read left to right over an
    operand stack of integers. An operator pops `op1` (the top) and then `op2`, and pushes
    `op1 OP op2`; so the top of the stack is the LEFT operand, `"3 4 -"` is 4 - 3 and
    `"2 10 /"` is 10 / 2. Division truncates toward zero, as C++ `/` on `int` does, and
    fails when `op2` is 0. Any other token goes through `std::stoi`. The expression yields
    a value only when no step failed and exactly one operand is left. */
module Postfix {
  import opened Wrappers
  import opened Text
  import opened Cells

  datatype Op = Add | Sub | Mul | Div

  /** The four operator tokens `+ - * /`. */
  function OperatorOf(token: string): Option<Op>
  {
    if token == "+" then Some(Add)
    else if token == "-" then Some(Sub)
    else if token == "*" then Some(Mul)
    else if token == "/" then Some(Div)
    else None
  }

  function OpText(op: Op): string
  {
    match op
    case Add => "+"
    case Sub => "-"
    case Mul => "*"
    case Div => "/"
  }

  function Abs(x: int): nat { if x < 0 then -x else x }

  lemma SignedProduct(b: int, q0: int)
    ensures b * q0 == (if b < 0 then -(Abs(b) * q0) else Abs(b) * q0)
    ensures b * -q0 == -(b * q0)
  {
  }

  /** C++ `/` on `int`: the quotient truncated toward zero, so that the remainder
      `a - b * q` is smaller than the divisor and has the sign of the dividend. */
  function TruncDiv(a: int, b: int): (q: int)
    requires b != 0
    ensures Abs(a - b * q) < Abs(b)
    ensures a - b * q == 0 || (a - b * q < 0 <==> a < 0)
  {
    var q0 := Abs(a) / Abs(b);
    var r0 := Abs(a) % Abs(b);
    var p := Abs(b) * q0;
    assert Abs(a) == p + r0 && 0 <= r0 < Abs(b);
    var q := if (a < 0) == (b < 0) then q0 else -q0;
    assert b * q == if a < 0 then -p else p by {
      SignedProduct(b, q0);
    }
    q
  }

  /** One operator applied as the source does: `op1 OP op2`, `op1` being the operand
      popped first. Division by a zero `op2` fails. */
  function Apply(op: Op, op1: int, op2: int): (r: Option<int>)
    ensures r.None? <==> op == Div && op2 == 0
    ensures op == Div && r.Some? ==>
      Abs(op1 - op2 * r.value) < Abs(op2) && (op1 - op2 * r.value == 0 || (op1 - op2 * r.value < 0 <==> op1 < 0))
  {
    match op
    case Add => Some(op1 + op2)
    case Sub => Some(op1 - op2)
    case Mul => Some(op1 * op2)
    case Div => if op2 == 0 then None else Some(TruncDiv(op1, op2))
  }

  /** One iteration of the token loop on the operand stack (top at the end). */
  function Step(stack: seq<int>, token: string): (r: Option<seq<int>>)
    ensures r.None? <==>
      (OperatorOf(token).Some? && (|stack| < 2 || (token == "/" && stack[|stack| - 2] == 0))) ||
      (OperatorOf(token).None? && Stoi(token).None?)
    ensures r.Some? && OperatorOf(token).Some? ==>
      r.value == stack[..|stack| - 2] +
        [Apply(OperatorOf(token).value, stack[|stack| - 1], stack[|stack| - 2]).value]
    ensures r.Some? && OperatorOf(token).None? ==> r.value == stack + [Stoi(token).value]
  {
    match OperatorOf(token)
    case Some(op) =>
      if |stack| < 2 then None
      else
        var op1, op2 := stack[|stack| - 1], stack[|stack| - 2];
        var result := Apply(op, op1, op2);
        if result.None? then None else Some(stack[..|stack| - 2] + [result.value])
    case None =>
      var number := Stoi(token);
      if number.None? then None else Some(stack + [number.value])
  }

  /** The whole token loop: the final stack, or `None` once a step fails. Whatever the
      values, a completed run changes the stack height by the balance of the tokens. */
  function Run(stack: seq<int>, tokens: seq<string>): (r: Option<seq<int>>)
    ensures r.Some? ==> |r.value| == |stack| + Balance(tokens)
    decreases |tokens|
  {
    if tokens == [] then Some(stack)
    else
      match Step(stack, tokens[0])
      case None => None
      case Some(next) => Run(next, tokens[1..])
  }

  /** The value `calculate_postfix` stores for a token sequence. */
  function Evaluate(tokens: seq<string>): (v: CellValue)
    ensures !v.IsEmpty()
    ensures v.Int? ==> Balance(tokens) == 1
  {
    match Run([], tokens)
    case Some(stack) => if |stack| == 1 then Int(stack[0]) else Error
    case None => Error
  }

  /** The value `calculate_postfix` stores for an expression. */
  function PostfixValue(expression: string): (v: CellValue)
    ensures !v.IsEmpty()
    ensures v.Int? ==> Balance(Tokens(expression)) == 1
    ensures Tokens(expression) == [] ==> v == Error
  {
    Evaluate(Tokens(expression))
  }

  /** `calculate_postfix` without its final store: the `std::stack` loop with its
      `error` flag and its `break`s. */
  method EvaluatePostfix(expression: string) returns (v: CellValue)
    ensures v == PostfixValue(expression)
  {
    var tokens := Tokens(expression);
    var operands: seq<int> := [];
    var error := false;
    var i := 0;
    while i < |tokens|
      invariant 0 <= i <= |tokens|
      invariant Run(operands, tokens[i..]) == Run([], tokens)
    {
      var token := tokens[i];
      assert tokens[i..][0] == token && tokens[i..][1..] == tokens[i + 1..];
      ghost var before := operands;
      if token == "+" || token == "-" || token == "*" || token == "/" {
        if |operands| < 2 {
          error := true;
          break;
        }
        var op1 := operands[|operands| - 1];
        operands := operands[..|operands| - 1];
        var op2 := operands[|operands| - 1];
        operands := operands[..|operands| - 1];
        var result: int;
        if token == "+" {
          result := op1 + op2;
        } else if token == "-" {
          result := op1 - op2;
        } else if token == "*" {
          result := op1 * op2;
        } else {
          if op2 == 0 {
            error := true;
            break;
          }
          result := TruncDiv(op1, op2);
        }
        assert operands == before[..|before| - 2];
        operands := operands + [result];
      } else {
        var number := Stoi(token);
        if number.None? {
          error := true;
          break;
        }
        operands := operands + [number.value];
      }
      i := i + 1;
    }
    assert error ==> Run([], tokens) == None;
    assert !error ==> Run([], tokens) == Some(operands);
    v := if |operands| != 1 || error then Error else Int(operands[0]);
  }

  /** Operand tokens minus operator tokens: the net change of the stack height. */
  function Balance(tokens: seq<string>): int
  {
    if tokens == [] then 0
    else (if OperatorOf(tokens[0]).Some? then -1 else 1) + Balance(tokens[1..])
  }

  /** An expression whose operand and operator counts do not leave exactly one operand is
      an error whatever its numbers: the empty expression, `"1 2"`, `"+"`. */
  lemma UnbalancedIsError(tokens: seq<string>)
    requires Balance(tokens) != 1
    ensures Evaluate(tokens) == Error
  {
  }

  /** Running two token sequences one after the other. */
  lemma {:induction false} RunAppend(stack: seq<int>, a: seq<string>, b: seq<string>)
    ensures Run(stack, a + b) ==
      match Run(stack, a)
      case None => None
      case Some(s) => Run(s, b)
    decreases |a|
  {
    if a != [] {
      assert (a + b)[0] == a[0];
      assert (a + b)[1..] == a[1..] + b;
      if Step(stack, a[0]).Some? {
        RunAppend(Step(stack, a[0]).value, a[1..], b);
      }
    } else {
      assert a + b == b;
    }
  }

  /** An arithmetic expression tree, meaning `left OP right` (division by a zero right
      operand has no value). */
  datatype Expr = Lit(n: int) | Bin(op: Op, left: Expr, right: Expr)

  function Value(e: Expr): Option<int>
  {
    match e
    case Lit(n) => Some(n)
    case Bin(op, l, r) =>
      match (Value(l), Value(r))
      case (Some(x), Some(y)) => Apply(op, x, y)
      case _ => None
  }

  /** The postfix text this evaluator reads as `e`: since the operand popped first is the
      left one, the right operand is written before the left. */
  function Emit(e: Expr): seq<string>
  {
    match e
    case Lit(n) => [IntToString(n)]
    case Bin(op, l, r) => Emit(r) + Emit(l) + [OpText(op)]
  }

  lemma IntTokenIsOperand(n: int)
    ensures OperatorOf(IntToString(n)).None?
    ensures Stoi(IntToString(n)) == Some(n)
  {
    StoiOfIntToString(n);
    var s := IntToString(n);
    if |s| == 1 {
      assert IsDigit(s[0]);
    }
  }

  /** An operator token applied to a stack whose top two entries are `x` over `y`. */
  lemma RunOperator(stack: seq<int>, y: int, x: int, op: Op)
    ensures Run(stack + [y, x], [OpText(op)]) ==
      match Apply(op, x, y)
      case None => None
      case Some(v) => Some(stack + [v])
  {
    var s := stack + [y, x];
    assert OperatorOf(OpText(op)) == Some(op);
    assert s[|s| - 1] == x && s[|s| - 2] == y && s[..|s| - 2] == stack;
    assert [OpText(op)][1..] == [];
  }

  /** Running the emitted text of an expression pushes its value, or fails when it has none. */
  lemma {:induction false} RunEmit(stack: seq<int>, e: Expr)
    ensures Run(stack, Emit(e)) ==
      match Value(e)
      case None => None
      case Some(v) => Some(stack + [v])
    decreases e
  {
    match e
    case Lit(n) =>
      IntTokenIsOperand(n);
      assert Emit(e)[1..] == [];
    case Bin(op, l, r) =>
      var er, el := Emit(r), Emit(l);
      assert Emit(e) == (er + el) + [OpText(op)];
      RunAppend(stack, er + el, [OpText(op)]);
      RunAppend(stack, er, el);
      RunEmit(stack, r);
      if Value(r).Some? {
        var sr := stack + [Value(r).value];
        RunEmit(sr, l);
        if Value(l).Some? {
          assert Run(stack, er) == Some(sr);
          assert Run(sr, el) == Some(sr + [Value(l).value]);
          assert sr + [Value(l).value] == stack + [Value(r).value, Value(l).value];
          RunOperator(stack, Value(r).value, Value(l).value, op);
        }
      }
  }

  /** The evaluator agrees with the tree semantics on every expression written out for it. */
  lemma EvaluateEmit(e: Expr)
    ensures Evaluate(Emit(e)) == if Value(e).Some? then Int(Value(e).value) else Error
  {
    RunEmit([], e);
  }

  lemma TokensExample()
    ensures Tokens("3 4 -") == ["3", "4", "-"]
  {
    var ts := ["3", "4", "-"];
    assert IsWord(ts[0]) && IsWord(ts[1]) && IsWord(ts[2]);
    TokensOfJoin(ts);
    assert ts[1..][1..] == ["-"] && ts[1..] == ["4", "-"];
    assert Join(ts) == " 3 4 -";
    assert " 3 4 -"[1..] == "3 4 -";
  }

  /** `"3 4 -"` is 4 - 3: the operand popped first is the left one. */
  lemma SubtractionOrderExample()
    ensures PostfixValue("3 4 -") == Int(1)
  {
    TokensExample();
    var e := Bin(Sub, Lit(4), Lit(3));
    EvaluateEmit(e);
    assert Emit(e) == ["3", "4", "-"];
  }

  /** `"2 10 /"` is 10 / 2. */
  lemma DivisionOrderExample()
    ensures Evaluate(["2", "10", "/"]) == Int(5)
  {
    var e := Bin(Div, Lit(10), Lit(2));
    EvaluateEmit(e);
    assert NatToString(1) == "1";
    assert IntToString(10) == "10";
    assert Emit(e) == ["2", "10", "/"];
  }

  /** `"0 5 /"` fails: the zero test is on the operand popped second. */
  lemma ZeroDivisorExample()
    ensures Evaluate(["0", "5", "/"]) == Error
  {
    var e := Bin(Div, Lit(5), Lit(0));
    EvaluateEmit(e);
    assert Emit(e) == ["0", "5", "/"];
  }

  /** `"2 -7 /"` is -7 / 2, truncated toward zero to -3 (not floored to -4). */
  lemma TruncationExample()
    ensures Evaluate(["2", "-7", "/"]) == Int(-3)
  {
    var e := Bin(Div, Lit(-7), Lit(2));
    EvaluateEmit(e);
    assert NatToString(7) == "7";
    assert IntToString(-7) == "-7";
    assert Emit(e) == ["2", "-7", "/"];
  }

  /** Too many operands, too few, or none at all: errors. */
  lemma MalformedExamples()
    ensures Evaluate(["1", "2"]) == Error
    ensures Evaluate(["+"]) == Error
    ensures Evaluate([]) == Error
  {
    IntTokenIsOperand(1);
    IntTokenIsOperand(2);
    assert IntToString(1) == "1" && IntToString(2) == "2";
    UnbalancedIsError(["1", "2"]);
    UnbalancedIsError(["+"]);
    UnbalancedIsError([]);
  }

  /** `stoi` reads the leading digits of `"3x"` and ignores the rest. */
  lemma TrailingJunkExample()
    ensures Evaluate(["3x"]) == Int(3)
  {
    assert DigitRun("3x") == 1 by {
      assert "3x"[1..] == "x";
    }
    assert "3x"[..1] == "3";
    IntTokenIsOperand(3);
    assert IntToString(3) == "3";
    StoiOfDigits("3");
    var r := Step([], "3x");
    assert r.value == [] + [3];
    assert r.value == [3];
    assert r == Some([3]);
    assert ["3x"][1..] == [];
  }

  /** The marker `"#ERR"` that the resolver writes into a formula evaluates to an error. */
  lemma ErrorMarkerIsError()
    ensures PostfixValue("#ERR") == Error
  {
    assert "#ERR" + "" == "#ERR";
    WordThenSpace("#ERR", "");
    assert Stoi("#ERR").None?;
  }
}

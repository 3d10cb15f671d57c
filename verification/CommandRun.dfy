/** `struct context` of navit/command.c and the eval functions that move its cursor. */
module CommandRun {
  import opened Basics
  import opened CommandEval

  class Context {
    const text: string
    var expr: nat
    var error: Error

    constructor (text: string)
      ensures this.text == text && expr == 0 && error == NoError
    {
      this.text, expr, error := text, 0, NoError;
    }

    ghost predicate Valid()
      reads this
    {
      expr <= |text|
    }

    /** The state and result that `r` describes; after an error the cursor does not matter. */
    ghost predicate Leaves(r: Outcome, val: int)
      reads this
    {
      && expr <= |text| && error == r.error
      && (error == NoError ==> val == r.val && expr == r.pos)
    }

    /** The whitespace loop of `get_op`. */
    method Skip()
      requires Valid()
      modifies `expr
      ensures expr == SkipSpace(text, old(expr))
    {
      while IsSpace(Peek(text, expr))
        invariant expr <= |text| && SkipSpace(text, expr) == SkipSpace(text, old(expr))
        decreases |text| - expr
      {
        expr := expr + 1;
      }
    }

    /** `get_op` with a list of operators. */
    method GetOp(ops: seq<Op>) returns (ret: Option<Op>)
      requires Valid()
      modifies `expr
      ensures var q := SkipSpace(text, old(expr));
        && ret == FirstOf(text, q, ops)
        && expr == (if ret.Some? then q + |Spell(ret.value)| else q) <= |text|
    {
      hide SkipSpace, Spell;
      Skip();
      ghost var q := expr;
      var i := 0;
      assert ops[0..] == ops;
      while i < |ops|
        invariant 0 <= i <= |ops| && expr == q
        invariant FirstOf(text, q, ops) == FirstOf(text, q, ops[i..])
      {
        assert ops[i..][0] == ops[i] && ops[i..][1..] == ops[i+1..];
        if Starts(text, expr, Spell(ops[i])) {
          expr := expr + |Spell(ops[i])|;
          return Some(ops[i]);
        }
        i := i + 1;
      }
      ret := None;
    }

    /** `get_op` that only tests. */
    method Test(op: string) returns (found: bool)
      requires Valid()
      modifies `expr
      ensures expr == SkipSpace(text, old(expr)) && found == Starts(text, expr, op)
    {
      Skip();
      found := Starts(text, expr, op);
    }

    /** `get_op` for a single character. */
    method GetChar(c: char) returns (found: bool)
      requires Valid() && c != '\0'
      modifies `expr
      ensures var q := SkipSpace(text, old(expr));
        found == (Peek(text, q) == c) && expr == (if found then q + 1 else q) <= |text|
    {
      Skip();
      found := Peek(text, expr) == c;
      if found {
        expr := expr + 1;
      }
    }

    /** `eval_value`. */
    method EvalValue() returns (val: int)
      requires Valid() && error == NoError
      modifies this
      ensures Leaves(Value(text, old(expr)), val)
    {
      hide SkipSpace, DigitsValue;
      val := 0;
      var op := expr;
      while IsSpace(Peek(text, op))
        invariant expr == old(expr) <= op <= |text| && SkipSpace(text, op) == SkipSpace(text, expr) && error == NoError
        decreases |text| - op
      {
        SpaceNext(text, op);
        op := op + 1;
      }
      SpaceNext(text, op);
      ghost var q := op;
      if IsName(Peek(text, op)) || Peek(text, op) == '"' {
        error := Unmodelled;
        return;
      }
      var negative := Peek(text, op) == '-';
      var digits := if negative then op + 1 else op;
      if !IsDigit(Peek(text, digits)) {
        error := if Peek(text, digits) == '.' && IsDigit(Peek(text, digits + 1)) then Unmodelled else IllegalCharacter;
        return;
      }
      op := digits;
      while IsDigit(Peek(text, op))
        invariant expr == old(expr) && error == NoError && digits <= op <= |text| && SkipDigits(text, op) == SkipDigits(text, digits)
        decreases |text| - op
      {
        op := op + 1;
      }
      if Peek(text, op) == '.' {
        error := Unmodelled;
        return;
      }
      var n: int := DigitsValue(text[digits..op]);
      val := if negative then -n else n;
      if !IsInt(val) {
        error := Undefined;
        return;
      }
      expr := op;
    }

    /** `eval_brace`. */
    method EvalBrace() returns (val: int)
      requires Valid() && error == NoError
      modifies this
      ensures Leaves(Brace(text, old(expr)), val)
      decreases |text| - expr, 0
    {
      hide SkipSpace, Comma, Value;
      var open := GetChar('(');
      if open {
        val := EvalComma();
        if error != NoError {
          return;
        }
        var close := GetChar(')');
        if !close {
          error := MissingClosingBrace;
        }
      } else {
        val := EvalValue();
      }
    }

    /** `eval_postfix`. */
    method EvalPostfix() returns (val: int)
      requires Valid() && error == NoError
      modifies this
      ensures Leaves(Postfix(text, old(expr)), val)
      decreases |text| - expr, 1
    {
      hide SkipSpace, Brace, Suffixes;
      ghost var start := expr;
      val := EvalBrace();
      if error != NoError {
        return;
      }
      ghost var whole := Postfix(text, start);
      while true
        invariant Valid() && error == NoError && start < expr && IsInt(val)
        invariant Suffixes(text, expr, val) == whole
        decreases |text| - expr
      {
        SuffixesIs(text, expr, val);
        SkipTwice(text, expr);
        var index := GetChar('[');
        if index {
          var close := GetChar(']');
          if !close {
            error := MissingClosingBracket;
            return;
          }
        } else {
          var call := GetChar('(');
          if call {
            error := Unmodelled;
            return;
          }
          SkipTwice(text, expr);
          var dot := GetChar('.');
          if !dot {
            return;
          }
          var tmp := EvalBrace();
          if error != NoError {
            return;
          }
        }
      }
    }

    /** `eval_unary`. */
    method EvalUnary() returns (val: int)
      requires Valid() && error == NoError
      modifies this
      ensures Leaves(Unary(text, old(expr)), val)
      decreases |text| - expr, 2
    {
      hide SkipSpace, Postfix;
      Skip();
      var op := Peek(text, expr);
      if op == '~' || op == '!' {
        expr := expr + 1;
        val := EvalUnary();
        if error != NoError {
          return;
        }
        val := if op == '~' then -val - 1 else Truth(val == 0);
      } else {
        val := EvalPostfix();
      }
    }

    /** `eval_multiplicative`, `eval_additive`, `eval_equality`, `eval_bitwise_and`, `eval_bitwise_xor`,
        `eval_bitwise_or`, `eval_logical_and` and `eval_logical_or`: one loop each, over the operators
        of their level. */
    method EvalChain(k: nat) returns (val: int)
      requires Valid() && error == NoError && LOWEST <= k <= UNARY
      modifies this
      ensures Leaves(Chain(k, text, old(expr)), val)
      decreases |text| - expr, 3 + UNARY - k
    {
      hide SkipSpace, Unary, Loop, Chain, Apply, NextOp;
      ghost var start := expr;
      ChainIs(k, text, start);
      if k == UNARY {
        val := EvalUnary();
        return;
      }
      val := EvalChain(k + 1);
      if error != NoError {
        return;
      }
      ghost var whole := Chain(k, text, start);
      while true
        invariant Valid() && error == NoError && start < expr && IsInt(val)
        invariant Loop(k, text, expr, val) == whole
        decreases |text| - expr
      {
        LoopIs(k, text, expr, val);
        var op := NextOperator(k);
        if op.None? {
          return;
        }
        var tmp := EvalChain(k + 1);
        if error != NoError {
          return;
        }
        var r := Apply(op.value, val, tmp);
        if r.None? {
          error := Undefined;
          return;
        }
        val := r.value;
      }
    }

    /** The calls of `get_op` in the loop of one level. */
    method NextOperator(k: nat) returns (op: Option<Op>)
      requires Valid()
      modifies `expr
      ensures var q := SkipSpace(text, old(expr));
        op == NextOp(text, q, k) && expr == (if op.Some? then q + |Spell(op.value)| else q) <= |text|
    {
      hide SkipSpace, Spell, FirstOf;
      SkipTwice(text, expr);
      if k == 7 || k == 5 {
        var logical := Test(if k == 7 then "&&" else "||");
        if logical {
          return None;
        }
      }
      op := GetOp(Candidates(k));
    }

    /** `eval_conditional`. */
    method EvalConditional() returns (val: int)
      requires Valid() && error == NoError
      modifies this
      ensures Leaves(Conditional(text, old(expr)), val)
      decreases |text| - expr, 20
    {
      hide SkipSpace, Chain;
      val := EvalChain(LOWEST);
      if error != NoError {
        return;
      }
      var question := GetChar('?');
      if !question {
        return;
      }
      var cond := val != 0;
      var tmp := EvalChain(LOWEST);
      if error != NoError {
        return;
      }
      if cond {
        val := tmp;
      }
      var colon := GetChar(':');
      if !colon {
        error := MissingColon;
        return;
      }
      tmp := EvalChain(LOWEST);
      if error != NoError {
        return;
      }
      if !cond {
        val := tmp;
      }
    }

    /** `eval_assignment`. */
    method EvalAssignment() returns (val: int)
      requires Valid() && error == NoError
      modifies this
      ensures Leaves(Assignment(text, old(expr)), val)
      decreases |text| - expr, 21
    {
      hide SkipSpace, Conditional;
      val := EvalConditional();
      if error != NoError {
        return;
      }
      var assign := GetChar('=');
      if assign {
        error := Unmodelled;
      }
    }

    /** `eval_comma`. */
    method EvalComma() returns (val: int)
      requires Valid() && error == NoError
      modifies this
      ensures Leaves(Comma(text, old(expr)), val)
      decreases |text| - expr, 22
    {
      hide SkipSpace, Assignment;
      ghost var start := expr;
      val := EvalAssignment();
      if error != NoError {
        return;
      }
      ghost var whole := Comma(text, start);
      while true
        invariant Valid() && error == NoError && start < expr
        invariant whole == var q := SkipSpace(text, expr); if Peek(text, q) == ',' then Comma(text, q + 1) else Outcome(val, NoError, q)
        decreases |text| - expr
      {
        var comma := GetChar(',');
        if !comma {
          return;
        }
        val := EvalAssignment();
        if error != NoError {
          return;
        }
      }
    }
  }

  lemma {:induction false} SpaceNext(s: string, p: nat)
    requires p <= |s|
    ensures if IsSpace(Peek(s, p)) then p < |s| && SkipSpace(s, p) == SkipSpace(s, p + 1) else SkipSpace(s, p) == p
  {
  }

  lemma {:induction false} SkipTwice(s: string, p: nat)
    requires p <= |s|
    ensures SkipSpace(s, SkipSpace(s, p)) == SkipSpace(s, p)
  {
  }

  lemma {:induction false} ChainIs(k: nat, s: string, p: nat)
    requires p <= |s| && LOWEST <= k <= UNARY
    ensures k == UNARY ==> Chain(k, s, p) == Unary(s, p)
    ensures k < UNARY ==> var r := Chain(k + 1, s, p);
      Chain(k, s, p) == if r.error != NoError then r else Loop(k, s, r.pos, r.val)
  {
    hide Unary, Loop;
  }

  lemma {:induction false} SuffixesIs(s: string, p: nat, v: int)
    requires p <= |s| && IsInt(v)
    ensures var q := SkipSpace(s, p);
      Suffixes(s, p, v) ==
        if Peek(s, q) == '[' then
          var c := SkipSpace(s, q + 1);
          if Peek(s, c) == ']' then Suffixes(s, c + 1, v) else Outcome(0, MissingClosingBracket, c)
        else if Peek(s, q) == '(' then Outcome(0, Unmodelled, q)
        else if Peek(s, q) == '.' then
          var r := Brace(s, q + 1);
          if r.error != NoError then r else Suffixes(s, r.pos, v)
        else Outcome(v, NoError, q)
  {
    hide Brace, SkipSpace;
  }

  lemma {:induction false} LoopIs(k: nat, s: string, p: nat, v: int)
    requires p <= |s| && LOWEST <= k < UNARY && IsInt(v)
    ensures var q := SkipSpace(s, p);
      Loop(k, s, p, v) ==
        match NextOp(s, q, k)
        case None => Outcome(v, NoError, q)
        case Some(op) =>
          var r := Chain(k + 1, s, q + |Spell(op)|);
          if r.error != NoError then r
          else
            match Apply(op, v, r.val)
            case None => Outcome(0, Undefined, r.pos)
            case Some(w) => Loop(k, s, r.pos, w)
  {
    hide Chain, Apply, NextOp, SkipSpace;
  }
}

/** The expression evaluator of navit/command.c on integer expressions: recursive functions that
    move a cursor over the text. */
module CommandEval {
  import opened Basics

  const INT_MIN := -0x8000_0000
  const INT_MAX := 0x7fff_ffff

  predicate IsInt(n: int) { INT_MIN <= n <= INT_MAX }

  /** `enum error`, with two more for what this model leaves to others: objects, strings and doubles
      (`Unmodelled`), and arithmetic that C leaves undefined or that traps (`Undefined`). */
  datatype Error = NoError | MissingClosingBrace | MissingClosingBracket | MissingColon | IllegalCharacter | Unmodelled | Undefined

  datatype Op = Mul | Div | Rem | Sub | Add | Equal | NotEqual | LessEqual | GreaterEqual | Less | Greater
              | BitAnd | BitXor | BitOr | LogAnd | LogOr

  function Spell(op: Op): string {
    match op
    case Mul => "*"
    case Div => "/"
    case Rem => "%"
    case Sub => "-"
    case Add => "+"
    case Equal => "=="
    case NotEqual => "!="
    case LessEqual => "<="
    case GreaterEqual => ">="
    case Less => "<"
    case Greater => ">"
    case BitAnd => "&"
    case BitXor => "^"
    case BitOr => "|"
    case LogAnd => "&&"
    case LogOr => "||"
  }

  const CONDITIONAL := 2
  const LOWEST := 3
  const UNARY := 11

  /** How tightly an operator binds: the position of its function in the chain of eval functions. */
  function Level(op: Op): (k: nat)
    ensures LOWEST <= k < UNARY
  {
    match op
    case LogOr => 3
    case LogAnd => 4
    case BitOr => 5
    case BitXor => 6
    case BitAnd => 7
    case Mul => 10
    case Div => 10
    case Rem => 10
    case Sub => 9
    case Add => 9
    case _ => 8
  }

  // Arithmetic

  /** C division rounds toward zero. */
  function Quotient(a: int, b: int): int
    requires b != 0
  {
    if a >= 0 then (if b > 0 then a / b else -(a / -b)) else (if b > 0 then -(-a / b) else -a / -b)
  }

  function Remainder(a: int, b: int): int
    requires b != 0
  {
    a - Quotient(a, b) * b
  }

  function Truth(b: bool): int { if b then 1 else 0 }

  function Pow2(w: nat): nat { if w == 0 then 1 else 2 * Pow2(w - 1) }

  function BitOf(op: Op, a: bool, b: bool): bool {
    if op == BitAnd then a && b else if op == BitXor then a != b else a || b
  }

  /** A bitwise operator on the `w` low bits of two numbers. */
  function Bits(op: Op, x: nat, y: nat, w: nat): (r: nat)
    ensures r < Pow2(w)
  {
    if w == 0 then 0
    else Truth(BitOf(op, x % 2 == 1, y % 2 == 1)) + 2 * Bits(op, x / 2, y / 2, w - 1)
  }

  const WORD := 0x1_0000_0000

  lemma {:induction false} WordIs()
    ensures Pow2(32) == WORD
  {
    assert Pow2(8) == 256;
    assert Pow2(16) == 65536;
    assert Pow2(24) == 0x100_0000;
  }

  /** A bitwise operator on two ints in two's complement. */
  function Bitwise(op: Op, a: int, b: int): (r: int)
    ensures IsInt(r)
  {
    WordIs();
    var u := Bits(op, a % WORD, b % WORD, 32);
    if u <= INT_MAX then u else u - WORD
  }

  function Bit(n: nat, i: nat): bool {
    if i == 0 then n % 2 == 1 else Bit(n / 2, i - 1)
  }

  lemma {:induction false} BitsBit(op: Op, x: nat, y: nat, w: nat, i: nat)
    requires i < w
    ensures Bit(Bits(op, x, y, w), i) == BitOf(op, Bit(x, i), Bit(y, i))
  {
    hide BitOf;
    var low, high: nat := Truth(BitOf(op, x % 2 == 1, y % 2 == 1)), Bits(op, x / 2, y / 2, w - 1);
    assert (low + 2 * high) % 2 == low && (low + 2 * high) / 2 == high;
    if i > 0 {
      BitsBit(op, x / 2, y / 2, w - 1, i - 1);
    }
  }

  /** Each of the 32 bits of the result is the operator on the bits of the operands. */
  lemma {:induction false} BitwiseBit(op: Op, a: int, b: int, i: nat)
    requires i < 32
    ensures Bit(Bitwise(op, a, b) % WORD, i) == BitOf(op, Bit(a % WORD, i), Bit(b % WORD, i))
  {
    hide Bit, BitOf, Bits;
    WordIs();
    BitsBit(op, a % WORD, b % WORD, 32, i);
  }

  /** The quotient is the exact one with its fraction cut off: the remainder is smaller than the
      divisor and has the sign of the dividend. */
  lemma {:induction false} DivisionTruncates(a: int, b: int)
    requires b != 0
    ensures var q, r := Quotient(a, b), Remainder(a, b);
      && a == q * b + r && -Abs(b) < r < Abs(b) && (a >= 0 ==> r >= 0) && (a <= 0 ==> r <= 0)
  {
    var m, n := Abs(a), Abs(b);
    DivMod(m, n);
    Signs(m / n, n);
  }

  lemma {:induction false} DivMod(m: nat, n: nat)
    requires n > 0
    ensures 0 <= m - m / n * n < n
  {
  }

  lemma {:induction false} Signs(q: int, n: int)
    ensures -q * -n == q * n && -q * n == -(q * n) && q * -n == -(q * n)
  {
  }

  function Abs(n: int): int { if n >= 0 then n else -n }

  function Checked(n: int): Option<int> { if IsInt(n) then Some(n) else None }

  /** A binary operator on two ints; None where C gives no value. */
  function Apply(op: Op, a: int, b: int): (r: Option<int>)
    requires IsInt(a) && IsInt(b)
    ensures r.Some? ==> IsInt(r.value)
  {
    match op
    case Mul => Checked(a * b)
    case Div => if b == 0 then None else Checked(Quotient(a, b))
    case Rem => if b == 0 || !IsInt(Quotient(a, b)) then None else Checked(Remainder(a, b))
    case Sub => Checked(a - b)
    case Add => Checked(a + b)
    case Equal => Some(Truth(a == b))
    case NotEqual => Some(Truth(a != b))
    case LessEqual => Some(Truth(a <= b))
    case GreaterEqual => Some(Truth(a >= b))
    case Less => Some(Truth(a < b))
    case Greater => Some(Truth(a > b))
    case BitAnd => Some(Bitwise(op, a, b))
    case BitXor => Some(Bitwise(op, a, b))
    case BitOr => Some(Bitwise(op, a, b))
    case LogAnd => Some(Truth(a != 0 && b != 0))
    case LogOr => Some(Truth(a != 0 || b != 0))
  }

  // Reading the text

  predicate IsSpace(c: char) { c == ' ' || c == '\t' || c == '\n' || c == '\r' || c == '\U{000C}' }

  function SkipSpace(s: string, p: nat): (q: nat)
    requires p <= |s|
    ensures p <= q <= |s| && !IsSpace(Peek(s, q)) && forall i :: p <= i < q ==> IsSpace(s[i])
    decreases |s| - p
  {
    if IsSpace(Peek(s, p)) then SkipSpace(s, p + 1) else p
  }

  /** `strncmp` of an operator against the text at `p`. */
  predicate Starts(s: string, p: nat, op: string)
    requires p <= |s|
  {
    p + |op| <= |s| && s[p..p+|op|] == op
  }

  /** The operators each function of the chain looks for, in the order in which it tries them. */
  function Candidates(k: nat): seq<Op> {
    if k == 10 then [Mul, Div, Rem]
    else if k == 9 then [Sub, Add]
    else if k == 8 then [Equal, NotEqual, LessEqual, GreaterEqual, Less, Greater]
    else if k == 7 then [BitAnd]
    else if k == 6 then [BitXor]
    else if k == 5 then [BitOr]
    else if k == 4 then [LogAnd]
    else if k == 3 then [LogOr]
    else []
  }

  function FirstOf(s: string, p: nat, ops: seq<Op>): (r: Option<Op>)
    requires p <= |s|
    ensures r.Some? ==> r.value in ops && Starts(s, p, Spell(r.value))
  {
    if ops == [] then None else if Starts(s, p, Spell(ops[0])) then Some(ops[0]) else FirstOf(s, p, ops[1..])
  }

  /** The operator of level `k` at `p`; the bitwise functions first make sure not to see half of a
      logical operator. */
  function NextOp(s: string, p: nat, k: nat): (r: Option<Op>)
    requires p <= |s|
    ensures r.Some? ==> Starts(s, p, Spell(r.value)) && p < p + |Spell(r.value)| <= |s|
  {
    if k == 7 && Starts(s, p, "&&") then None
    else if k == 5 && Starts(s, p, "||") then None
    else FirstOf(s, p, Candidates(k))
  }

  /** What evaluating leaves behind: the value, the error, and the cursor. */
  datatype Outcome = Outcome(val: int, error: Error, pos: nat)

  predicate Fine(r: Outcome, s: string, p: nat) {
    p <= r.pos <= |s| && IsInt(r.val)
  }

  predicate IsName(c: char) { 'a' <= c <= 'z' || c == '_' }

  /** `eval_value`, for a number without a dot; other values are not part of this model. */
  function Value(s: string, p: nat): (r: Outcome)
    requires p <= |s|
    ensures Fine(r, s, p) && (r.error == NoError ==> p < r.pos)
  {
    var q := SkipSpace(s, p);
    var digits := if Peek(s, q) == '-' then q + 1 else q;
    if IsName(Peek(s, q)) || Peek(s, q) == '"' then Outcome(0, Unmodelled, q)
    else if IsDigit(Peek(s, digits)) then
      var e := SkipDigits(s, digits);
      var n: int := DigitsValue(s[digits..e]);
      var v: int := if Peek(s, q) == '-' then -n else n;
      if Peek(s, e) == '.' then Outcome(0, Unmodelled, q)
      else if !IsInt(v) then Outcome(0, Undefined, q)
      else Outcome(v, NoError, e)
    else if Peek(s, digits) == '.' && IsDigit(Peek(s, digits + 1)) then Outcome(0, Unmodelled, q)
    else Outcome(0, IllegalCharacter, q)
  }

  /** `eval_brace`. */
  function Brace(s: string, p: nat): (r: Outcome)
    requires p <= |s|
    ensures Fine(r, s, p) && (r.error == NoError ==> p < r.pos)
    decreases |s| - p, 0
  {
    var q := SkipSpace(s, p);
    if Peek(s, q) == '(' then
      var r := Comma(s, q + 1);
      if r.error != NoError then r
      else
        var c := SkipSpace(s, r.pos);
        if Peek(s, c) == ')' then Outcome(r.val, NoError, c + 1) else Outcome(0, MissingClosingBrace, c)
    else Value(s, q)
  }

  /** `eval_postfix`. */
  function Postfix(s: string, p: nat): (r: Outcome)
    requires p <= |s|
    ensures Fine(r, s, p) && (r.error == NoError ==> p < r.pos)
    decreases |s| - p, 1
  {
    var r := Brace(s, p);
    if r.error != NoError then r else Suffixes(s, r.pos, r.val)
  }

  /** The loop of `eval_postfix` on an integer: "[ ]" is read and dropped, and so is an operand behind
      a "."; neither changes the value.  Function calls are not part of this model. */
  function Suffixes(s: string, p: nat, v: int): (r: Outcome)
    requires p <= |s| && IsInt(v)
    ensures Fine(r, s, p)
    decreases |s| - p, 1
  {
    var q := SkipSpace(s, p);
    if Peek(s, q) == '[' then
      var c := SkipSpace(s, q + 1);
      if Peek(s, c) == ']' then Suffixes(s, c + 1, v) else Outcome(0, MissingClosingBracket, c)
    else if Peek(s, q) == '(' then Outcome(0, Unmodelled, q)
    else if Peek(s, q) == '.' then
      var r := Brace(s, q + 1);
      if r.error != NoError then r else Suffixes(s, r.pos, v)
    else Outcome(v, NoError, q)
  }

  /** `eval_unary`. */
  function Unary(s: string, p: nat): (r: Outcome)
    requires p <= |s|
    ensures Fine(r, s, p) && (r.error == NoError ==> p < r.pos)
    decreases |s| - p, 2
  {
    var q := SkipSpace(s, p);
    if Peek(s, q) == '~' || Peek(s, q) == '!' then
      var r := Unary(s, q + 1);
      if r.error != NoError then r
      else if Peek(s, q) == '~' then Outcome(-r.val - 1, NoError, r.pos)
      else Outcome(Truth(r.val == 0), NoError, r.pos)
    else Postfix(s, q)
  }

  /** The functions from `eval_multiplicative` down to `eval_logical_or`: an operand of the next
      level, and then more of them as long as an operator of this level follows. */
  function Chain(k: nat, s: string, p: nat): (r: Outcome)
    requires p <= |s| && LOWEST <= k <= UNARY
    ensures Fine(r, s, p) && (r.error == NoError ==> p < r.pos)
    decreases |s| - p, 3 + UNARY - k
  {
    if k == UNARY then Unary(s, p)
    else
      var r := Chain(k + 1, s, p);
      if r.error != NoError then r else Loop(k, s, r.pos, r.val)
  }

  function Loop(k: nat, s: string, p: nat, v: int): (r: Outcome)
    requires p <= |s| && LOWEST <= k < UNARY && IsInt(v)
    ensures Fine(r, s, p)
    decreases |s| - p, 0
  {
    var q := SkipSpace(s, p);
    match NextOp(s, q, k)
    case None => Outcome(v, NoError, q)
    case Some(op) =>
      var r := Chain(k + 1, s, q + |Spell(op)|);
      if r.error != NoError then r
      else
        match Apply(op, v, r.val)
        case None => Outcome(0, Undefined, r.pos)
        case Some(w) => Loop(k, s, r.pos, w)
  }

  /** `eval_conditional`: both alternatives are evaluated. */
  function Conditional(s: string, p: nat): (r: Outcome)
    requires p <= |s|
    ensures Fine(r, s, p) && (r.error == NoError ==> p < r.pos)
    decreases |s| - p, 20
  {
    var c := Chain(LOWEST, s, p);
    if c.error != NoError then c
    else
      var q := SkipSpace(s, c.pos);
      if Peek(s, q) != '?' then Outcome(c.val, NoError, q)
      else
        var a := Chain(LOWEST, s, q + 1);
        if a.error != NoError then a
        else
          var m := SkipSpace(s, a.pos);
          if Peek(s, m) != ':' then Outcome(0, MissingColon, m)
          else
            var b := Chain(LOWEST, s, m + 1);
            if b.error != NoError then b else Outcome(if c.val != 0 then a.val else b.val, NoError, b.pos)
  }

  /** `eval_assignment`; assigning is not part of this model. */
  function Assignment(s: string, p: nat): (r: Outcome)
    requires p <= |s|
    ensures Fine(r, s, p) && (r.error == NoError ==> p < r.pos)
    decreases |s| - p, 21
  {
    var r := Conditional(s, p);
    if r.error != NoError then r
    else
      var q := SkipSpace(s, r.pos);
      if Peek(s, q) == '=' then Outcome(0, Unmodelled, q) else Outcome(r.val, NoError, q)
  }

  /** `eval_comma`: the value is that of the last expression. */
  function Comma(s: string, p: nat): (r: Outcome)
    requires p <= |s|
    ensures Fine(r, s, p) && (r.error == NoError ==> p < r.pos)
    decreases |s| - p, 22
  {
    var r := Assignment(s, p);
    if r.error != NoError then r
    else
      var q := SkipSpace(s, r.pos);
      if Peek(s, q) == ',' then Comma(s, q + 1) else Outcome(r.val, NoError, q)
  }
}

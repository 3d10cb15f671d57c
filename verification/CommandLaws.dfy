/** What expressions of navit/command.c that are written out come to: for each operator the arithmetic
    of its result, from the text to the value. */
module CommandLaws {
  import opened Basics
  import opened CommandEval
  import opened CommandRun
  import opened CommandTree

  function Number(x: int): Tree { Lit("", Numeral(x)) }

  lemma {:induction false} NumberMeans(x: int)
    requires IsInt(x)
    ensures WellFormed(Number(x)) && Meaning(Number(x)) == Some(x) && Text(Number(x)) == Numeral(x) && Prec(Number(x)) == OPERAND
  {
    assert "" + Numeral(x) == Numeral(x);
  }

  /** The evaluator has read all of `s`, and the value is `v`. */
  predicate Gives(s: string, v: int) { Comma(s, 0) == Outcome(v, NoError, |s|) }

  /** C gives the expression no value. */
  predicate NoValue(s: string) { Comma(s, 0).error == Undefined }

  lemma {:induction false} TreeGives(e: Tree)
    requires WellFormed(e) && Meaning(e).Some?
    ensures Gives(Text(e), Meaning(e).value)
  {
    hide Text, WellFormed, Meaning, Comma, Spaces;
    NoSpaces();
    EvaluatesTree(e, "");
    assert Text(e) + "" == Text(e);
  }

  // Two numbers and an operator

  lemma {:induction false} BinaryParts(x: int, op: Op, y: int)
    requires IsInt(x) && IsInt(y)
    ensures var e := Bin(op, Number(x), "", Number(y));
      WellFormed(e) && Meaning(e) == Apply(op, x, y) && Text(e) == Numeral(x) + Spell(op) + Numeral(y) && Prec(e) == Level(op)
  {
    hide Spell, Level, Apply, Numeral, Text, Spaces;
    NoSpaces();
    NumberMeans(x);
    NumberMeans(y);
    BinText(op, Number(x), Number(y));
  }

  lemma {:induction false} BinText(op: Op, l: Tree, r: Tree)
    ensures Text(Bin(op, l, "", r)) == Text(l) + Spell(op) + Text(r)
  {
    hide Spell;
    assert "" + (Spell(op) + Text(r)) == Spell(op) + Text(r);
  }

  lemma {:induction false} Simple(x: int, op: Op, y: int)
    requires IsInt(x) && IsInt(y)
    ensures var s, v := Numeral(x) + Spell(op) + Numeral(y), Apply(op, x, y);
      if v.Some? then Gives(s, v.value) else NoValue(s)
  {
    hide Spell, Level, Apply, Numeral, Text, Meaning, WellFormed, Gives, Comma;
    BinaryParts(x, op, y);
    if Apply(op, x, y).Some? {
      TreeGives(Bin(op, Number(x), "", Number(y)));
    } else {
      Undefines(x, op, y);
    }
  }

  /** The operands are read, and then their level has no value to go on with. */
  lemma {:induction false} Undefines(x: int, op: Op, y: int)
    requires IsInt(x) && IsInt(y) && Apply(op, x, y) == None
    ensures NoValue(Numeral(x) + Spell(op) + Numeral(y))
  {
    hide Spell, Level, Apply, Numeral, Comma, Chain, Loop, NextOp, SkipSpace;
    var s := Numeral(x) + Spell(op) + Numeral(y);
    var m := |Numeral(x)|;
    Between(x, op, y);
    LeftRead(x, op, y);
    RightRead(x, op, y);
    LoopIs(Level(op), s, m, x);
    Sinks(Level(op), s);
  }

  lemma {:induction false} Between(x: int, op: Op, y: int)
    requires IsInt(y)
    ensures var s, m := Numeral(x) + Spell(op) + Numeral(y), |Numeral(x)|;
      && SkipSpace(s, m) == m && NextOp(s, m, Level(op)) == Some(op) && Follow(Level(op) + 1, s, m)
      && Has(s, 0, m, Numeral(x)) && Has(s, m + |Spell(op)|, |s|, Numeral(y))
  {
    hide *;
    var s, m := Numeral(x) + Spell(op) + Numeral(y), |Numeral(x)|;
    NoSpaces();
    NumberMeans(y);
    Sections(s, Numeral(x), Spell(op), Numeral(y));
    TextStarts(Number(y));
    OperatorFollows(s, m, |s|, "", op, Numeral(y));
  }

  lemma {:induction false} LeftRead(x: int, op: Op, y: int)
    requires IsInt(x) && IsInt(y)
    ensures var s, m := Numeral(x) + Spell(op) + Numeral(y), |Numeral(x)|;
      Chain(Level(op), s, 0) == Loop(Level(op), s, m, x)
  {
    hide *;
    var s, m, k := Numeral(x) + Spell(op) + Numeral(y), |Numeral(x)|, Level(op);
    Levels();
    Tightest(k);
    Between(x, op, y);
    NumberMeans(x);
    SpelledIs(Number(x), s, 0, m);
    ReadsText(Number(x), k, s, 0, m);
    ReadsIs(Number(x), k, s, 0, m);
  }

  lemma {:induction false} RightRead(x: int, op: Op, y: int)
    requires IsInt(x) && IsInt(y)
    ensures var s, a := Numeral(x) + Spell(op) + Numeral(y), |Numeral(x)| + |Spell(op)|;
      Chain(Level(op) + 1, s, a) == Outcome(y, NoError, |s|)
  {
    hide *;
    var s, a, k := Numeral(x) + Spell(op) + Numeral(y), |Numeral(x)| + |Spell(op)|, Level(op) + 1;
    Levels();
    Tightest(k);
    Between(x, op, y);
    NumberMeans(y);
    AtEnd(s);
    StopsFollow(s, |s|);
    SuccOrder(k);
    FollowUp(LOWEST, Succ(k), s, |s|);
    FollowUp(LOWEST, k, s, |s|);
    SpelledIs(Number(y), s, a, |s|);
    ReadsText(Number(y), k, s, a, |s|);
    FullRead(Number(y), k, s, a, |s|);
  }

  lemma {:induction false} Tightest(k: nat)
    ensures k <= UNARY ==> OPERAND >= k
  {
  }

  lemma {:induction false} Sections(s: string, a: string, b: string, c: string)
    requires s == a + b + c
    ensures Has(s, 0, |a|, a) && Has(s, |a|, |s|, "" + (b + c)) && Has(s, |a| + |b|, |s|, c)
  {
  }

  lemma {:induction false} AtEnd(s: string)
    ensures SkipSpace(s, |s|) == |s| && Stops(s, |s|)
  {
  }

  /** An error of one level is an error of every function that has called it. */
  lemma {:induction false} Sinks(k: nat, s: string)
    requires LOWEST <= k <= UNARY && Chain(k, s, 0).error != NoError
    ensures Comma(s, 0).error == Chain(k, s, 0).error
  {
    hide Chain, Loop;
    if k == LOWEST {
      assert Conditional(s, 0).error == Chain(k, s, 0).error;
      assert Assignment(s, 0).error == Chain(k, s, 0).error;
    } else {
      ChainIs(k - 1, s, 0);
      Sinks(k - 1, s);
    }
  }

  /** Sum, difference and product, wherever they are ints. */
  lemma {:induction false} Additive(x: int, y: int, v: int)
    requires IsInt(x) && IsInt(y)
    ensures -0x8000_0000 <= v <= 0x7fff_ffff && v == x + y ==> Gives(Numeral(x) + "+" + Numeral(y), v)
    ensures -0x8000_0000 <= v <= 0x7fff_ffff && v + y == x ==> Gives(Numeral(x) + "-" + Numeral(y), v)
    ensures -0x8000_0000 <= v <= 0x7fff_ffff && v == x * y ==> Gives(Numeral(x) + "*" + Numeral(y), v)
    ensures !(-0x8000_0000 <= x + y <= 0x7fff_ffff) ==> NoValue(Numeral(x) + "+" + Numeral(y))
    ensures !(-0x8000_0000 <= x - y <= 0x7fff_ffff) ==> NoValue(Numeral(x) + "-" + Numeral(y))
    ensures !(-0x8000_0000 <= x * y <= 0x7fff_ffff) ==> NoValue(Numeral(x) + "*" + Numeral(y))
  {
    hide Numeral, Gives, NoValue;
    Simple(x, Add, y);
    Simple(x, Sub, y);
    Simple(x, Mul, y);
  }

  /** Quotient and remainder: `q * y + r` is `x`, the remainder is smaller than the divisor and has
      the sign of the dividend; both are undefined exactly for a zero divisor and for the one quotient
      that is no int. */
  lemma {:induction false} Multiplicative(x: int, y: int) returns (q: int, r: int)
    requires IsInt(x) && IsInt(y)
    ensures y == 0 || (x == -0x8000_0000 && y == -1) ==>
      NoValue(Numeral(x) + "/" + Numeral(y)) && NoValue(Numeral(x) + "%" + Numeral(y))
    ensures y != 0 && !(x == -0x8000_0000 && y == -1) ==>
      && Gives(Numeral(x) + "/" + Numeral(y), q) && Gives(Numeral(x) + "%" + Numeral(y), r)
      && x == q * y + r && (if y > 0 then -y < r < y else y < r < -y) && (x >= 0 ==> r >= 0) && (x <= 0 ==> r <= 0)
  {
    hide Numeral, Gives, NoValue, Quotient, Remainder;
    Simple(x, Div, y);
    Simple(x, Rem, y);
    q, r := 0, 0;
    if y != 0 {
      q, r := Quotient(x, y), Remainder(x, y);
      DivisionTruncates(x, y);
      QuotientFits(x, y);
    }
  }

  lemma {:induction false} QuotientFits(x: int, y: int)
    requires IsInt(x) && IsInt(y) && y != 0
    ensures IsInt(Quotient(x, y)) <==> !(x == -0x8000_0000 && y == -1)
    ensures IsInt(Remainder(x, y))
  {
    hide Remainder, Quotient;
    DivisionTruncates(x, y);
    QuotientSign(x, y);
    Smaller(Abs(x), Abs(y));
    if x == -0x8000_0000 && y == -1 {
      assert Quotient(x, y) == 0x8000_0000;
    }
  }

  lemma {:induction false} Smaller(m: nat, n: nat)
    requires n > 0
    ensures 0 <= m / n <= m && (n >= 2 ==> 2 * (m / n) <= m) && (n == 1 ==> m / n == m)
  {
    DivMod(m, n);
    if n >= 2 {
      Halved(m, n, m / n);
    } else {
      Unit(m);
    }
  }

  lemma {:induction false} QuotientSign(x: int, y: int)
    requires y != 0
    ensures Abs(y) > 0 && Quotient(x, y) == if (x >= 0) == (y > 0) then Abs(x) / Abs(y) else -(Abs(x) / Abs(y))
  {
  }

  lemma {:induction false} Unit(m: nat)
    ensures m / 1 == m
  {
  }

  lemma {:induction false} Halved(m: nat, n: nat, q: nat)
    requires n >= 2 && q * n <= m
    ensures 2 * q <= m
  {
    assert q * n == 2 * q + q * (n - 2);
  }

  /** Comparisons are 1 exactly when the relation holds, and 0 otherwise. */
  lemma {:induction false} Comparisons(x: int, y: int)
    requires IsInt(x) && IsInt(y)
    ensures Gives(Numeral(x) + "==" + Numeral(y), if x == y then 1 else 0)
    ensures Gives(Numeral(x) + "!=" + Numeral(y), if x == y then 0 else 1)
    ensures Gives(Numeral(x) + "<" + Numeral(y), if x < y then 1 else 0)
    ensures Gives(Numeral(x) + "<=" + Numeral(y), if x < y || x == y then 1 else 0)
    ensures Gives(Numeral(x) + ">" + Numeral(y), if y < x then 1 else 0)
    ensures Gives(Numeral(x) + ">=" + Numeral(y), if x < y then 0 else 1)
  {
    hide Numeral, Gives, NoValue;
    Simple(x, Equal, y);
    Simple(x, NotEqual, y);
    Simple(x, Less, y);
    Simple(x, LessEqual, y);
    Simple(x, Greater, y);
    Simple(x, GreaterEqual, y);
  }

  lemma {:induction false} Logic(x: int, y: int)
    requires IsInt(x) && IsInt(y)
    ensures Gives(Numeral(x) + "&&" + Numeral(y), if x != 0 && y != 0 then 1 else 0)
    ensures Gives(Numeral(x) + "||" + Numeral(y), if x == 0 && y == 0 then 0 else 1)
  {
    hide Numeral, Gives, NoValue;
    Simple(x, LogAnd, y);
    Simple(x, LogOr, y);
  }

  /** Bit `i` of an int in two's complement. */
  predicate IntBit(x: int, i: nat) { Bit(x % 0x1_0000_0000, i) }

  lemma {:induction false} Bitwises(x: int, y: int) returns (a: int, b: int, c: int)
    requires IsInt(x) && IsInt(y)
    ensures IsInt(a) && Gives(Numeral(x) + "&" + Numeral(y), a) && forall i: nat :: i < 32 ==> (IntBit(a, i) <==> IntBit(x, i) && IntBit(y, i))
    ensures IsInt(b) && Gives(Numeral(x) + "^" + Numeral(y), b) && forall i: nat :: i < 32 ==> (IntBit(b, i) <==> IntBit(x, i) != IntBit(y, i))
    ensures IsInt(c) && Gives(Numeral(x) + "|" + Numeral(y), c) && forall i: nat :: i < 32 ==> (IntBit(c, i) <==> IntBit(x, i) || IntBit(y, i))
  {
    hide Numeral, Gives, NoValue, Bitwise, Bit;
    Simple(x, BitAnd, y);
    Simple(x, BitXor, y);
    Simple(x, BitOr, y);
    a, b, c := Bitwise(BitAnd, x, y), Bitwise(BitXor, x, y), Bitwise(BitOr, x, y);
    forall i: nat | i < 32
      ensures IntBit(a, i) <==> IntBit(x, i) && IntBit(y, i)
      ensures IntBit(b, i) <==> IntBit(x, i) != IntBit(y, i)
      ensures IntBit(c, i) <==> IntBit(x, i) || IntBit(y, i)
    {
      BitwiseBit(BitAnd, x, y, i);
      BitwiseBit(BitXor, x, y, i);
      BitwiseBit(BitOr, x, y, i);
    }
  }

  // The other forms

  /** "~" turns every bit, which is -1 less the number; "!" is 1 for 0 and 0 for every other number. */
  lemma {:induction false} Prefixes(x: int)
    requires IsInt(x)
    ensures forall v :: v + x == -1 ==> Gives("~" + Numeral(x), v)
    ensures Gives("!" + Numeral(x), if x == 0 then 1 else 0)
  {
    hide Numeral, Gives, Spaces;
    NoSpaces();
    NumberMeans(x);
    TreeGives(Inv("", Number(x)));
    TreeGives(CommandTree.Not("", Number(x)));
    assert "" + ("~" + Numeral(x)) == "~" + Numeral(x);
    assert "" + ("!" + Numeral(x)) == "!" + Numeral(x);
  }

  /** The first alternative for a condition that is not 0, the second for 0. */
  lemma {:induction false} Alternatives(x: int, y: int, z: int)
    requires IsInt(x) && IsInt(y) && IsInt(z)
    ensures x != 0 ==> Gives(Numeral(x) + "?" + Numeral(y) + ":" + Numeral(z), y)
    ensures x == 0 ==> Gives(Numeral(x) + "?" + Numeral(y) + ":" + Numeral(z), z)
  {
    hide Numeral, Gives, Spaces;
    NoSpaces();
    NumberMeans(x);
    NumberMeans(y);
    NumberMeans(z);
    var a, b, c := Numeral(x), Numeral(y), Numeral(z);
    TreeGives(Cond(Number(x), "", Number(y), "", Number(z)));
    CondText(a, b, c);
  }

  lemma {:induction false} CondText(a: string, b: string, c: string)
    ensures a + ("" + ("?" + (b + ("" + (":" + c))))) == a + "?" + b + ":" + c
  {
    assert "" + (":" + c) == ":" + c;
    assert "" + ("?" + (b + (":" + c))) == "?" + b + (":" + c);
  }

  /** The last of a list. */
  lemma {:induction false} LastOfList(x: int, y: int)
    requires IsInt(x) && IsInt(y)
    ensures Gives(Numeral(x) + "," + Numeral(y), y)
  {
    hide Numeral, Gives, Spaces;
    NoSpaces();
    NumberMeans(x);
    NumberMeans(y);
    TreeGives(Seq(Number(x), "", Number(y)));
    assert Numeral(x) + ("" + ("," + Numeral(y))) == Numeral(x) + "," + Numeral(y);
  }

  // Three numbers and two operators

  /** From the tightest to the loosest; operators on one level group to the left. */
  lemma {:induction false} Order()
    ensures Level(Mul) == Level(Div) == Level(Rem) > Level(Add) == Level(Sub)
    ensures Level(Sub) > Level(Equal) == Level(NotEqual) == Level(Less) == Level(LessEqual) == Level(Greater) == Level(GreaterEqual)
    ensures Level(Equal) > Level(BitAnd) > Level(BitXor) > Level(BitOr) > Level(LogAnd) > Level(LogOr)
  {
  }

  lemma {:induction false} GivesIs(x: int, op: Op, y: int, v: int)
    requires IsInt(x) && IsInt(y) && Gives(Numeral(x) + Spell(op) + Numeral(y), v)
    ensures Apply(op, x, y) == Some(v)
  {
    hide Spell, Level, Apply, Numeral, Comma;
    Simple(x, op, y);
  }

  /** The value of two operators is that of one after the other: the first one first if it binds at
      least as tightly, and otherwise the second. */
  lemma {:induction false} Grouping(x: int, a: Op, y: int, b: Op, z: int, u: int, v: int)
    requires IsInt(x) && IsInt(y) && IsInt(z) && IsInt(u)
    ensures
      var s := Numeral(x) + Spell(a) + Numeral(y) + Spell(b) + Numeral(z);
      && (Level(a) >= Level(b) && Gives(Numeral(x) + Spell(a) + Numeral(y), u) && Gives(Numeral(u) + Spell(b) + Numeral(z), v) ==> Gives(s, v))
      && (Level(a) < Level(b) && Gives(Numeral(y) + Spell(b) + Numeral(z), u) && Gives(Numeral(x) + Spell(a) + Numeral(u), v) ==> Gives(s, v))
  {
    hide Numeral, Gives, Spell, Level, Apply, Text, Spaces;
    if Level(a) >= Level(b) {
      if Gives(Numeral(x) + Spell(a) + Numeral(y), u) && Gives(Numeral(u) + Spell(b) + Numeral(z), v) {
        FirstFirst(x, a, y, b, z, u, v);
      }
    } else if Gives(Numeral(y) + Spell(b) + Numeral(z), u) && Gives(Numeral(x) + Spell(a) + Numeral(u), v) {
      SecondFirst(x, a, y, b, z, u, v);
    }
  }

  lemma {:induction false} FirstFirst(x: int, a: Op, y: int, b: Op, z: int, u: int, v: int)
    requires IsInt(x) && IsInt(y) && IsInt(z) && IsInt(u) && Level(a) >= Level(b)
    requires Gives(Numeral(x) + Spell(a) + Numeral(y), u) && Gives(Numeral(u) + Spell(b) + Numeral(z), v)
    ensures Gives(Numeral(x) + Spell(a) + Numeral(y) + Spell(b) + Numeral(z), v)
  {
    hide Numeral, Gives, Spell, Level, Apply, Text, Spaces;
    NoSpaces();
    GivesIs(x, a, y, u);
    GivesIs(u, b, z, v);
    BinaryParts(x, a, y);
    NumberMeans(z);
    var l := Bin(a, Number(x), "", Number(y));
    TreeGives(Bin(b, l, "", Number(z)));
    BinText(b, l, Number(z));
  }

  lemma {:induction false} SecondFirst(x: int, a: Op, y: int, b: Op, z: int, u: int, v: int)
    requires IsInt(x) && IsInt(y) && IsInt(z) && IsInt(u) && Level(a) < Level(b)
    requires Gives(Numeral(y) + Spell(b) + Numeral(z), u) && Gives(Numeral(x) + Spell(a) + Numeral(u), v)
    ensures Gives(Numeral(x) + Spell(a) + Numeral(y) + Spell(b) + Numeral(z), v)
  {
    hide Numeral, Gives, Spell, Level, Apply, Text, Spaces;
    NoSpaces();
    GivesIs(y, b, z, u);
    GivesIs(x, a, u, v);
    BinaryParts(y, b, z);
    NumberMeans(x);
    var r := Bin(b, Number(y), "", Number(z));
    TreeGives(Bin(a, Number(x), "", r));
    BinText(a, Number(x), r);
    assert Numeral(x) + Spell(a) + Numeral(y) + Spell(b) + Numeral(z) == Numeral(x) + Spell(a) + (Numeral(y) + Spell(b) + Numeral(z));
  }

  // White space and errors

  /** White space is a blank, a tab, a newline, a form feed or a carriage return; a vertical tab is an
      illegal character. */
  lemma {:induction false} WhiteSpace(c: char, x: int)
    requires IsInt(x)
    ensures c == ' ' || c == '\t' || c == '\n' || c == '\r' || c == '\U{000C}' ==> Gives([c] + Numeral(x), x)
    ensures Comma("\U{000B}" + Numeral(x), 0).error == IllegalCharacter
  {
    hide Numeral, Gives, Comma, Chain;
    if IsSpace(c) {
      NumberMeans(x);
      TreeGives(Lit([c], Numeral(x)));
    }
    var s := "\U{000B}" + Numeral(x);
    assert s[0] == '\U{000B}';
    OpenFirst(s);
    assert Brace(s, 0).error == IllegalCharacter;
    PostfixFails(s);
  }

  /** A choice without its colon, a parenthesis and a bracket that are not closed. */
  lemma {:induction false} Unclosed(x: int, y: int)
    requires IsInt(x) && IsInt(y)
    ensures Comma(Numeral(x) + "?" + Numeral(y), 0).error == MissingColon
    ensures Comma("(" + Numeral(x), 0).error == MissingClosingBrace
    ensures Comma(Numeral(x) + "[", 0).error == MissingClosingBracket
  {
    hide Comma, Numeral;
    NoColon(x, y);
    NoBrace(x);
    NoBracket(x);
  }

  lemma {:induction false} NoColon(x: int, y: int)
    requires IsInt(x) && IsInt(y)
    ensures Comma(Numeral(x) + "?" + Numeral(y), 0).error == MissingColon
  {
    hide Numeral, Chain, SkipSpace, Text, WellFormed, Meaning, Has, Follow, Spaces;
    var a, b := Numeral(x), Numeral(y);
    var s, m := a + "?" + b, |a|;
    NoSpaces();
    NumberMeans(x);
    NumberMeans(y);
    Sections(s, a, "?", b);
    MarkFollows(s, m, |s|, "", "?", b);
    AtEnd(s);
    StopsFollow(s, |s|);
    SpelledIs(Number(x), s, 0, m);
    SpelledIs(Number(y), s, m + 1, |s|);
    OperandRead(Number(x), s, 0, m);
    OperandRead(Number(y), s, m + 1, |s|);
    SkipSkip(s, m);
    assert Conditional(s, 0).error == MissingColon;
    assert Assignment(s, 0).error == MissingColon;
  }

  lemma {:induction false} NoBrace(x: int)
    requires IsInt(x)
    ensures Comma("(" + Numeral(x), 0).error == MissingClosingBrace
  {
    hide Numeral, Chain, SkipSpace, Text, WellFormed, Meaning, Comma;
    var a := Numeral(x);
    var s := "(" + a;
    NumberMeans(x);
    assert s[1..|s|] == a;
    AtEnd(s);
    SpelledIs(Number(x), s, 1, |s|);
    ReadsComma(Number(x), s, 1, |s|);
    OpenFirst(s);
    assert Brace(s, 0).error == MissingClosingBrace;
    PostfixFails(s);
  }

  lemma {:induction false} OpenFirst(s: string)
    requires s != "" && !IsSpace(s[0])
    ensures SkipSpace(s, 0) == 0
  {
  }

  lemma {:induction false} PostfixFails(s: string)
    requires SkipSpace(s, 0) == 0 && Peek(s, 0) != '~' && Peek(s, 0) != '!' && Postfix(s, 0).error != NoError
    ensures Comma(s, 0).error == Postfix(s, 0).error
  {
    hide Chain, Postfix, Comma;
    ChainIs(UNARY, s, 0);
    Sinks(UNARY, s);
  }

  lemma {:induction false} NoBracket(x: int)
    requires IsInt(x)
    ensures Comma(Numeral(x) + "[", 0).error == MissingClosingBracket
  {
    hide Numeral, Chain, SkipSpace, Text, WellFormed, Meaning, Comma, Brace, Suffixes, Spaces;
    var a := Numeral(x);
    var s, m := a + "[", |a|;
    NoSpaces();
    NumberMeans(x);
    assert s[0..m] == "" + a == a;
    NumberRead(s, 0, m, "", a);
    SuffixesIs(s, m, x);
    OpenFirst(s[m..]);
    AtBracket(s, m);
    NumeralStarts(a);
    NumeralChar(a[0]);
    OpenFirst(s);
    PostfixFails(s);
  }

  lemma {:induction false} AtBracket(s: string, m: nat)
    requires m + 1 == |s| && s[m] == '['
    ensures SkipSpace(s, m) == m && SkipSpace(s, m + 1) == m + 1
  {
  }
}

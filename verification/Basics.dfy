/** What the components share: optional values, C strings and decimal digits. */
module Basics {

  datatype Option<+T> = None | Some(value: T)

  /** A C string ends at its first NUL; reading past the stored characters yields that NUL. */
  function Peek(text: string, i: nat): char {
    if i < |text| then text[i] else '\0'
  }

  predicate IsDigit(c: char) { '0' <= c <= '9' }

  function Digit(c: char): nat {
    if IsDigit(c) then (c - '0') as nat else 0
  }

  /** The decimal number a digit string denotes. */
  function DigitsValue(s: string): nat {
    if s == [] then 0 else 10 * DigitsValue(s[..|s|-1]) + Digit(s[|s|-1])
  }

  /** The end of the run of digits that starts at `i`. */
  function SkipDigits(text: string, i: nat): (p: nat)
    ensures i <= p && (i <= |text| ==> p <= |text|)
    ensures forall k :: i <= k < p ==> k < |text| && IsDigit(text[k])
    ensures !IsDigit(Peek(text, p))
    decreases |text| - i
  {
    if i < |text| && IsDigit(text[i]) then SkipDigits(text, i + 1) else i
  }

  /** The decimal digits of a number, most significant first. */
  function Decimal(n: nat): (s: string)
    ensures s != "" && DigitsValue(s) == n
    ensures forall i :: 0 <= i < |s| ==> IsDigit(s[i])
  {
    var d := n % 10;
    var last := [(d as char) + '0'];
    if n < 10 then
      assert last[..0] == [];
      last
    else
      var s := Decimal(n / 10) + last;
      assert s[..|s|-1] == Decimal(n / 10);
      s
  }

  /** What a C string holds before its NUL. */
  type CString = s: seq<int> | forall i :: 0 <= i < |s| ==> 0 < s[i] < 256

  /** `strcmp`: the sign of the comparison of two C strings. */
  function Strcmp(a: CString, b: CString): int {
    if a == [] then (if b == [] then 0 else -b[0])
    else if b == [] then a[0]
    else if a[0] != b[0] then a[0] - b[0]
    else Strcmp(a[1..], b[1..])
  }

  lemma {:induction false} StrcmpEqual(a: CString, b: CString)
    ensures Strcmp(a, b) == 0 <==> a == b
  {
    if a != [] && b != [] && a[0] == b[0] {
      StrcmpEqual(a[1..], b[1..]);
      assert a == [a[0]] + a[1..] && b == [b[0]] + b[1..];
    }
  }

  lemma {:induction false} StrcmpTurns(a: CString, b: CString)
    ensures Strcmp(a, b) < 0 <==> Strcmp(b, a) > 0
  {
    if a != [] && b != [] && a[0] == b[0] {
      StrcmpTurns(a[1..], b[1..]);
    }
  }

  lemma {:induction false} StrcmpTransitive(a: CString, b: CString, c: CString)
    requires Strcmp(a, b) < 0 && Strcmp(b, c) < 0
    ensures Strcmp(a, c) < 0
  {
    if a != [] && b != [] && c != [] && a[0] == b[0] == c[0] {
      StrcmpTransitive(a[1..], b[1..], c[1..]);
    }
  }

  /** The first difference decides: at position `k`, where one of the strings may have ended. */
  lemma {:induction false} StrcmpFirst(a: CString, b: CString, k: nat)
    requires k <= |a| && k <= |b| && a[..k] == b[..k]
    ensures k == |a| && k < |b| ==> Strcmp(a, b) < 0
    ensures k < |a| && k < |b| && a[k] < b[k] ==> Strcmp(a, b) < 0
    ensures k < |a| && k == |b| ==> Strcmp(a, b) > 0
    ensures k < |a| && k < |b| && a[k] > b[k] ==> Strcmp(a, b) > 0
    decreases k
  {
    if k > 0 {
      assert a[..k][0] == a[0] && b[..k][0] == b[0];
      assert a[1..][..k-1] == a[..k][1..] && b[1..][..k-1] == b[..k][1..];
      StrcmpFirst(a[1..], b[1..], k - 1);
    }
  }
}

/** The fragments of Python semantics the Sudoku helpers rely on: truncating
    integer conversion, negative sequence indexing, the exceptions those raise,
    and the int/str conversions between one digit character and its value. */
module Py {

  /** The exceptions the modelled helpers can raise. */
  datatype Error = IndexError | KeyError | ValueError

  /** A value, or the exception that aborted its computation. */
  datatype Result<+T> = Ok(value: T) | Err(error: Error)

  /** `int(a / b)` for a positive divisor: true division, then truncation
      toward zero (not the floor, for negative `a`). */
  function TruncDiv(a: int, b: int): (q: int)
    requires 0 < b
    ensures 0 <= a ==> 0 <= q * b <= a < q * b + b
    ensures a < 0 ==> q * b - b < a <= q * b <= 0
  {
    if 0 <= a then
      DivBounds(a, b);
      a / b
    else
      DivBounds(-a, b);
      -((-a) / b)
  }

  /** Euclidean division of a natural number: the quotient times the divisor
      is at most the dividend and less than a divisor below it. */
  lemma DivBounds(a: int, b: int)
    requires 0 <= a && 0 < b
    ensures 0 <= (a / b) * b <= a < (a / b) * b + b
    ensures (-(a / b)) * b == -((a / b) * b)
  {
    var q, m := a / b, a % b;
    assert a == q * b + m && 0 <= m < b;
  }

  /** Whether `s[k]` is defined in Python: negative `k` counts from the end. */
  predicate InRange<T>(s: seq<T>, k: int) {
    -|s| <= k < |s|
  }

  /** `s[k]` in Python, for an index that does not raise IndexError. */
  function At<T>(s: seq<T>, k: int): (x: T)
    requires InRange(s, k)
    ensures x == s[k % |s|]
  {
    if 0 <= k then s[k] else s[|s| + k]
  }

  predicate IsDigit(ch: char) {
    '0' <= ch <= '9'
  }

  /** The character of one decimal digit. */
  function DigitChar(d: int): (ch: char)
    requires 0 <= d <= 9
    ensures IsDigit(ch)
  {
    ((d + '0' as int) as char)
  }

  /** Distinct digits have distinct characters. */
  lemma DigitCharInjective(d: int, e: int)
    requires 0 <= d <= 9 && 0 <= e <= 9
    ensures DigitChar(d) == DigitChar(e) <==> d == e
  {
  }

  /** `int(ch)` for a one-character string: the digit's value, or ValueError. */
  function IntOfChar(ch: char): (r: Result<int>)
    ensures r.Ok? <==> IsDigit(ch)
    ensures r.Err? ==> r.error == ValueError
    ensures r.Ok? ==> 0 <= r.value <= 9 && DigitChar(r.value) == ch
  {
    if IsDigit(ch) then Ok(ch as int - '0' as int) else Err(ValueError)
  }

  /** Decimal digits of a natural number, most significant first. */
  function NatStr(n: nat): (s: string)
    ensures 0 < |s|
    ensures forall k :: 0 <= k < |s| ==> IsDigit(s[k])
    decreases n
  {
    if n < 10 then [DigitChar(n)] else NatStr(n / 10) + [DigitChar(n % 10)]
  }

  /** `str(n)` for an integer. */
  function Str(n: int): (s: string)
    ensures 0 < |s|
    ensures 0 <= n ==> forall k :: 0 <= k < |s| ==> IsDigit(s[k])
    ensures n < 0 ==> s[0] == '-' && forall k :: 1 <= k < |s| ==> IsDigit(s[k])
  {
    if n < 0 then "-" + NatStr(-n) else NatStr(n)
  }

  /** The number a string of decimal digits denotes, read most significant
      digit first. */
  function DecimalValue(s: string): int
    decreases |s|
  {
    if |s| == 0 then 0 else DecimalValue(s[..|s| - 1]) * 10 + (s[|s| - 1] as int - '0' as int)
  }

  /** The digits of a natural number denote that number, with no leading zero. */
  lemma {:induction false} NatStrValue(n: nat)
    ensures DecimalValue(NatStr(n)) == n
    ensures 0 < n ==> NatStr(n)[0] != '0'
    decreases n
  {
    if 10 <= n {
      var s := NatStr(n);
      NatStrValue(n / 10);
      assert s[..|s| - 1] == NatStr(n / 10);
      assert s[0] == NatStr(n / 10)[0];
    }
  }

  /** `str(n)` writes the digits of |n|, without a leading zero, after a '-'
      when n is negative. */
  lemma StrValue(n: int)
    ensures 0 <= n ==> DecimalValue(Str(n)) == n && (n == 0 || Str(n)[0] != '0')
    ensures n < 0 ==> Str(n)[0] == '-' && DecimalValue(Str(n)[1..]) == -n && Str(n)[1] != '0'
    ensures n < 0 ==> forall k :: 1 <= k < |Str(n)| ==> IsDigit(Str(n)[k])
  {
    if n < 0 {
      NatStrValue(-n);
      assert Str(n)[1..] == NatStr(-n);
    } else {
      NatStrValue(n);
    }
  }

  /** `int(str(d)) == d` for a single digit, and `str(int(ch)) == ch`. */
  lemma DigitRoundTrip(d: int, ch: char)
    ensures 0 <= d <= 9 ==> |Str(d)| == 1 && IntOfChar(Str(d)[0]) == Ok(d)
    ensures IsDigit(ch) ==> Str(IntOfChar(ch).value) == [ch]
  {
  }

  /** The list comprehension `[f(i) for i in range(lo, hi)]`, evaluated in
      order: the first call that raises ends it with that exception. */
  function MapRange<T>(f: int -> Result<T>, lo: int, hi: int): (r: Result<seq<T>>)
    requires lo <= hi
    ensures r.Ok? <==> forall i :: lo <= i < hi ==> f(i).Ok?
    ensures r.Ok? ==> |r.value| == hi - lo && forall k :: 0 <= k < hi - lo ==> f(lo + k) == Ok(r.value[k])
    ensures r.Err? ==> exists i :: lo <= i < hi && f(i) == Err(r.error) && forall j :: lo <= j < i ==> f(j).Ok?
    decreases hi - lo
  {
    if lo == hi then Ok([])
    else match f(lo)
      case Err(e) => Err(e)
      case Ok(x) =>
        match MapRange(f, lo + 1, hi)
        case Err(e) => Err(e)
        case Ok(rest) => Ok([x] + rest)
  }
}

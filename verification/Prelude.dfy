/** Bytes, options and C++ integer division, shared by every component. */
module Prelude {

  datatype Option<+T> = None | Some(value: T)

  type Byte = b: int | 0 <= b < 256

  type Bytes = seq<Byte>

  /** The part of `s` that a C string function sees: everything before the first NUL. */
  function CStr(s: Bytes): (r: Bytes)
    ensures |r| <= |s| && r == s[..|r|]
    ensures 0 !in r
    ensures |r| < |s| ==> s[|r|] == 0
  {
    if s == [] || s[0] == 0 then []
    else
      var rest := CStr(s[1..]);
      assert s[..|rest| + 1] == [s[0]] + s[1..][..|rest|];
      [s[0]] + rest
  }

  /** A NUL-terminated string is read back whole, whatever bytes follow the terminator. */
  lemma {:induction false} CStrOfTerminated(name: Bytes, tail: Bytes)
    requires 0 !in name
    ensures CStr(name + [0] + tail) == name
  {
    var s := name + [0] + tail;
    if name != [] {
      assert s[0] == name[0];
      assert s[1..] == name[1..] + [0] + tail;
      CStrOfTerminated(name[1..], tail);
    }
  }

  /** A C string that ends inside `s` does not depend on what follows `s`. */
  lemma {:induction false} CStrOfPrefix(s: Bytes, tail: Bytes)
    requires 0 in s
    ensures CStr(s + tail) == CStr(s) && |CStr(s)| < |s|
  {
    if s[0] != 0 {
      assert s == [s[0]] + s[1..];
      assert (s + tail)[1..] == s[1..] + tail;
      CStrOfPrefix(s[1..], tail);
    }
  }

  /** C++ division by a positive divisor: the quotient is truncated toward zero. */
  function TruncDiv(n: int, d: int): (q: int)
    requires d > 0
    ensures n >= 0 ==> 0 <= q && q * d <= n < (q + 1) * d
    ensures n <= 0 ==> q <= 0 && (q - 1) * d < n <= q * d
  {
    if n >= 0 then n / d else -((-n) / d)
  }

  /** Truncation is monotone. */
  lemma TruncDivMonotone(m: int, n: int, d: int)
    requires d > 0 && m <= n
    ensures TruncDiv(m, d) <= TruncDiv(n, d)
  {
    if m >= 0 {
      DivMonotone(m, n, d);
    } else if n <= 0 {
      DivMonotone(-n, -m, d);
    }
  }

  lemma DivMonotone(m: nat, n: nat, d: nat)
    requires d > 0 && m <= n
    ensures m / d <= n / d
  {
    PositiveFactor(n / d + 1 - m / d, d);
  }

  lemma PositiveFactor(x: int, d: nat)
    requires x * d > 0
    ensures x > 0
  {
  }

  lemma DivUnique(n: nat, d: int, q: nat, r: nat)
    requires d > 0 && r < d && n == q * d + r
    ensures n / d == q
  {
    QuotientUnique(n / d, n % d, q, r, d);
  }

  lemma QuotientUnique(p: int, t: nat, q: int, r: nat, d: int)
    requires r < d && t < d && p * d + t == q * d + r
    ensures p == q
  {
    PositiveFactor(q + 1 - p, d);
    PositiveFactor(p + 1 - q, d);
  }

  function Max(a: int, b: int): int {
    if a < b then b else a
  }

  function Min(a: int, b: int): int {
    if a < b then a else b
  }

  /** Every value moved by the same amount. */
  function Shifted(values: seq<int>, offset: int): (r: seq<int>)
    ensures |r| == |values| && forall i :: 0 <= i < |r| ==> r[i] == values[i] + offset
  {
    seq(|values|, i requires 0 <= i < |values| => values[i] + offset)
  }
}

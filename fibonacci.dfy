/** The user program `fibonacci_cmd`: it parses its argument as a decimal
    number `n`, answers 1 for `n == 0` and 2 for `n == 1`, and otherwise
    runs two copies of itself on `n-2` and `n-1` (passing them as decimal
    strings) and exits with the sum of their exit statuses. */
module Fibonacci {
  import opened Util
  import opened Machine

  /** The C string terminator. */
  const NUL: char := 0 as char

  /** `c - '0'`, which is the digit's value when `c` is a decimal digit. */
  function DigitValue(c: char): int { c as int - '0' as int }

  /** The character for a digit value in `0..9`, `d + '0'`. */
  function DigitChar(d: int): char
    requires 0 <= d < 10
  {
    (d + '0' as int) as char
  }

  predicate IsDigits(s: seq<char>) { forall i | 0 <= i < |s| :: '0' <= s[i] <= '9' }

  /** The accumulation `ans*10 + (c - '0')` over `s`, left to right, on
      unbounded integers: the value the digits denote. */
  function Accumulated(s: seq<char>): int
  {
    if s == [] then 0 else Accumulated(s[..|s| - 1]) * 10 + DigitValue(s[|s| - 1])
  }

  /** What `stringToInt` yields for `s`: the digits' value modulo 2^32,
      read as a signed `int` (two's complement, as on the Nachos MIPS
      target). */
  function Parsed(s: seq<char>): (r: int)
    ensures IsInt32(r)
  {
    Wrap32(Accumulated(s))
  }

  /** One step of the loop in C's 32-bit `int ans`, which wraps around:
      wrapping at every step is wrapping once at the end. */
  lemma ParseStep(s: seq<char>, c: char)
    ensures Wrap32(Parsed(s) * 10 + DigitValue(c)) == Parsed(s + [c])
  {
    assert (s + [c])[..|s + [c]| - 1] == s;
    WrapTimesTen(Accumulated(s), DigitValue(c));
  }

  /** `ans * 10 + d` over a wrapped `ans` wraps to the same `int`. */
  lemma WrapTimesTen(a: int, d: int)
    ensures Wrap32(Wrap32(a) * 10 + d) == Wrap32(a * 10 + d)
  {
    var w := Wrap32(a);
    TenfoldCongruent(w, a, d);
    Wrap32Congruent(w * 10 + d, a * 10 + d);
  }

  lemma TenfoldCongruent(x: int, y: int, d: int)
    requires (y - x) % TwoTo32 == 0
    ensures ((x * 10 + d) - (y * 10 + d)) % TwoTo32 == 0
  {
    var k := (y - x) / TwoTo32;
    assert (x * 10 + d) - (y * 10 + d) == (-10 * k) * TwoTo32;
  }

  /** The C `int` sum `x + y` of two `int` values, wrapping around. */
  function Sum32(x: int, y: int): (r: int)
    requires IsInt32(x) && IsInt32(y)
    ensures IsInt32(r) && (IsInt32(x + y) ==> r == x + y)
  {
    if x + y > Int32Max then x + y - TwoTo32
    else if x + y < Int32Min then x + y + TwoTo32
    else x + y
  }

  /** The explicit wrap-around of `Sum32` is the two's-complement one. */
  lemma Sum32IsWrapped(x: int, y: int)
    requires IsInt32(x) && IsInt32(y)
    ensures Sum32(x, y) == Wrap32(x + y)
  {
    Wrap32Congruent(x + y, Sum32(x, y));
  }

  /** The position of the first NUL in `s`. */
  function NulIndex(s: seq<char>): (n: nat)
    requires NUL in s
    ensures n < |s| && s[n] == NUL && NUL !in s[..n]
  {
    if s[0] == NUL then 0 else NulIndex(s[1..]) + 1
  }

  /** Decimal digits of `x`, least significant first, as `intToString`'s
      first loop produces them (none when `x <= 0`). */
  function LowDigitsOf(x: int): seq<char>
    decreases x
  {
    if x <= 0 then [] else [DigitChar(x % 10)] + LowDigitsOf(x / 10)
  }

  /** Decimal representation of `x`, most significant digit first; empty for 0. */
  function Decimal(x: nat): (r: seq<char>)
    ensures IsDigits(r)
  {
    if x == 0 then [] else Decimal(x / 10) + [DigitChar(x % 10)]
  }

  /** The string `intToString(x, s)` leaves in `s` before the NUL. */
  function IntString(x: int): seq<char>
  {
    if x > 0 then Decimal(x) else []
  }

  /** `stringToInt`: walks `s` up to its NUL, accumulating the digits. */
  method StringToInt(s: seq<char>) returns (ans: int)
    requires NUL in s
    ensures ans == Parsed(s[..NulIndex(s)])
  {
    ans := 0;
    var i := 0;
    while s[i] != NUL
      invariant 0 <= i <= NulIndex(s)
      invariant ans == Parsed(s[..i])
      decreases NulIndex(s) - i
    {
      assert s[..i + 1] == s[..i] + [s[i]];
      ParseStep(s[..i], s[i]);
      ans := Wrap32(ans * 10 + DigitValue(s[i]));
      i := i + 1;
    }
  }

  /** The swap loop of `intToString`: `i` and `j` walk inwards from both
      ends of `s[0..sz)` exchanging characters. */
  method ReversePrefix(s: array<char>, sz: int)
    requires 0 <= sz <= s.Length
    modifies s
    ensures s[..sz] == Reversed(old(s[..sz]))
    ensures forall k | sz <= k < s.Length :: s[k] == old(s[k])
  {
    var i, j := 0, sz - 1;
    while i < j
      invariant 0 <= i && j == sz - 1 - i && i <= j + 2
      invariant forall k | 0 <= k < i :: s[k] == old(s[sz - 1 - k])
      invariant forall k | j < k < sz :: s[k] == old(s[sz - 1 - k])
      invariant forall k | i <= k <= j :: s[k] == old(s[k])
      invariant forall k | sz <= k < s.Length :: s[k] == old(s[k])
    {
      var temp := s[i];
      s[i] := s[j];
      s[j] := temp;
      i, j := i + 1, j - 1;
    }
    forall k | 0 <= k < sz
      ensures s[..sz][k] == Reversed(old(s[..sz]))[k]
    {
      ReversedAt(old(s[..sz]), k);
    }
  }

  /** `intToString`: writes the decimal digits of `x` into `s` followed by
      a NUL; leaves every later character alone. */
  method IntToString(x: int, s: array<char>)
    requires |IntString(x)| < s.Length
    modifies s
    ensures s[..|IntString(x)| + 1] == IntString(x) + [NUL]
    ensures forall k | |IntString(x)| + 1 <= k < s.Length :: s[k] == old(s[k])
  {
    LowDigitsLength(x);
    var sz := PutLowDigits(x, s);
    s[sz] := NUL;
    ReversePrefix(s, sz);
    LowDigitsReversed(x);
    assert s[..sz] == IntString(x);
    assert s[..sz + 1] == s[..sz] + [s[sz]];
  }

  /** The digit loop of `intToString`: peels `x % 10` off `x` until it is
      no longer positive, storing each digit at `s[sz]`. */
  method PutLowDigits(x: int, s: array<char>) returns (sz: int)
    requires |LowDigitsOf(x)| < s.Length
    modifies s
    ensures sz == |LowDigitsOf(x)| && s[..sz] == LowDigitsOf(x)
    ensures forall k | sz <= k < s.Length :: s[k] == old(s[k])
  {
    sz := 0;
    var y := x;
    ghost var digits := LowDigitsOf(x);
    while y > 0
      invariant 0 <= sz <= |digits| && LowDigitsOf(y) == digits[sz..]
      invariant forall k | 0 <= k < sz :: s[k] == digits[k]
      invariant forall k | sz <= k < s.Length :: s[k] == old(s[k])
      decreases y
    {
      var d := y % 10;
      assert digits[sz..] == [DigitChar(d)] + LowDigitsOf(y / 10);
      assert digits[sz] == DigitChar(d) && digits[sz + 1..] == LowDigitsOf(y / 10);
      y := y / 10;
      s[sz] := DigitChar(d);
      sz := sz + 1;
    }
    assert s[..sz] == digits;
  }

  lemma LowDigitsLength(x: int)
    ensures |LowDigitsOf(x)| == |IntString(x)|
  {
    LowDigitsReversed(x);
  }

  lemma LowDigitsReversed(x: int)
    ensures IntString(x) == Reversed(LowDigitsOf(x))
  {
    if x > 0 {
      DecimalIsReversed(x);
    }
  }

  lemma {:induction false} DecimalIsReversed(x: nat)
    ensures Decimal(x) == Reversed(LowDigitsOf(x))
  {
    if x > 0 {
      DecimalIsReversed(x / 10);
      ReversedCons(DigitChar(x % 10), LowDigitsOf(x / 10));
    }
  }

  lemma {:induction false} ReversedCons<T>(x: T, t: seq<T>)
    ensures Reversed([x] + t) == Reversed(t) + [x]
  {
    if t != [] {
      var l := [x] + t;
      assert l[..|l| - 1] == [x] + t[..|t| - 1];
      ReversedCons(x, t[..|t| - 1]);
    } else {
      assert [x] + t == [x];
    }
  }

  /** Parsing the decimal string of `x` gives `x` back: the value a parent
      passes as `argv[1]` is the value the child computes with. */
  lemma {:induction false} DecimalRoundTrip(x: nat)
    ensures Accumulated(Decimal(x)) == x
  {
    if x > 0 {
      DecimalRoundTrip(x / 10);
      var d := Decimal(x);
      assert d[..|d| - 1] == Decimal(x / 10);
    }
  }

  /** `stringToInt(intToString(x))` for a C `int` `x` is `x` when `x` is
      positive and 0 otherwise, the round trip `main` relies on when it
      hands `n-2` and `n-1` to its children. */
  lemma IntStringRoundTrip(x: int)
    requires IsInt32(x)
    ensures Parsed(IntString(x)) == if x > 0 then x else 0
    ensures NulIndex(IntString(x) + [NUL]) == |IntString(x)|
    ensures (IntString(x) + [NUL])[..|IntString(x)|] == IntString(x)
  {
    if x > 0 {
      DecimalRoundTrip(x);
    }
    NoNulInDigits(IntString(x));
    NulAfterPrefix(IntString(x));
  }

  lemma NoNulInDigits(s: seq<char>)
    requires IsDigits(s)
    ensures NUL !in s
  {
  }

  lemma {:induction false} NulAfterPrefix(s: seq<char>)
    requires NUL !in s
    ensures NulIndex(s + [NUL]) == |s|
  {
    if s != [] {
      assert (s + [NUL])[1..] == s[1..] + [NUL];
      NulAfterPrefix(s[1..]);
    }
  }

  /** The decimal string of a positive number never starts with '0'. */
  lemma {:induction false} NoLeadingZero(x: nat)
    requires x > 0
    ensures Decimal(x)[0] != '0'
  {
    if x / 10 > 0 {
      NoLeadingZero(x / 10);
    }
  }

  /** A string of decimal digits denotes a value that is not negative. */
  lemma {:induction false} AccumulatedDigitsNonNegative(s: seq<char>)
    requires IsDigits(s)
    ensures Accumulated(s) >= 0
  {
    if s != [] {
      AccumulatedDigitsNonNegative(s[..|s| - 1]);
    }
  }

  /** A digit string whose value fits in an `int` parses to that value,
      which is not negative. */
  lemma DigitsParseExactly(s: seq<char>)
    requires IsDigits(s) && Accumulated(s) <= Int32Max
    ensures 0 <= Parsed(s) == Accumulated(s)
  {
    AccumulatedDigitsNonNegative(s);
  }

  /** A decimal string of a value past `INT_MAX` (and below 2^32) parses to
      a negative number: "3000000000" gives -1294967296. */
  lemma LongDecimalParsesNegative(x: nat)
    requires Int32Max < x < TwoTo32
    ensures Parsed(Decimal(x)) == x - TwoTo32 < 0
  {
    DecimalRoundTrip(x);
  }

  /** The recurrence the program computes. */
  function Fib(n: nat): nat
  {
    if n == 0 then 1 else if n == 1 then 2 else Fib(n - 2) + Fib(n - 1)
  }

  /** The exit status of `fibonacci_cmd.coff` run with the characters
      `arg` as `argv[1]`: `main` parses it and computes with its value. */
  function ProgramStatus(arg: seq<char>): (r: int)
    ensures IsInt32(r)
  {
    StatusOf(Parsed(arg))
  }

  /** The value a child computes with when its parent passes `a`: what
      `stringToInt` makes of the string `intToString(a)` leaves, as
      `ChildValueIsParse` proves. */
  function ChildValue(a: int): int
  {
    if a > 0 then a else 0
  }

  /** A child's value is the parse of the string its parent passes. */
  lemma ChildValueIsParse(a: int)
    requires IsInt32(a)
    ensures ChildValue(a) == Parsed(IntString(a))
  {
    IntStringRoundTrip(a);
  }

  /** The exit status of the program once `stringToInt` gave `n`, when both
      of its `exec` calls succeed and each `join` delivers the child's exit
      status. `n-2`, `n-1` and `A+B` are C `int` arithmetic, and a child
      status of -1 makes the program exit with -1 through `outOfMemory`. */
  function StatusOf(n: int): (r: int)
    requires IsInt32(n)
    ensures IsInt32(r)
    decreases if n >= 0 then n else Int32Max + 1
  {
    if n == 0 then 1
    else if n == 1 then 2
    else
      var statusA := StatusOf(ChildValue(Sum32(n, -2)));
      if statusA == -1 then -1
      else
        var statusB := StatusOf(ChildValue(Sum32(n, -1)));
        if statusB == -1 then -1 else Sum32(statusA, statusB)
  }

  lemma {:induction false} FibPositiveMonotone(n: nat)
    ensures n < Fib(n) && (n >= 2 ==> Fib(n - 2) <= Fib(n) && Fib(n - 1) <= Fib(n))
  {
    if n >= 2 {
      FibPositiveMonotone(n - 2);
      FibPositiveMonotone(n - 1);
    }
  }

  /** Run on the decimal string of `n`, the program exits with `Fib(n)`
      whenever `Fib(n)` fits in an `int`. */
  lemma {:induction false} ProgramComputesFib(n: nat)
    requires Fib(n) <= Int32Max
    ensures ProgramStatus(IntString(n)) == Fib(n)
  {
    FibPositiveMonotone(n);
    IntStringRoundTrip(n);
    StatusIsFib(n);
  }

  /** Once `stringToInt` gave `n`, the program exits with `Fib(n)` whenever
      that fits in an `int`. */
  lemma {:induction false} StatusIsFib(n: nat)
    requires Fib(n) <= Int32Max
    ensures n <= Int32Max && StatusOf(n) == Fib(n)
  {
    FibPositiveMonotone(n);
    if n >= 2 {
      StatusIsFib(n - 2);
      StatusIsFib(n - 1);
    }
  }

  /** `Fib(n)` fits in an `int` exactly up to `n == 44`; from 45 on the sum
      `A+B` wraps around. */
  lemma FibFitsUpTo44(n: nat)
    ensures Fib(n) <= Int32Max <==> n <= 44
  {
    assert Fib(2) == 3;
    assert Fib(3) == 5;
    assert Fib(4) == 8;
    assert Fib(5) == 13;
    assert Fib(6) == 21;
    assert Fib(7) == 34;
    assert Fib(8) == 55;
    assert Fib(9) == 89;
    assert Fib(10) == 144;
    assert Fib(11) == 233;
    assert Fib(12) == 377;
    assert Fib(13) == 610;
    assert Fib(14) == 987;
    assert Fib(15) == 1597;
    assert Fib(16) == 2584;
    assert Fib(17) == 4181;
    assert Fib(18) == 6765;
    assert Fib(19) == 10946;
    assert Fib(20) == 17711;
    assert Fib(21) == 28657;
    assert Fib(22) == 46368;
    assert Fib(23) == 75025;
    assert Fib(24) == 121393;
    assert Fib(25) == 196418;
    assert Fib(26) == 317811;
    assert Fib(27) == 514229;
    assert Fib(28) == 832040;
    assert Fib(29) == 1346269;
    assert Fib(30) == 2178309;
    assert Fib(31) == 3524578;
    assert Fib(32) == 5702887;
    assert Fib(33) == 9227465;
    assert Fib(34) == 14930352;
    assert Fib(35) == 24157817;
    assert Fib(36) == 39088169;
    assert Fib(37) == 63245986;
    assert Fib(38) == 102334155;
    assert Fib(39) == 165580141;
    assert Fib(40) == 267914296;
    assert Fib(41) == 433494437;
    assert Fib(42) == 701408733;
    assert Fib(43) == 1134903170;
    assert Fib(44) == 1836311903;
    assert Fib(45) == 2971215073;
    FibMonotoneFrom(44, n);
    FibMonotoneFrom(45, n);
  }

  lemma {:induction false} FibMonotoneFrom(m: nat, n: nat)
    ensures m <= n ==> Fib(m) <= Fib(n)
    decreases n
  {
    if m < n {
      FibMonotoneFrom(m, n - 1);
      if n >= 2 {
        FibPositiveMonotone(n);
      }
    }
  }
}

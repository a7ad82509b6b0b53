/**
 * Binary diagnostic (src/day_03.c): the gamma rate takes, bit by bit from
 * the most significant down, the value most common among the report's
 * numbers; the epsilon rate is its inversion over the same width.
 */
module Diagnostic {
  import opened Wrappers

  function Pow2(k: nat): (p: nat)
    ensures p >= 1
  {
    if k == 0 then 1 else 2 * Pow2(k - 1)
  }

  /** Bit `k` of `x`, bit 0 being the units. */
  function Bit(x: nat, k: nat): (r: nat)
    ensures r < 2
  {
    if k == 0 then x % 2 else Bit(x / 2, k - 1)
  }

  lemma {:induction false} BitOfDouble(x: nat, b: nat, k: nat)
    requires b < 2
    ensures Bit(2 * x + b, k) == if k == 0 then b else Bit(x, k - 1)
  {
    if k > 0 {
      assert (2 * x + b) / 2 == x;
    }
  }

  // ------------------------------------------------------------ widths

  /** The index of the highest set bit of `num`, counting a number at most 1 as bit 0. */
  function MostSignificantBit(num: int): (r: nat)
    ensures num >= 1 ==> Pow2(r) <= num < Pow2(r + 1)
    ensures num <= 1 ==> r == 0
    decreases if num > 0 then num else 0
  {
    if num > 1 then MostSignificantBit(num / 2) + 1 else 0
  }

  /** Bitwise or of two numbers. */
  function Or(x: nat, y: nat): nat
  {
    if x == 0 then y
    else if y == 0 then x
    else 2 * Or(x / 2, y / 2) + (if x % 2 == 1 || y % 2 == 1 then 1 else 0)
  }

  lemma {:induction false} OrAtLeast(x: nat, y: nat)
    ensures Or(x, y) >= x && Or(x, y) >= y
  {
    if x != 0 && y != 0 {
      OrAtLeast(x / 2, y / 2);
    }
  }

  lemma {:induction false} OrBelow(x: nat, y: nat, k: nat)
    requires x < Pow2(k) && y < Pow2(k)
    ensures Or(x, y) < Pow2(k)
  {
    if x != 0 && y != 0 {
      OrBelow(x / 2, y / 2, k - 1);
    }
  }

  /** The or of all numbers of the report. */
  function OrOf(s: seq<nat>): nat
  {
    if s == [] then 0 else Or(OrOf(s[..|s| - 1]), s[|s| - 1])
  }

  /** The or of the numbers is at least each of them, and fits any width they all fit. */
  lemma {:induction false} OrOfBounds(s: seq<nat>, k: nat)
    ensures forall i :: 0 <= i < |s| ==> s[i] <= OrOf(s)
    ensures (forall i :: 0 <= i < |s| ==> s[i] < Pow2(k)) ==> OrOf(s) < Pow2(k)
  {
    if s != [] {
      var pre := s[..|s| - 1];
      OrOfBounds(pre, k);
      OrAtLeast(OrOf(pre), s[|s| - 1]);
      if forall i :: 0 <= i < |s| ==> s[i] < Pow2(k) {
        assert forall i :: 0 <= i < |pre| ==> pre[i] == s[i];
        OrBelow(OrOf(pre), s[|s| - 1], k);
      }
    }
  }

  lemma {:induction false} Pow2Grows(j: nat, k: nat)
    requires j <= k
    ensures Pow2(j) <= Pow2(k)
    decreases k
  {
    if j < k {
      Pow2Grows(j, k - 1);
    }
  }

  /** The index of the highest set bit of `num`. */
  method FindMostSignificantBit(num: int) returns (r: nat)
    ensures r == MostSignificantBit(num)
  {
    r := 0;
    var n := num;
    while n > 1
      invariant MostSignificantBit(num) == MostSignificantBit(n) + r
      decreases if n > 0 then n else 0
    {
      n := n / 2;
      r := r + 1;
    }
  }

  /**
   * The width of the report: every number fits in bits 0 .. r, and some
   * number sets bit r unless r is 0.
   */
  method FindMostSignificantBitOfAll(a: array<nat>) returns (r: nat)
    ensures r == MostSignificantBit(OrOf(a[..]))
    ensures forall i :: 0 <= i < a.Length ==> a[i] < Pow2(r + 1)
    ensures r == 0 || exists i :: 0 <= i < a.Length && a[i] >= Pow2(r)
  {
    var all := 0;
    var i := 0;
    while i < a.Length
      invariant 0 <= i <= a.Length && all == OrOf(a[..i])
    {
      assert a[..i + 1][..i] == a[..i];
      all := Or(all, a[i]);
      i := i + 1;
    }
    assert a[..i] == a[..];
    r := FindMostSignificantBit(all);
    OrOfBounds(a[..], r + 1);
    if r > 0 {
      OrOfBounds(a[..], r);
    }
  }

  // ----------------------------------------------------------- inversion

  /** `~num & mask` with the mask of bits 0 .. w - 1: those bits of `num` flipped, every bit above clear. */
  function Complement(num: nat, w: nat): (r: nat)
    ensures r < Pow2(w)
  {
    if w == 0 then 0 else 2 * Complement(num / 2, w - 1) + (1 - num % 2)
  }

  /** The inversion over bits 0 .. maxBit. */
  function Invert(num: nat, maxBit: nat): nat
  {
    Complement(num, maxBit + 1)
  }

  lemma {:induction false} ZeroBits(k: nat)
    ensures Bit(0, k) == 0
  {
    if k > 0 {
      ZeroBits(k - 1);
    }
  }

  /** Inversion flips bits 0 .. maxBit and clears every bit above. */
  lemma {:induction false} InvertBits(num: nat, maxBit: nat, k: nat)
    ensures Bit(Invert(num, maxBit), k) == if k <= maxBit then 1 - Bit(num, k) else 0
    decreases maxBit
  {
    var high := if maxBit == 0 then 0 else Invert(num / 2, maxBit - 1);
    assert Invert(num, maxBit) == 2 * high + (1 - num % 2) by {
      if maxBit == 0 {
        assert Complement(num / 2, 0) == 0;
      }
    }
    BitOfDouble(high, 1 - num % 2, k);
    if k > 0 {
      if maxBit == 0 {
        ZeroBits(k - 1);
      } else {
        InvertBits(num / 2, maxBit - 1, k - 1);
      }
    }
  }

  /** A number of the width and its inversion add up to the mask of that width. */
  lemma {:induction false} InvertAddsToMask(num: nat, maxBit: nat)
    requires num < Pow2(maxBit + 1)
    ensures num + Invert(num, maxBit) == Pow2(maxBit + 1) - 1
    decreases maxBit
  {
    if maxBit > 0 {
      InvertAddsToMask(num / 2, maxBit - 1);
    }
  }

  // ------------------------------------------------------------ majority

  /** How many of the numbers have bit `k` set. */
  function Ones(s: seq<nat>, k: nat): (r: nat)
    ensures r <= |s|
  {
    if s == [] then 0 else Ones(s[..|s| - 1], k) + Bit(s[|s| - 1], k)
  }

  /** The bit the C code takes as the more common one, from `ones` set bits among `len` numbers; equality with `len / 2` fails. */
  function MostCommonAsWritten(ones: nat, len: nat): Result<nat, nat>
  {
    if ones > len / 2 then Ok(1) else if ones < len / 2 then Ok(0) else Err(ones)
  }

  /** The more common bit value: 1 when set bits outnumber clear ones, 0 when fewer, a failure when as many. */
  function MostCommon(ones: nat, len: nat): (r: Result<nat, nat>)
    requires ones <= len
    ensures r.Ok? ==> r.value < 2
    ensures r == Ok(1) <==> ones > len - ones
    ensures r == Ok(0) <==> ones < len - ones
    ensures r.Err? <==> ones == len - ones
  {
    if 2 * ones > len then Ok(1) else if 2 * ones < len then Ok(0) else Err(ones)
  }

  /** With five numbers, two of them set, clear bits are the majority, yet the C code fails. */
  lemma MostCommonMisfires()
    ensures MostCommonAsWritten(2, 5).Err? && MostCommon(2, 5) == Ok(0)
  {
  }

  /** On an even count, and whenever the counts are apart, the C code agrees with the majority. */
  lemma MostCommonAgrees(ones: nat, len: nat)
    requires ones <= len && (len % 2 == 0 || ones != len / 2)
    ensures MostCommonAsWritten(ones, len) == MostCommon(ones, len)
  {
  }

  /** The count of numbers with bit `k` set. */
  method CountOnes(a: array<nat>, k: nat) returns (ones: nat)
    ensures ones == Ones(a[..], k)
  {
    ones := 0;
    var i := 0;
    while i < a.Length
      invariant 0 <= i <= a.Length && ones == Ones(a[..i], k)
    {
      assert a[..i + 1][..i] == a[..i];
      ones := ones + Bit(a[i], k);
      i := i + 1;
    }
    assert a[..i] == a[..];
  }

  // --------------------------------------------------------------- gamma

  /**
   * The rate built from the majority bits msb, msb - 1, … , msb - t + 1,
   * most significant first; a failure names the first tied bit.
   */
  function Built(s: seq<nat>, msb: nat, t: nat): Result<nat, nat>
    requires t <= msb + 1
  {
    if t == 0 then Ok(0)
    else
      match Built(s, msb, t - 1)
      case Err(e) => Err(e)
      case Ok(high) =>
        var k := msb - (t - 1);
        match MostCommon(Ones(s, k), |s|)
        case Err(_) => Err(k)
        case Ok(b) => Ok(2 * high + b)
  }

  /**
   * The built value holds the majority of each bit it has taken, in place,
   * and nothing above them; it fails exactly when one of them is tied.
   */
  lemma {:induction false} BuiltBits(s: seq<nat>, msb: nat, t: nat)
    requires t <= msb + 1
    ensures Built(s, msb, t).Err? <==> exists k :: msb + 1 - t <= k <= msb && MostCommon(Ones(s, k), |s|).Err?
    ensures Built(s, msb, t).Ok? ==> Built(s, msb, t).value < Pow2(t)
    ensures Built(s, msb, t).Ok? ==> forall j: nat :: j < t ==>
      Bit(Built(s, msb, t).value, j) == MostCommon(Ones(s, msb + 1 - t + j), |s|).value
    ensures Built(s, msb, t).Ok? ==> forall j: nat :: j >= t ==> Bit(Built(s, msb, t).value, j) == 0
  {
    if t == 0 {
      forall j: nat
        ensures Bit(0, j) == 0
      {
        ZeroBits(j);
      }
    } else {
      BuiltBits(s, msb, t - 1);
      var k := msb - (t - 1);
      if Built(s, msb, t).Ok? {
        var high := Built(s, msb, t - 1).value;
        var b := MostCommon(Ones(s, k), |s|).value;
        var x := 2 * high + b;
        forall j: nat
          ensures Bit(x, j) == if j == 0 then b else Bit(high, j - 1)
        {
          BitOfDouble(high, b, j);
        }
      } else if Built(s, msb, t - 1).Ok? {
        assert MostCommon(Ones(s, k), |s|).Err?;
      }
    }
  }

  lemma {:induction false} BuiltErrPersists(s: seq<nat>, msb: nat, t: nat, u: nat)
    requires t <= u <= msb + 1 && Built(s, msb, t).Err?
    ensures Built(s, msb, u) == Built(s, msb, t)
    decreases u
  {
    if t < u {
      BuiltErrPersists(s, msb, t, u - 1);
    }
  }

  /** The gamma rate over bits 0 .. msb, or the first bit whose counts tie. */
  method MostCommonNumber(a: array<nat>, msb: nat) returns (r: Result<nat, nat>)
    ensures r == Built(a[..], msb, msb + 1)
  {
    var value := 0;
    var current := msb as int;
    while current >= 0
      invariant -1 <= current <= msb
      invariant Built(a[..], msb, msb - current) == Ok(value)
    {
      var ones := CountOnes(a, current);
      var bit := MostCommon(ones, a.Length);
      if bit.Err? {
        BuiltErrPersists(a[..], msb, msb - current + 1, msb + 1);
        return Err(current);
      }
      value := value * 2;
      value := value + bit.value;
      current := current - 1;
    }
    r := Ok(value);
  }

  /**
   * Epsilon, the inversion of gamma over the same width, takes at every bit
   * the less common value.
   */
  lemma EpsilonIsMinority(s: seq<nat>, msb: nat, k: nat)
    requires Built(s, msb, msb + 1).Ok? && k <= msb
    ensures MostCommon(Ones(s, k), |s|).Ok?
    ensures Bit(Invert(Built(s, msb, msb + 1).value, msb), k) == 1 <==> Ones(s, k) < |s| - Ones(s, k)
  {
    BuiltBits(s, msb, msb + 1);
    InvertBits(Built(s, msb, msb + 1).value, msb, k);
  }
}

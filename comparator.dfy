/**
 * The three-way comparison that the generic skip list uses to order members
 * whose scores are equal (`ComparatorUtil.comparator`).
 *
 * Java's runtime types are modelled by a small value datatype: `null`, the
 * boxed integral numbers, the three character-sequence classes, and any other
 * class, known only by its name. Character sequences are sequences of UTF-16
 * code units, which is what `String.compareTo` compares.
 */
module ComparatorUtil {

  datatype Result<+T, +E> = Ok(value: T) | Err(error: E)

  /** Integral boxed types; the comparator reads each through `doubleValue`. */
  datatype NumClass = Integer | Long | Short | Byte

  /** One UTF-16 code unit, a Java `char`. */
  newtype CodeUnit = x: int | 0 <= x < 0x1_0000

  /** The contents of a `CharSequence`. */
  type Chars = seq<CodeUnit>

  /** 2^53: every integer of at most this magnitude is a `double` exactly. */
  const TWO_53: int := 0x20_0000_0000_0000

  /** Classes that the comparator reads as a `CharSequence`. */
  datatype TextClass = JString | JStringBuilder | JStringBuffer

  datatype Value =
    | Null
    | Num(ncls: NumClass, n: int)
    | Text(tcls: TextClass, s: Chars)
    | Obj(name: string)

  datatype CompareError = IllegalArgument | UnsupportedOperation

  /** `o1.getClass().equals(o2.getClass())` for two non-null values. */
  predicate SameClass(a: Value, b: Value)
  {
    match (a, b)
    case (Num(c, _), Num(d, _)) => c == d
    case (Text(c, _), Text(d, _)) => c == d
    case (Obj(c), Obj(d)) => c == d
    case _ => false
  }

  /**
   * The gap between neighbouring `double`s around `n`: 1 below 2^53, and
   * doubled at every further power of two.
   */
  function Spacing(n: nat): (p: nat)
    ensures p >= 1 && n < TWO_53 * p
    ensures p == 1 || TWO_53 * p <= 2 * n
  {
    if n < TWO_53 then 1 else 2 * Spacing(n / 2)
  }

  /** The largest multiple of `Spacing(n)` at or below `n`: `n` with its low bits cleared. */
  function Floor(n: nat): (f: nat)
    ensures f <= n < f + Spacing(n)
  {
    if n < TWO_53 then n else 2 * Floor(n / 2)
  }

  /** Whether `Floor(n)` is an even multiple of `Spacing(n)`: the last bit of the significand. */
  predicate EvenSignificand(n: nat)
  {
    if n < TWO_53 then n % 2 == 0 else EvenSignificand(n / 2)
  }

  /** `n` rounded to a nearest multiple of its spacing, ties to an even significand. */
  function RoundNat(n: nat): (r: nat)
    ensures 2 * (r - n) <= Spacing(n) && 2 * (n - r) <= Spacing(n)
  {
    var p, lo := Spacing(n), Floor(n);
    var rem := n - lo;
    if 2 * rem < p || (2 * rem == p && EvenSignificand(n)) then lo else lo + p
  }

  /** Integers up to 2^53 are their own spacing-1 rounding. */
  lemma RoundExact(n: nat)
    ensures n <= TWO_53 ==> RoundNat(n) == n
  {
    if n == TWO_53 {
      assert Spacing(TWO_53 / 2) == 1 && Floor(TWO_53 / 2) == TWO_53 / 2;
    }
  }

  /** `Number.doubleValue` of an integral value: round to nearest, ties to even. */
  function ToDouble(n: int): (d: int)
    ensures -TWO_53 <= n <= TWO_53 ==> d == n
    ensures (d < 0 ==> n < 0) && (d > 0 ==> n > 0)
  {
    if n >= 0 then RoundExact(n); RoundNat(n) else RoundExact(-n); -(RoundNat(-n) as int)
  }

  /** `Double.compare` on two integral `double` values: -1, 0 or 1. */
  function NumCompare(x: int, y: int): (r: int)
    ensures r < 0 <==> x < y
    ensures r == 0 <==> x == y
    ensures -1 <= r <= 1
  {
    if x < y then -1 else if x == y then 0 else 1
  }

  /**
   * `String.compareTo`: the difference of the first differing characters,
   * or else the difference of the lengths.
   */
  function StrCompare(a: Chars, b: Chars): int
  {
    if a == [] || b == [] then |a| - |b|
    else if a[0] != b[0] then a[0] as int - b[0] as int
    else StrCompare(a[1..], b[1..])
  }

  /** Lexicographic order written independently of `StrCompare`. */
  ghost predicate LexLess(a: Chars, b: Chars)
  {
    (|a| < |b| && a == b[..|a|]) ||
    exists k :: 0 <= k < |a| && k < |b| && a[..k] == b[..k] && a[k] < b[k]
  }

  /** The comparator: null first, then same-class numbers or character sequences. */
  function Comparator(o1: Value, o2: Value): (r: Result<int, CompareError>)
    ensures r.Err? <==> !o1.Null? && !o2.Null? && (!SameClass(o1, o2) || o1.Obj?)
    ensures r.Err? ==> r.error == (if SameClass(o1, o2) then UnsupportedOperation else IllegalArgument)
    ensures o1.Num? && o2.Num? ==>
      (r == Ok(0) <==> o1.ncls == o2.ncls && ToDouble(o1.n) == ToDouble(o2.n))
    ensures !(o1.Num? && o2.Num?) ==> (r == Ok(0) <==> o1 == o2 && !o1.Obj?)
  {
    if o1.Null? && o2.Null? then Ok(0)
    else if o1.Null? then Ok(-1)
    else if o2.Null? then Ok(1)
    else if !SameClass(o1, o2) then Err(IllegalArgument)
    else if o1.Num? then Ok(NumCompare(ToDouble(o1.n), ToDouble(o2.n)))
    else if o1.Text? then (StrCompareZero(o1.s, o2.s); Ok(StrCompare(o1.s, o2.s)))
    else Err(UnsupportedOperation)
  }

  /** `Comparator(a, b)` succeeded and placed `a` at or before `b`. */
  predicate NotAfter(a: Value, b: Value)
  {
    var r := Comparator(a, b); r.Ok? && r.value <= 0
  }

  /** `Comparator(a, b)` succeeded and placed `a` strictly before `b`. */
  predicate Before(a: Value, b: Value)
  {
    var r := Comparator(a, b); r.Ok? && r.value < 0
  }

  lemma {:induction false} StrCompareZero(a: Chars, b: Chars)
    ensures StrCompare(a, b) == 0 <==> a == b
  {
    if a == [] || b == [] {
    } else if a[0] != b[0] {
    } else {
      StrCompareZero(a[1..], b[1..]);
      if a[1..] == b[1..] {
        assert a == [a[0]] + a[1..] && b == [b[0]] + b[1..];
      }
    }
  }

  lemma {:induction false} StrCompareAntisymmetric(a: Chars, b: Chars)
    ensures StrCompare(b, a) == -StrCompare(a, b)
  {
    if a != [] && b != [] && a[0] == b[0] {
      StrCompareAntisymmetric(a[1..], b[1..]);
    }
  }

  lemma {:induction false} StrCompareTransitive(a: Chars, b: Chars, c: Chars)
    requires StrCompare(a, b) <= 0 && StrCompare(b, c) <= 0
    ensures StrCompare(a, c) <= 0
  {
    if a == [] || b == [] || c == [] {
    } else if a[0] == b[0] && b[0] == c[0] {
      StrCompareTransitive(a[1..], b[1..], c[1..]);
    }
  }

  /** `String.compareTo` is negative exactly on the lexicographic order. */
  lemma {:induction false} StrCompareIsLex(a: Chars, b: Chars)
    ensures StrCompare(a, b) < 0 <==> LexLess(a, b)
  {
    if a == [] {
      if b != [] { assert a == b[..0]; }
    } else if b == [] {
      assert !LexLess(a, b);
    } else if a[0] != b[0] {
      if a[0] < b[0] {
        assert a[..0] == b[..0];
      } else {
        forall k | 0 < k <= |a| && k <= |b|
          ensures a[..k][0] == a[0] && b[..k][0] == b[0]
        {
        }
        assert !(|a| < |b| && a == b[..|a|]) by {
          if |a| < |b| { assert b[..|a|][0] == b[0]; }
        }
      }
    } else {
      StrCompareIsLex(a[1..], b[1..]);
      LexLessTail(a, b);
    }
  }

  /** With equal first characters, the order is decided by the tails. */
  lemma LexLessTail(a: Chars, b: Chars)
    requires a != [] && b != [] && a[0] == b[0]
    ensures LexLess(a, b) <==> LexLess(a[1..], b[1..])
  {
    if LexLess(a[1..], b[1..]) {
      if |a[1..]| < |b[1..]| && a[1..] == b[1..][..|a[1..]|] {
        assert a == [a[0]] + a[1..];
        assert b[..|a|] == [b[0]] + b[1..][..|a| - 1];
      } else {
        var k :| 0 <= k < |a[1..]| && k < |b[1..]| && a[1..][..k] == b[1..][..k] && a[1..][k] < b[1..][k];
        assert a[..k + 1] == [a[0]] + a[1..][..k];
        assert b[..k + 1] == [b[0]] + b[1..][..k];
        assert a[k + 1] < b[k + 1];
      }
    }
    if LexLess(a, b) {
      if |a| < |b| && a == b[..|a|] {
        assert a[1..] == b[1..][..|a[1..]|];
      } else {
        var k :| 0 <= k < |a| && k < |b| && a[..k] == b[..k] && a[k] < b[k];
        assert k != 0;
        assert a[1..][..k - 1] == a[..k][1..] == b[..k][1..] == b[1..][..k - 1];
        assert a[1..][k - 1] < b[1..][k - 1];
      }
    }
  }

  /** Swapping the arguments negates the sign and keeps an error unchanged. */
  lemma ComparatorAntisymmetric(a: Value, b: Value)
    ensures Comparator(a, b).Err? <==> Comparator(b, a).Err?
    ensures Comparator(a, b).Err? ==> Comparator(a, b).error == Comparator(b, a).error
    ensures Comparator(a, b).Ok? ==>
      (Comparator(a, b).value < 0 <==> Comparator(b, a).value > 0) &&
      (Comparator(a, b).value == 0 <==> Comparator(b, a).value == 0)
  {
    if a.Text? && b.Text? { StrCompareAntisymmetric(a.s, b.s); }
  }

  /** The non-strict order is transitive, even across nulls and classes. */
  lemma ComparatorTransitive(a: Value, b: Value, c: Value)
    requires NotAfter(a, b) && NotAfter(b, c)
    ensures NotAfter(a, c)
    ensures Before(a, b) || Before(b, c) ==> Before(a, c)
  {
    if a.Text? && b.Text? && c.Text? {
      StrCompareTransitive(a.s, b.s, c.s);
      StrCompareZero(a.s, c.s);
      StrCompareZero(a.s, b.s);
      StrCompareZero(b.s, c.s);
      if a.s == c.s {
        StrCompareAntisymmetric(a.s, b.s);
      }
    }
  }

  /**
   * Numbers compare by their `double` values, which is by value up to 2^53
   * and never against the order of the values above it; character sequences
   * compare lexicographically by code unit.
   */
  lemma ComparatorOrder(a: Value, b: Value)
    requires Comparator(a, b).Ok?
    ensures a.Num? && b.Num? ==> (Before(a, b) <==> ToDouble(a.n) < ToDouble(b.n))
    ensures a.Num? && b.Num? && -TWO_53 <= a.n <= TWO_53 && -TWO_53 <= b.n <= TWO_53 ==>
      (Before(a, b) <==> a.n < b.n)
    ensures a.Text? && b.Text? ==> (Before(a, b) <==> LexLess(a.s, b.s))
    ensures a.Num? && b.Num? && a.n <= b.n ==> !Before(b, a)
    ensures a.Null? && !b.Null? ==> Before(a, b)
  {
    if a.Text? && b.Text? { StrCompareIsLex(a.s, b.s); }
    if a.Num? && b.Num? && a.n <= b.n { ToDoubleMonotone(a.n, b.n); }
  }

  /** Two distinct `Long`s above 2^53 can round to the same `double` and compare equal. */
  lemma LongsRoundTogether()
    ensures Comparator(Num(Long, TWO_53), Num(Long, TWO_53 + 1)) == Ok(0)
  {
    assert Spacing(TWO_53 / 2) == 1 && Floor(TWO_53 / 2) == TWO_53 / 2;
    assert Spacing(TWO_53) == 2 && Floor(TWO_53) == TWO_53;
    assert EvenSignificand(TWO_53 + 1) == EvenSignificand(TWO_53 / 2);
    assert Spacing(TWO_53 + 1) == 2 && Floor(TWO_53 + 1) == TWO_53;
  }

  /** `p` is a power of two. */
  predicate IsPow2(p: nat)
  {
    p == 1 || (p >= 2 && p % 2 == 0 && IsPow2(p / 2))
  }

  /** `f` is a multiple of `p`, by repeated subtraction. */
  predicate MultipleOf(f: nat, p: nat)
    requires p >= 1
    decreases f
  {
    if f < p then f == 0 else MultipleOf(f - p, p)
  }

  lemma {:induction false} MultipleOfOne(f: nat)
    ensures MultipleOf(f, 1)
  {
    if f >= 1 { MultipleOfOne(f - 1); }
  }

  lemma {:induction false} MultipleOfTwo(f: nat)
    ensures MultipleOf(f, 2) <==> f % 2 == 0
  {
    if f >= 2 { MultipleOfTwo(f - 2); }
  }

  /** Doubling both numbers keeps and reflects being a multiple. */
  lemma {:induction false} MultipleOfDouble(f: nat, p: nat)
    requires p >= 1
    ensures MultipleOf(2 * f, 2 * p) <==> MultipleOf(f, p)
    decreases f
  {
    if f >= p { MultipleOfDouble(f - p, p); }
  }

  /** Two distinct multiples of `p` are at least `p` apart. */
  lemma {:induction false} MultipleGap(a: nat, b: nat, p: nat)
    requires p >= 1 && MultipleOf(a, p) && MultipleOf(b, p) && a < b
    ensures a + p <= b
    decreases a
  {
    if a >= p { MultipleGap(a - p, b - p, p); }
  }

  /** A larger power of two is at least twice as large. */
  lemma {:induction false} Pow2Gap(p: nat, q: nat)
    requires IsPow2(p) && IsPow2(q) && p < q
    ensures 2 * p <= q
  {
    if p >= 2 { Pow2Gap(p / 2, q / 2); }
  }

  lemma {:induction false} SpacingIsPow2(n: nat)
    ensures IsPow2(Spacing(n))
  {
    if n >= TWO_53 { SpacingIsPow2(n / 2); }
  }

  /**
   * The spacing around `n` is the one power of two `p` with `n < 2^53 * p`
   * that is 1 or at most `2 * n / 2^53`: the unit in the last place of a
   * 53-bit significand.
   */
  lemma SpacingIsGap(n: nat, p: nat)
    ensures (IsPow2(p) && n < TWO_53 * p && (p == 1 || TWO_53 * p <= 2 * n)) <==> p == Spacing(n)
  {
    SpacingIsPow2(n);
    var s := Spacing(n);
    if IsPow2(p) && n < TWO_53 * p && (p == 1 || TWO_53 * p <= 2 * n) {
      if p < s {
        Pow2Gap(p, s);
      } else if s < p {
        Pow2Gap(s, p);
      }
    }
  }

  lemma {:induction false} FloorMultiple(n: nat)
    ensures MultipleOf(Floor(n), Spacing(n))
  {
    if n < TWO_53 {
      MultipleOfOne(n);
    } else {
      FloorMultiple(n / 2);
      MultipleOfDouble(Floor(n / 2), Spacing(n / 2));
    }
  }

  /** `Floor(n)` is the one multiple of the spacing within one spacing at or below `n`. */
  lemma FloorIsMultiple(n: nat, f: nat)
    ensures (MultipleOf(f, Spacing(n)) && f <= n < f + Spacing(n)) <==> f == Floor(n)
  {
    FloorMultiple(n);
    if MultipleOf(f, Spacing(n)) && f <= n < f + Spacing(n) {
      if f < Floor(n) {
        MultipleGap(f, Floor(n), Spacing(n));
      } else if Floor(n) < f {
        MultipleGap(Floor(n), f, Spacing(n));
      }
    }
  }

  /** `EvenSignificand(n)` says that `Floor(n)` is an even multiple of the spacing. */
  lemma {:induction false} EvenSignificandMeaning(n: nat)
    ensures EvenSignificand(n) <==> MultipleOf(Floor(n), 2 * Spacing(n))
  {
    if n < TWO_53 {
      MultipleOfTwo(n);
    } else {
      EvenSignificandMeaning(n / 2);
      MultipleOfDouble(Floor(n / 2), 2 * Spacing(n / 2));
    }
  }

  /**
   * Rounding picks the multiple of the spacing just below or just above `n`,
   * whichever is nearer, and on a tie the one that is an even multiple.
   */
  lemma RoundNatNearest(n: nat)
    ensures RoundNat(n) == Floor(n) || RoundNat(n) == Floor(n) + Spacing(n)
    ensures 2 * (n - Floor(n)) < Spacing(n) ==> RoundNat(n) == Floor(n)
    ensures 2 * (n - Floor(n)) > Spacing(n) ==> RoundNat(n) == Floor(n) + Spacing(n)
    ensures 2 * (n - Floor(n)) == Spacing(n) ==>
      (RoundNat(n) == Floor(n) <==> MultipleOf(Floor(n), 2 * Spacing(n)))
  {
    EvenSignificandMeaning(n);
  }

  /** The largest multiple below the next power-of-two boundary is one spacing short of it. */
  lemma {:induction false} FloorBelowBoundary(n: nat)
    ensures Floor(n) + Spacing(n) <= TWO_53 * Spacing(n)
  {
    if n >= TWO_53 { FloorBelowBoundary(n / 2); }
  }

  /** Above 2^53 the floor is at least the power-of-two boundary below `n`. */
  lemma {:induction false} FloorAboveBoundary(n: nat)
    requires Spacing(n) > 1
    ensures TWO_53 * Spacing(n) <= 2 * Floor(n)
  {
    if n / 2 >= TWO_53 { FloorAboveBoundary(n / 2); }
  }

  lemma {:induction false} SpacingMonotone(n: nat, m: nat)
    requires n <= m
    ensures Spacing(n) <= Spacing(m)
  {
    if n >= TWO_53 { SpacingMonotone(n / 2, m / 2); }
  }

  /** With one spacing for both, the floors are equal or a whole spacing apart. */
  lemma RoundSameSpacing(n: nat, m: nat)
    requires n <= m && Spacing(n) == Spacing(m)
    ensures RoundNat(n) <= RoundNat(m)
  {
    var p := Spacing(n);
    RoundNatNearest(n);
    RoundNatNearest(m);
    FloorMultiple(n);
    FloorMultiple(m);
    if Floor(n) < Floor(m) {
      MultipleGap(Floor(n), Floor(m), p);
    } else if Floor(m) < Floor(n) {
      MultipleGap(Floor(m), Floor(n), p);
    }
  }

  /** With a coarser spacing for `m`, a power-of-two boundary lies between the two roundings. */
  lemma RoundAcrossBoundary(n: nat, m: nat)
    requires Spacing(n) < Spacing(m)
    ensures RoundNat(n) <= RoundNat(m)
  {
    RoundNatNearest(n);
    RoundNatNearest(m);
    SpacingIsPow2(n);
    SpacingIsPow2(m);
    Pow2Gap(Spacing(n), Spacing(m));
    FloorBelowBoundary(n);
    FloorAboveBoundary(m);
  }

  /** Rounding never reverses the order of two numbers. */
  lemma RoundNatMonotone(n: nat, m: nat)
    requires n <= m
    ensures RoundNat(n) <= RoundNat(m)
  {
    SpacingMonotone(n, m);
    if Spacing(n) == Spacing(m) {
      RoundSameSpacing(n, m);
    } else {
      RoundAcrossBoundary(n, m);
    }
  }

  /** `doubleValue` is monotone: a larger integer never reads as a smaller `double`. */
  lemma ToDoubleMonotone(x: int, y: int)
    requires x <= y
    ensures ToDouble(x) <= ToDouble(y)
  {
    var rx := if 0 <= x then RoundNat(x) else -(RoundNat(-x) as int);
    var ry := if 0 <= y then RoundNat(y) else -(RoundNat(-y) as int);
    assert ToDouble(x) == rx && ToDouble(y) == ry;
    if 0 <= x {
      RoundNatMonotone(x, y);
    } else if y < 0 {
      RoundNatMonotone(-y, -x);
    }
  }
}

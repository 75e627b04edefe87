/** `StringHash.SDBMLower`: the case-insensitive SDBM hash that gives a
    subscriber its primary key. The 32-bit arithmetic of the C# expression is
    written out step by step: the `(int)` and `(uint)` casts and every int
    operation wrap modulo 2^32 (unchecked context, the C# default). */
module StringHash {
  import opened Wrappers

  const TwoTo16: int := 0x1_0000
  const TwoTo31: int := 0x8000_0000
  const TwoTo32: int := 0x1_0000_0000

  /** The SDBM multiplier: (h << 6) + (h << 16) - h == h * 65599. */
  const Multiplier: int := 65599

  type UInt32 = x: int | 0 <= x < TwoTo32
  type Int32 = x: int | -TwoTo31 <= x < TwoTo31

  /** A UTF-16 code unit, the element type of a C# string. */
  type CodeUnit = x: int | 0 <= x < TwoTo16

  /** `a` and `b` are equal modulo 2^32. */
  predicate Cong(a: int, b: int) {
    (a - b) % TwoTo32 == 0
  }

  /** `(uint)x`, and the result of uint arithmetic: reduction modulo 2^32. */
  function ToUInt32(x: int): (r: UInt32)
    ensures Cong(r, x)
  {
    x % TwoTo32
  }

  /** `(int)x`, and the result of int arithmetic: the two's complement value
      of the low 32 bits. */
  function ToInt32(x: int): (r: Int32)
    ensures Cong(r, x)
    ensures 0 <= x < TwoTo31 ==> r == x
  {
    var u := x % TwoTo32;
    if u < TwoTo31 then u else u - TwoTo32
  }

  /** The UTF-16 code units of one Unicode scalar value. */
  function CharUnits(c: char): (r: seq<CodeUnit>)
    ensures 1 <= |r| <= 2
    ensures |r| == 1 <==> (c as int) < TwoTo16
  {
    var v := c as int;
    if v < TwoTo16 then [v]
    else
      var w := v - TwoTo16;
      [0xD800 + w / 0x400, 0xDC00 + w % 0x400]
  }

  /** The UTF-16 code units of a string, which is what a C# string holds. */
  function Utf16(s: string): (r: seq<CodeUnit>)
    ensures |r| >= |s|
    decreases |s|
  {
    if |s| == 0 then [] else CharUnits(s[0]) + Utf16(s[1..])
  }

  lemma {:induction false} Utf16Append(s: string, t: string)
    ensures Utf16(s + t) == Utf16(s) + Utf16(t)
    decreases |s|
  {
    if |s| == 0 {
      assert s + t == t;
    } else {
      assert (s + t)[1..] == s[1..] + t;
      Utf16Append(s[1..], t);
    }
  }

  /** `char.ToLower` on one code unit; only A-Z have a lower-case form here. */
  function ToLower(u: CodeUnit): (r: CodeUnit)
    ensures !('A' as int <= r <= 'Z' as int)
    ensures r == u || 'A' as int <= u <= 'Z' as int
  {
    if 'A' as int <= u <= 'Z' as int then u + 32 else u
  }

  /** Lower-case form of one character (A-Z only), and of a whole string. */
  function LowerChar(c: char): (r: char)
    ensures !('A' <= r <= 'Z')
    ensures r == c || 'A' <= c <= 'Z'
  {
    if 'A' <= c <= 'Z' then (c as int + 32) as char else c
  }

  function UpperChar(c: char): (r: char)
    ensures !('a' <= r <= 'z')
    ensures r == c || 'a' <= c <= 'z'
  {
    if 'a' <= c <= 'z' then (c as int - 32) as char else c
  }

  function LowerString(s: string): (r: string)
    ensures |r| == |s|
    ensures forall i | 0 <= i < |s| :: r[i] == LowerChar(s[i])
  {
    seq(|s|, i requires 0 <= i < |s| => LowerChar(s[i]))
  }

  function UpperString(s: string): (r: string)
    ensures |r| == |s|
    ensures forall i | 0 <= i < |s| :: r[i] == UpperChar(s[i])
  {
    seq(|s|, i requires 0 <= i < |s| => UpperChar(s[i]))
  }

  /** Two strings that differ at most in the case of their letters. */
  predicate SameUpToCase(a: string, b: string) {
    |a| == |b| && forall i | 0 <= i < |a| :: LowerChar(a[i]) == LowerChar(b[i])
  }

  /** One iteration of the loop, as written:
      `hash = (uint)(char.ToLower(c) + ((int)hash << 6) + ((int)hash << 16)) - hash`. */
  function Step(hash: UInt32, lower: CodeUnit): UInt32 {
    var h: int := ToInt32(hash);
    var sum: int := ToInt32(ToInt32(lower + ToInt32(h * 64)) + ToInt32(h * 65536));
    ToUInt32(ToUInt32(sum) - hash)
  }

  /** The loop from accumulator `hash` over the remaining code units. */
  function Fold(hash: UInt32, units: seq<CodeUnit>): UInt32
    decreases |units|
  {
    if |units| == 0 then hash else Fold(Step(hash, ToLower(units[0])), units[1..])
  }

  /** The unsigned accumulator after the loop has run over all of `s`. */
  function Accumulator(s: string): UInt32 {
    Fold(0, Utf16(s))
  }

  /** `StringHash.SDBMLower`: 0 for null, otherwise the accumulator read back
      as a signed 32-bit int. */
  function SDBMLower(s: Nullable<string>): (r: int)
    ensures -TwoTo31 <= r < TwoTo31
    ensures s.Null? ==> r == 0
    ensures s == NonNull([]) ==> r == 0
    ensures s.NonNull? ==> Cong(r, Accumulator(s.value))
  {
    if s.Null? then 0 else ToInt32(Accumulator(s.value))
  }

  /** Reference definition: the polynomial hash sum of x_i * 65599^(n-1-i),
      reduced modulo 2^32, written as a fold from the last element. */
  function Poly(xs: seq<int>): UInt32
    decreases |xs|
  {
    if |xs| == 0 then 0 else ToUInt32(Poly(xs[..|xs| - 1]) * Multiplier + xs[|xs| - 1])
  }

  function LowerUnits(units: seq<CodeUnit>): (r: seq<CodeUnit>)
    ensures |r| == |units|
    ensures forall i | 0 <= i < |units| :: r[i] == ToLower(units[i])
  {
    seq(|units|, i requires 0 <= i < |units| => ToLower(units[i]))
  }

  lemma CongAdd(a: int, b: int, c: int, d: int)
    requires Cong(a, b) && Cong(c, d)
    ensures Cong(a + c, b + d)
  {
    var q1, q2 := (a - b) / TwoTo32, (c - d) / TwoTo32;
    assert a + c - (b + d) == (q1 + q2) * TwoTo32;
  }

  lemma CongScale(a: int, b: int, k: int)
    requires Cong(a, b)
    ensures Cong(a * k, b * k)
  {
    var q := (a - b) / TwoTo32;
    assert a - b == q * TwoTo32;
    assert a * k - b * k == (q * k) * TwoTo32;
  }

  lemma CongTrans(a: int, b: int, c: int)
    requires Cong(a, b) && Cong(b, c)
    ensures Cong(a, c)
  {
    CongAdd(a, b, b, c);
    assert a - c == a + b - (b + c);
  }

  lemma CongSameUInt32(a: int, b: int)
    requires Cong(a, b)
    ensures ToUInt32(a) == ToUInt32(b)
  {
    var q := (a - b) / TwoTo32;
    assert a == b + q * TwoTo32;
  }

  /** The shift form of the step is multiply-and-add modulo 2^32. */
  lemma StepIsMultiplyAdd(hash: UInt32, lower: CodeUnit)
    ensures Step(hash, lower) == ToUInt32(hash * Multiplier + lower)
  {
    var h: int := ToInt32(hash);
    var a: int := ToInt32(h * 64);
    var b: int := ToInt32(lower + a);
    var c: int := ToInt32(h * 65536);
    var sum: int := ToInt32(b + c);
    StepUnfold(hash, lower, h, sum);
    ShiftSumCong(hash, lower, h, a, b, c, sum);
    MultiplierSplit(hash);
    CongFinish(ToUInt32(sum), sum, lower, hash * 64 + hash * 65536, hash, hash * Multiplier);
  }

  lemma StepUnfold(hash: UInt32, lower: CodeUnit, h: int, sum: int)
    requires h == ToInt32(hash) && sum == ToInt32(ToInt32(lower + ToInt32(h * 64)) + ToInt32(h * 65536))
    ensures Step(hash, lower) == ToUInt32(ToUInt32(sum) - hash)
  {
  }

  /** The two shifts less the value itself make the SDBM multiplier. */
  lemma MultiplierSplit(hash: int)
    ensures hash * 64 + hash * 65536 - hash == hash * Multiplier
  {
  }

  /** The last cast and subtraction of the step, taken modulo 2^32. */
  lemma CongFinish(u: int, sum: int, lower: int, shifts: int, hash: int, product: int)
    requires Cong(u, sum) && Cong(sum, lower + shifts) && shifts - hash == product
    ensures ToUInt32(u - hash) == ToUInt32(product + lower)
  {
    CongTrans(u, sum, lower + shifts);
    CongAdd(u, lower + shifts, -hash, -hash);
    assert lower + shifts + -hash == product + lower;
    CongSameUInt32(u - hash, product + lower);
  }

  /** The signed sum of the two shifts and the code unit is, modulo 2^32,
      the code unit plus `hash * 64` plus `hash * 65536`. */
  lemma ShiftSumCong(hash: UInt32, lower: CodeUnit, h: int, a: int, b: int, c: int, sum: int)
    requires h == ToInt32(hash) && a == ToInt32(h * 64) && b == ToInt32(lower + a)
    requires c == ToInt32(h * 65536) && sum == ToInt32(b + c)
    ensures Cong(sum, lower + (hash * 64 + hash * 65536))
  {
    ShiftCong(h, hash, 64);
    ShiftCong(h, hash, 65536);
    CongChain(lower, a, b, c, sum, hash * 64, hash * 65536);
  }

  /** Sums of congruent terms, taken through the intermediate casts. */
  lemma CongChain(lower: int, a: int, b: int, c: int, sum: int, wideA: int, wideC: int)
    requires Cong(a, wideA) && Cong(c, wideC) && Cong(b, lower + a) && Cong(sum, b + c)
    ensures Cong(sum, lower + (wideA + wideC))
  {
    CongAdd(lower, lower, a, wideA);
    CongTrans(b, lower + a, lower + wideA);
    CongAdd(b, lower + wideA, c, wideC);
    CongTrans(sum, b + c, lower + wideA + wideC);
  }

  /** A shift of the signed view is, modulo 2^32, the shift of the unsigned value. */
  lemma ShiftCong(h: int, hash: int, k: int)
    requires Cong(h, hash)
    ensures Cong(ToInt32(h * k), hash * k)
  {
    CongScale(h, hash, k);
    CongTrans(ToInt32(h * k), h * k, hash * k);
  }

  /** Appending one code unit runs one more step on the accumulator. */
  lemma {:induction false} FoldSnoc(hash: UInt32, units: seq<CodeUnit>, u: CodeUnit)
    ensures Fold(hash, units + [u]) == Step(Fold(hash, units), ToLower(u))
    decreases |units|
  {
    if |units| == 0 {
      assert units + [u] == [u];
    } else {
      assert (units + [u])[1..] == units[1..] + [u];
      FoldSnoc(Step(hash, ToLower(units[0])), units[1..], u);
    }
  }

  /** The loop computes the polynomial hash of the lower-cased code units. */
  lemma {:induction false} FoldIsPoly(units: seq<CodeUnit>)
    ensures Fold(0, units) == Poly(LowerUnits(units))
    decreases |units|
  {
    if |units| > 0 {
      var init := units[..|units| - 1];
      var last := units[|units| - 1];
      assert units == init + [last];
      FoldIsPoly(init);
      FoldSnoc(0, init, last);
      StepIsMultiplyAdd(Fold(0, init), ToLower(last));
      assert LowerUnits(units)[..|units| - 1] == LowerUnits(init);
    }
  }

  /** The hash of `s + [c]`, for a character that is one code unit, is one step
      applied to the hash of `s`. */
  lemma AppendChar(s: string, c: char)
    requires (c as int) < TwoTo16
    ensures Accumulator(s + [c]) == Step(Accumulator(s), ToLower(c as int))
    ensures Accumulator(s + [c]) == ToUInt32(Accumulator(s) * Multiplier + ToLower(c as int))
  {
    Utf16Append(s, [c]);
    assert Utf16([c]) == [c as int];
    FoldSnoc(0, Utf16(s), c as int);
    StepIsMultiplyAdd(Accumulator(s), ToLower(c as int));
  }

  /** Code unit sequences that agree after lower-casing fold to the same value. */
  lemma {:induction false} FoldIgnoresCase(hash: UInt32, us: seq<CodeUnit>, vs: seq<CodeUnit>)
    requires LowerUnits(us) == LowerUnits(vs)
    ensures Fold(hash, us) == Fold(hash, vs)
    decreases |us|
  {
    if |us| > 0 {
      assert ToLower(us[0]) == LowerUnits(us)[0] == ToLower(vs[0]);
      assert LowerUnits(us[1..]) == LowerUnits(us)[1..];
      assert LowerUnits(vs[1..]) == LowerUnits(vs)[1..];
      FoldIgnoresCase(Step(hash, ToLower(us[0])), us[1..], vs[1..]);
    }
  }

  lemma CharUnitsIgnoreCase(a: char, b: char)
    requires LowerChar(a) == LowerChar(b)
    ensures LowerUnits(CharUnits(a)) == LowerUnits(CharUnits(b))
  {
  }

  lemma {:induction false} Utf16IgnoresCase(a: string, b: string)
    requires SameUpToCase(a, b)
    ensures LowerUnits(Utf16(a)) == LowerUnits(Utf16(b))
    decreases |a|
  {
    if |a| > 0 {
      var a', b' := a[1..], b[1..];
      assert SameUpToCase(a', b') by {
        forall i | 0 <= i < |a'| ensures LowerChar(a'[i]) == LowerChar(b'[i]) {
          assert a'[i] == a[i + 1] && b'[i] == b[i + 1];
        }
      }
      Utf16IgnoresCase(a', b');
      CharUnitsIgnoreCase(a[0], b[0]);
      var x, y := CharUnits(a[0]), CharUnits(b[0]);
      var xs, ys := Utf16(a'), Utf16(b');
      assert Utf16(a) == x + xs;
      assert Utf16(b) == y + ys;
      LowerUnitsAppend(x, xs);
      LowerUnitsAppend(y, ys);
    }
  }

  lemma LowerUnitsAppend(x: seq<CodeUnit>, y: seq<CodeUnit>)
    ensures LowerUnits(x + y) == LowerUnits(x) + LowerUnits(y)
  {
  }

  /** Case-insensitivity: strings equal up to the case of their letters hash alike. */
  lemma SameUpToCaseSameHash(a: string, b: string)
    requires SameUpToCase(a, b)
    ensures SDBMLower(NonNull(a)) == SDBMLower(NonNull(b))
  {
    Utf16IgnoresCase(a, b);
    FoldIgnoresCase(0, Utf16(a), Utf16(b));
  }

  /** Lower-casing or upper-casing a string first does not change its hash. */
  lemma HashIgnoresCase(s: string)
    ensures SDBMLower(NonNull(LowerString(s))) == SDBMLower(NonNull(s))
    ensures SDBMLower(NonNull(UpperString(s))) == SDBMLower(NonNull(s))
  {
    SameUpToCaseSameHash(LowerString(s), s);
    SameUpToCaseSameHash(UpperString(s), s);
  }

  lemma MixedCaseExample()
    ensures SDBMLower(NonNull("USER@Example.com")) == SDBMLower(NonNull("user@example.com"))
  {
    SameUpToCaseSameHash("USER@Example.com", "user@example.com");
  }
}

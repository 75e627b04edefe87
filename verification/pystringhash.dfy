/** `sdbm_lower` of the Python port: the whole string is lower-cased first,
    then the same SDBM step is folded over its code points. The unseen
    `int32`/`uint32` helpers are taken to reinterpret and reduce modulo 2^32. */
module PyStringHash {
  import opened Wrappers
  import opened StringHash

  /** `uint32(ord(c) + (int32(value) << 6) + (int32(value) << 16)) - value`,
      with Python's unbounded ints until the explicit reductions. */
  function PyStep(value: UInt32, ord: int): UInt32 {
    var signed: int := ToInt32(value);
    ToUInt32(ToUInt32(ord + signed * 64 + signed * 65536) - value)
  }

  /** The `for char in str` loop from accumulator `value`. */
  function PyFold(value: UInt32, s: string): UInt32
    decreases |s|
  {
    if |s| == 0 then value else PyFold(PyStep(value, s[0] as int), s[1..])
  }

  /** `sdbm_lower`: 0 for None, otherwise `int32` of the fold over `str.lower()`. */
  function SdbmLower(s: Nullable<string>): (r: int)
    ensures -TwoTo31 <= r < TwoTo31
    ensures s.Null? ==> r == 0
    ensures s == NonNull([]) ==> r == 0
  {
    if s.Null? then 0 else ToInt32(PyFold(0, LowerString(s.value)))
  }

  /** The code points of a string, as `ord` gives them. */
  function Ords(s: string): (r: seq<int>)
    ensures |r| == |s|
    ensures forall i | 0 <= i < |s| :: r[i] == s[i] as int
  {
    seq(|s|, i requires 0 <= i < |s| => s[i] as int)
  }

  /** The Python step is the same multiply-and-add modulo 2^32. */
  lemma PyStepIsMultiplyAdd(value: UInt32, ord: int)
    ensures PyStep(value, ord) == ToUInt32(value * Multiplier + ord)
  {
    var signed: int := ToInt32(value);
    var t: int := ToUInt32(ord + signed * 64 + signed * 65536);
    CongScale(signed, value, 65600);
    CongAdd(ord, ord, signed * 65600, value * 65600);
    assert ord + signed * 64 + signed * 65536 == ord + signed * 65600;
    CongTrans(t, ord + signed * 64 + signed * 65536, ord + value * 65600);
    var minus: int := -(value as int);
    CongAdd(t, ord + value * 65600, minus, minus);
    assert ord + value * 65600 - value == value * Multiplier + ord;
    CongSameUInt32(t - value, value * Multiplier + ord);
  }

  lemma {:induction false} PyFoldSnoc(value: UInt32, s: string, c: char)
    ensures PyFold(value, s + [c]) == PyStep(PyFold(value, s), c as int)
    decreases |s|
  {
    if |s| == 0 {
      assert s + [c] == [c];
    } else {
      assert (s + [c])[1..] == s[1..] + [c];
      PyFoldSnoc(PyStep(value, s[0] as int), s[1..], c);
    }
  }

  /** The Python loop computes the polynomial hash of the code points. */
  lemma {:induction false} PyFoldIsPoly(s: string)
    ensures PyFold(0, s) == Poly(Ords(s))
    decreases |s|
  {
    if |s| > 0 {
      var init, last := s[..|s| - 1], s[|s| - 1];
      assert s == init + [last];
      PyFoldIsPoly(init);
      PyFoldSnoc(0, init, last);
      PyStepIsMultiplyAdd(PyFold(0, init), last as int);
      assert Ords(s)[..|s| - 1] == Ords(init);
    }
  }

  /** Lower-casing before the call changes nothing: `sdbm_lower(s.lower()) == sdbm_lower(s)`. */
  lemma LowerFirstSameHash(s: string)
    ensures SdbmLower(NonNull(LowerString(s))) == SdbmLower(NonNull(s))
  {
    assert LowerString(LowerString(s)) == LowerString(s);
  }

  lemma {:induction false} Utf16OfBmp(s: string)
    requires forall i | 0 <= i < |s| :: (s[i] as int) < TwoTo16
    ensures Utf16(s) == Ords(s)
    decreases |s|
  {
    if |s| > 0 {
      Utf16OfBmp(s[1..]);
      assert Ords(s) == [s[0] as int] + Ords(s[1..]);
    }
  }

  /** On strings whose every character is a single UTF-16 code unit, the
      Python port and the C# `SDBMLower` give the same id, with both
      lower-casings taken as the ASCII-only mapping `LowerChar`. Real Unicode
      lower-casing makes them part on some such strings (a final capital
      sigma, U+0130), so this is agreement of the model, not of the runtimes. */
  lemma AgreesWithCSharpOnBmp(s: string)
    requires forall i | 0 <= i < |s| :: (s[i] as int) < TwoTo16
    ensures SdbmLower(NonNull(s)) == SDBMLower(NonNull(s))
  {
    var low := LowerString(s);
    Utf16OfBmp(s);
    Utf16OfBmp(low);
    PyFoldIsPoly(low);
    FoldIsPoly(Utf16(s));
    LowerOrds(s);
  }

  /** For a string of single code units, lower-casing the units is lower-casing the string. */
  lemma LowerOrds(s: string)
    requires forall i | 0 <= i < |s| :: (s[i] as int) < TwoTo16
    ensures LowerUnits(Ords(s)) == Ords(LowerString(s))
  {
    var l, r := LowerUnits(Ords(s)), Ords(LowerString(s));
    forall i | 0 <= i < |s| ensures l[i] == r[i] {
      assert l[i] == ToLower(s[i] as int);
      assert r[i] == LowerChar(s[i]) as int;
    }
  }

  /** Outside the Basic Multilingual Plane they differ: C# folds the two
      surrogate code units of U+10000, Python folds the one code point. */
  lemma DisagreesOnSupplementaryChar()
    ensures SdbmLower(NonNull("\U{10000}")) == 65536
    ensures SDBMLower(NonNull("\U{10000}")) == -667548672
  {
    var s := "\U{10000}";
    assert LowerString(s) == s;
    PyFoldOfOneChar(s, 65536);
    var units := SurrogatePairOf(s);
    assert LowerUnits(units) == units;
    FoldIsPoly(units);
    PolyOfPair(units);
    assert ToInt32(3627418624) == -667548672;
  }

  /** Python folds a one-character string in a single step. */
  lemma PyFoldOfOneChar(s: string, ord: int)
    requires |s| == 1 && s[0] as int == ord && 0 <= ord < TwoTo16 * 2
    ensures PyFold(0, s) == ord
  {
    PyStepIsMultiplyAdd(0, ord);
    assert PyFold(0, s) == PyFold(PyStep(0, ord), s[1..]);
  }

  /** U+10000 is the surrogate pair D800 DC00 in UTF-16. */
  lemma SurrogatePairOf(s: string) returns (units: seq<CodeUnit>)
    requires s == "\U{10000}"
    ensures units == Utf16(s) && units == [0xD800, 0xDC00]
  {
    units := Utf16(s);
    assert Utf16(s) == CharUnits(s[0]) + Utf16(s[1..]);
  }

  /** The polynomial hash of the pair D800 DC00. */
  lemma PolyOfPair(units: seq<int>)
    requires units == [0xD800, 0xDC00]
    ensures Poly(units) == 3627418624
  {
    assert Poly([0xD800]) == 0xD800 by {
      assert [0xD800][..0] == [];
    }
    assert units[..1] == [0xD800];
    assert Poly(units) == ToUInt32(0xD800 * Multiplier + 0xDC00);
  }
}

/** Integer literals read by their decimal notation: separators, numerals, and the
    types and annotations that go with a number. */
module LiteralLaws {
  import opened Types
  import opened Powers
  import opened IntLiteral

  // ---- separators --------------------------------------------------------------------------

  lemma {:induction false} StrippedAppend(a: string, b: string)
    ensures Stripped(a + b) == Stripped(a) + Stripped(b)
  {
    if b == "" {
      assert a + b == a;
    } else {
      assert (a + b)[..|a + b| - 1] == a + b[..|b| - 1];
      StrippedAppend(a, b[..|b| - 1]);
    }
  }

  lemma {:induction false} NothingToStrip(text: string)
    requires '_' !in text
    ensures Stripped(text) == text
  {
    if text != "" {
      assert text[|text| - 1] in text;
      NothingToStrip(text[..|text| - 1]);
    }
  }

  /** An underscore may stand anywhere in a literal and changes nothing: not the number,
      not the type, not the verdict on an annotation. */
  lemma SeparatorsIgnored(reg: Registry, kind: LiteralKind, a: string, b: string, ann: Option<TypeId>)
    requires ann.Some? ==> WidthsDefined(reg, ann.value)
    ensures ParseSpec(a + "_" + b) == ParseSpec(a + b)
    ensures IntLiteralType(a + "_" + b) == IntLiteralType(a + b)
    ensures AnnotatedLiteralType(reg, kind, a + "_" + b, ann) == AnnotatedLiteralType(reg, kind, a + b, ann)
  {
    StrippedAppend(a + "_", b);
    StrippedAppend(a, "_");
    assert Stripped("_") == "" by { assert "_"[..0] == ""; }
    StrippedAppend(a, b);
    assert Stripped(a) + "" == Stripped(a);
    assert Stripped(a + "_" + b) == Stripped(a + b);
  }

  // ---- numerals ------------------------------------------------------------------------------

  const NUMERALS: string := "0123456789"

  /** Decimal notation without leading zeros. */
  function Decimal(n: nat): (s: string)
    ensures s != ""
  {
    if n < 10 then [NUMERALS[n]] else Decimal(n / 10) + [NUMERALS[n % 10]]
  }

  lemma DigitOfNumeral(d: nat)
    requires d < 10
    ensures IsDigit(NUMERALS[d]) && Digit(NUMERALS[d]) == d && NUMERALS[d] != '_' && NUMERALS[d] != '-'
  {
  }

  lemma {:induction false} DecimalValue(n: nat)
    ensures AllDigits(Decimal(n)) && Value(Decimal(n)) == n && '_' !in Decimal(n) && '-' !in Decimal(n)
  {
    if n < 10 {
      DigitOfNumeral(n);
      assert Decimal(n)[..0] == "";
    } else {
      DecimalValue(n / 10);
      DigitOfNumeral(n % 10);
      assert Decimal(n)[..|Decimal(n)| - 1] == Decimal(n / 10);
    }
  }

  lemma DecimalText(n: nat)
    ensures Stripped(Decimal(n)) == Decimal(n) && Stripped("-" + Decimal(n)) == "-" + Decimal(n)
    ensures WellFormed(Decimal(n)) && LiteralValue(Decimal(n)) == n && !Negative(Decimal(n))
    ensures WellFormed("-" + Decimal(n)) && LiteralValue("-" + Decimal(n)) == 0 - n && Negative("-" + Decimal(n))
  {
    DecimalValue(n);
    NothingToStrip(Decimal(n));
    NothingToStrip("-" + Decimal(n));
    assert Decimal(n)[0] in Decimal(n);
    assert ("-" + Decimal(n))[1..] == Decimal(n);
  }

  /** A numeral is read as its number below 2^64, and flagged from there on; a minus in
      front is noted. */
  lemma NumeralIsRead(n: nat)
    ensures n < 0x1_0000_0000_0000_0000 ==>
              ParseSpec(Decimal(n)) == Some(Parsed(false, n, false))
              && ParseSpec("-" + Decimal(n)) == Some(Parsed(true, n, false))
    ensures n >= 0x1_0000_0000_0000_0000 ==>
              ParseSpec(Decimal(n)) == Some(Parsed(false, 0xFFFF_FFFF_FFFF_FFFF, true))
              && ParseSpec("-" + Decimal(n)) == Some(Parsed(true, 0xFFFF_FFFF_FFFF_FFFF, true))
  {
    DecimalText(n);
    ParseIsExact(Decimal(n));
    ParseIsExact("-" + Decimal(n));
  }

  lemma {:induction false} PrefixStops(digits: string, c: char, rest: string)
    requires AllDigits(digits) && !('0' <= c <= '9')
    ensures DigitPrefix(digits + [c] + rest) == digits
  {
    if digits != "" {
      assert digits[0] in digits;
      assert forall d :: d in digits[1..] ==> d in digits;
      PrefixStops(digits[1..], c, rest);
      assert (digits + [c] + rest)[1..] == digits[1..] + [c] + rest;
    }
  }

  /** Any other character inside a number that fits 64 bits spoils it, a comma or a
      point included. */
  lemma OtherCharsSpoil(n: nat, c: char, m: nat)
    requires n < 0x1_0000_0000_0000_0000 && !('0' <= c <= '9') && c != '_'
    ensures ParseSpec(Decimal(n) + [c] + Decimal(m)) == None
  {
    var text := Decimal(n) + [c] + Decimal(m);
    DecimalValue(n);
    DecimalValue(m);
    NothingToStrip(text);
    assert Decimal(n)[0] in Decimal(n) && text[0] == Decimal(n)[0];
    assert !Negative(text) && c in text && text != "-";
    PrefixStops(Decimal(n), c, Decimal(m));
    AcceptedTexts(text);
  }

  // ---- types ---------------------------------------------------------------------------------

  lemma Limits()
    ensures Pow2(7) == 0x80 && Pow2(8) == 0x100 && Pow2(15) == 0x8000 && Pow2(16) == 0x1_0000
    ensures Pow2(31) == 0x8000_0000 && Pow2(32) == 0x1_0000_0000
    ensures Pow2(63) == 0x8000_0000_0000_0000 && Pow2(64) == 0x1_0000_0000_0000_0000
  {
    assert Pow2(1) == 2 && Pow2(4) == 16 && Pow2(7) == 128;
    Pow2Split(4, 4);
    Pow2Split(8, 7);
    Pow2Split(8, 8);
    Pow2Split(16, 15);
    Pow2Split(16, 16);
    Pow2Split(32, 31);
    Pow2Split(32, 32);
  }

  lemma SignedRanges(v: int)
    ensures InSigned(v, 8) <==> -0x80 <= v < 0x80
    ensures InSigned(v, 16) <==> -0x8000 <= v < 0x8000
    ensures InSigned(v, 32) <==> -0x8000_0000 <= v < 0x8000_0000
    ensures InSigned(v, 64) <==> -0x8000_0000_0000_0000 <= v < 0x8000_0000_0000_0000
  {
    Limits();
  }

  lemma UnsignedRanges(v: int)
    ensures InUnsigned(v, 8) <==> 0 <= v < 0x100
    ensures InUnsigned(v, 16) <==> 0 <= v < 0x1_0000
    ensures InUnsigned(v, 32) <==> 0 <= v < 0x1_0000_0000
    ensures InUnsigned(v, 64) <==> 0 <= v < 0x1_0000_0000_0000_0000
  {
    Limits();
  }

  /** The smallest built-in signed type for a number. */
  function SmallestType(v: int): TypeId {
    if -0x80 <= v < 0x80 then GetType(Int8)
    else if -0x8000 <= v < 0x8000 then GetType(Int16)
    else if -0x8000_0000 <= v < 0x8000_0000 then GetType(Int32)
    else if -0x8000_0000_0000_0000 <= v < 0x8000_0000_0000_0000 then GetType(Int64)
    else GetType(BigInteger)
  }

  lemma SmallestIs(t: TypeId, v: int)
    requires IsSmallest(t, v)
    ensures t == SmallestType(v)
  {
    SignedRanges(v);
    if InSigned(v, 64) {
      assert 8 < t.kind.data ==> !InSigned(v, 8);
      assert 16 < t.kind.data ==> !InSigned(v, 16);
      assert 32 < t.kind.data ==> !InSigned(v, 32);
    }
  }

  /** The type inferred for a numeral, by number. */
  lemma TypeOfNumeral(n: nat)
    ensures IntLiteralType(Decimal(n)) == SmallestType(n)
    ensures IntLiteralType("-" + Decimal(n)) == SmallestType(0 - n)
  {
    DecimalText(n);
    InferredTypeIsMinimal(Decimal(n));
    SmallestIs(IntLiteralType(Decimal(n)), n);
    InferredTypeIsMinimal("-" + Decimal(n));
    SmallestIs(IntLiteralType("-" + Decimal(n)), 0 - n);
  }

  /** Numbers of a built-in integer type. */
  predicate InBuiltin(b: Builtin, v: int) {
    match b
    case Int8 => -0x80 <= v <= 0x7F
    case Int16 => -0x8000 <= v <= 0x7FFF
    case Int32 => -0x8000_0000 <= v <= 0x7FFF_FFFF
    case Int64 => -0x8000_0000_0000_0000 <= v <= 0x7FFF_FFFF_FFFF_FFFF
    case UInt8 => 0 <= v <= 0xFF
    case UInt16 => 0 <= v <= 0xFFFF
    case UInt32 => 0 <= v <= 0xFFFF_FFFF
    case UInt64 => 0 <= v <= 0xFFFF_FFFF_FFFF_FFFF
    case _ => false
  }

  lemma BuiltinKind(reg: Registry, b: Builtin)
    requires b in {Int8, Int16, Int32, Int64, UInt8, UInt16, UInt32, UInt64}
    ensures WidthsDefined(reg, GetType(b)) && Canonical(reg, GetType(b)).kind == KindOf(b)
    ensures MachineInt(reg, GetType(b), if b in {Int8, Int16, Int32, Int64} then Integers else Unsigned)
  {
    BuiltinCanonical(reg, b);
  }

  lemma BuiltinRange(b: Builtin, v: int)
    requires b in {Int8, Int16, Int32, Int64, UInt8, UInt16, UInt32, UInt64}
    ensures InBuiltin(b, v) <==>
            if b in {Int8, Int16, Int32, Int64} then InSigned(v, KindOf(b).data) else InUnsigned(v, KindOf(b).data)
  {
    if b in {Int8, Int16, Int32, Int64} {
      SignedRanges(v);
    } else {
      UnsignedRanges(v);
    }
  }

  lemma IntegerAnnotation(reg: Registry, b: Builtin, text: string)
    requires WellFormed(text) && b in {Int8, Int16, Int32, Int64, UInt8, UInt16, UInt32, UInt64}
    requires Stripped(text) == text
    ensures WidthsDefined(reg, GetType(b))
    ensures AnnotatedLiteralType(reg, IntLiteralKind, text, Some(GetType(b))) ==
            if InBuiltin(b, LiteralValue(text)) && (Negative(text) ==> b in {Int8, Int16, Int32, Int64})
            then AnnotResult(GetType(b), NoProblem) else AnnotResult(INVALID, IntOverflow)
  {
    BuiltinKind(reg, b);
    BuiltinRange(b, LiteralValue(text));
    AnnotationIsRange(reg, text, GetType(b));
  }

  /** An integer annotation takes exactly the numerals of its type. */
  lemma NumeralAnnotation(reg: Registry, b: Builtin, n: nat)
    requires b in {Int8, Int16, Int32, Int64, UInt8, UInt16, UInt32, UInt64}
    ensures WidthsDefined(reg, GetType(b))
    ensures AnnotatedLiteralType(reg, IntLiteralKind, Decimal(n), Some(GetType(b))) ==
            if InBuiltin(b, n) then AnnotResult(GetType(b), NoProblem) else AnnotResult(INVALID, IntOverflow)
  {
    DecimalText(n);
    IntegerAnnotation(reg, b, Decimal(n));
  }

  /** The same for numerals with a minus, which unsigned types refuse. */
  lemma MinusAnnotation(reg: Registry, b: Builtin, n: nat)
    requires b in {Int8, Int16, Int32, Int64, UInt8, UInt16, UInt32, UInt64}
    ensures WidthsDefined(reg, GetType(b))
    ensures AnnotatedLiteralType(reg, IntLiteralKind, "-" + Decimal(n), Some(GetType(b))) ==
            if b in {Int8, Int16, Int32, Int64} && InBuiltin(b, 0 - n) then AnnotResult(GetType(b), NoProblem)
            else AnnotResult(INVALID, IntOverflow)
  {
    DecimalText(n);
    IntegerAnnotation(reg, b, "-" + Decimal(n));
  }

  /** The other built-in annotations: Rational takes everything, BigInteger and the
      floats everything but a quotient, Bool only 0 and 1, and the rest nothing; a
      quotient is taken by Rational alone and a float literal by no integer type. */
  lemma OtherAnnotation(reg: Registry, kind: LiteralKind, b: Builtin, text: string)
    requires '_' !in text
    ensures WidthsDefined(reg, GetType(b))
    ensures var r := AnnotatedLiteralType(reg, kind, text, Some(GetType(b)));
            && (r == AnnotResult(GetType(b), NoProblem) || (r.typ == INVALID && r.problem != NoProblem))
            && (b == Rational ==> r.problem == NoProblem)
            && (b in {BigInteger, Float16, Float32, Float64} ==>
                  r.problem == if kind == RationalLiteralKind then RationalExpected else NoProblem)
            && (b == Bool ==> r.problem == if kind == RationalLiteralKind then RationalExpected
                                           else if text in {"0", "1"} then NoProblem else BoolNot01)
            && (b in {AnyType, StrChar} ==>
                  r.problem == if kind == RationalLiteralKind then RationalExpected else NonNumeric)
            && (b in {Int8, Int16, Int32, Int64, UInt8, UInt16, UInt32, UInt64} && kind != IntLiteralKind ==>
                  r.problem == if kind == RationalLiteralKind then RationalExpected else IntOverflow)
    ensures AnnotatedLiteralType(reg, kind, text, None) == AnnotResult(INVALID, UnknownType)
    ensures AnnotatedLiteralType(reg, kind, text, Some(INVALID)) == AnnotResult(INVALID, UnknownType)
  {
    BuiltinCanonical(reg, b);
    NothingToStrip(text);
  }
}

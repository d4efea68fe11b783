/** Integer literals: parsing with saturation, the smallest type that holds the
    value, and annotations. */
module IntLiteral {
  import opened Types
  import opened Powers

  const UINT64_MAX: nat := 0xFFFF_FFFF_FFFF_FFFF
  const INT64_MAX: nat := 0x7FFF_FFFF_FFFF_FFFF
  const INT64_MIN_MAGNITUDE: nat := 0x8000_0000_0000_0000

  // ---- what a literal is -----------------------------------------------------------------

  predicate IsDigit(c: char) {
    '0' <= c <= '9'
  }

  function Digit(c: char): nat
    requires IsDigit(c)
  {
    c as int - '0' as int
  }

  predicate AllDigits(s: string) {
    forall c :: c in s ==> IsDigit(c)
  }

  function Value(s: string): nat
    requires AllDigits(s)
  {
    if s == "" then 0
    else
      assert s[|s| - 1] in s;
      Value(s[..|s| - 1]) * 10 + Digit(s[|s| - 1])
  }

  function Stripped(text: string): string {
    if text == "" then ""
    else Stripped(text[..|text| - 1]) + (if text[|text| - 1] == '_' then "" else [text[|text| - 1]])
  }

  predicate Negative(s: string) {
    s != "" && s[0] == '-'
  }

  function Body(s: string): string {
    if Negative(s) then s[1..] else s
  }

  /** After removing separators: an optional minus and at least one digit. */
  predicate WellFormed(text: string) {
    var s := Stripped(text);
    Body(s) != "" && AllDigits(Body(s))
  }

  function LiteralValue(text: string): int
    requires WellFormed(text)
  {
    var s := Stripped(text);
    if Negative(s) then 0 - Value(Body(s)) else Value(Body(s))
  }

  // ---- parsing ----------------------------------------------------------------------------

  datatype Parsed = Parsed(negative: bool, magnitude: nat, exceeds: bool)

  /** Longest prefix of digits. */
  function DigitPrefix(s: string): (p: string)
    ensures AllDigits(p) && p <= s
    ensures AllDigits(s) ==> p == s
  {
    if s == "" || !IsDigit(s[0]) then ""
    else
      var rest := DigitPrefix(s[1..]);
      assert AllDigits(s) ==> forall c :: c in s[1..] ==> c in s;
      [s[0]] + rest
  }

  /** Outcome of the parser for digits `body` behind an optional minus. */
  function ParseBody(negative: bool, body: string): Option<Parsed> {
    var p := DigitPrefix(body);
    if Value(p) > UINT64_MAX then Some(Parsed(negative, UINT64_MAX, true))
    else if p == body then Some(Parsed(negative, Value(p), false))
    else None
  }

  function ParseSpec(text: string): Option<Parsed> {
    var s := Stripped(text);
    if s == "" then None else ParseBody(Negative(s), Body(s))
  }

  method StripDigitSeparators(text: string) returns (s: string)
    ensures s == Stripped(text)
  {
    s := "";
    for i := 0 to |text|
      invariant s == Stripped(text[..i])
    {
      assert text[..i + 1][..i] == text[..i];
      if text[i] != '_' {
        s := s + [text[i]];
      }
    }
    assert text[..|text|] == text;
  }

  /** The text without leading zeros, "0" when nothing else is left. */
  method DropLeadingZeros(s: string) returns (r: string)
    ensures ParseBody(false, r) == ParseBody(false, s)
    ensures ParseBody(true, r) == ParseBody(true, s)
  {
    var first := 0;
    while first < |s| && s[first] == '0'
      invariant 0 <= first <= |s|
      invariant AllZeros(s[..first])
    {
      first := first + 1;
    }
    if first == |s| {
      assert s[..first] == s;
      ZerosOnly(s);
      assert AllZeros("0");
      ZerosOnly("0");
      return "0";
    }
    r := s[first..];
    assert s == s[..first] + r;
    ZerosInFront(s[..first], r);
  }

  predicate AllZeros(s: string) {
    forall i :: 0 <= i < |s| ==> s[i] == '0'
  }

  lemma {:induction false} ZerosOnly(s: string)
    requires AllZeros(s)
    ensures AllDigits(s) && Value(s) == 0
  {
    if s != "" {
      ZerosOnly(s[..|s| - 1]);
    }
  }

  lemma {:induction false} ValueAppend(a: string, b: string)
    requires AllDigits(a) && AllDigits(b)
    requires Value(a) == 0
    ensures AllDigits(a + b) && Value(a + b) == Value(b)
  {
    if b == "" {
      assert a + b == a;
    } else {
      assert forall c :: c in b[..|b| - 1] ==> c in b;
      ValueAppend(a, b[..|b| - 1]);
      assert (a + b)[..|a + b| - 1] == a + b[..|b| - 1];
      assert forall c :: c in a + b ==> c in a || c in b;
    }
  }

  lemma {:induction false} PrefixBehindZeros(z: string, s: string)
    requires AllZeros(z)
    ensures DigitPrefix(z + s) == z + DigitPrefix(s)
  {
    if z == "" {
      assert z + s == s;
    } else {
      PrefixBehindZeros(z[1..], s);
      assert (z + s)[1..] == z[1..] + s;
    }
  }

  lemma ZerosInFront(z: string, s: string)
    requires AllZeros(z)
    ensures ParseBody(false, z + s) == ParseBody(false, s)
    ensures ParseBody(true, z + s) == ParseBody(true, s)
  {
    PrefixBehindZeros(z, s);
    ZerosOnly(z);
    ValueAppend(z, DigitPrefix(s));
    assert z + DigitPrefix(s) == z + s ==> DigitPrefix(s) == (z + DigitPrefix(s))[|z|..] == (z + s)[|z|..] == s;
  }

  lemma {:induction false} PrefixIsMaximal(s: string, n: nat)
    requires n <= |s| && AllDigits(s[..n])
    ensures s[..n] <= DigitPrefix(s)
    ensures n < |s| && !IsDigit(s[n]) ==> DigitPrefix(s) == s[..n]
  {
    if n > 0 {
      assert s[0] == s[..n][0] && s[0] in s[..n];
      assert s[1..][..n - 1] == s[..n][1..];
      assert forall c :: c in s[..n][1..] ==> c in s[..n];
      PrefixIsMaximal(s[1..], n - 1);
      assert s[..n] == [s[0]] + s[1..][..n - 1];
    }
  }

  /** The guard before each multiplication is exact: it fires precisely when the
      next value would not fit into 64 bits, so nothing ever wraps. */
  lemma GuardIsExact(magnitude: nat, d: nat)
    requires d <= 9
    ensures magnitude > (UINT64_MAX - d) / 10 <==> magnitude * 10 + d > UINT64_MAX
  {
  }

  lemma ValueStep(s: string, i: nat)
    requires i < |s| && AllDigits(s[..i]) && IsDigit(s[i])
    ensures AllDigits(s[..i + 1]) && Value(s[..i + 1]) == Value(s[..i]) * 10 + Digit(s[i])
  {
    var longer := s[..i + 1];
    assert longer == s[..i] + [s[i]];
    assert longer[..|longer| - 1] == s[..i];
  }

  lemma PrefixValue(q: string, p: string)
    requires AllDigits(p) && AllDigits(q) && q <= p
    ensures Value(q) <= Value(p)
  {
  }

  lemma PrefixStep(s: string, i: nat)
    requires i < |s| && AllDigits(s[..i]) && IsDigit(s[i])
    ensures AllDigits(s[..i + 1]) && Value(s[..i + 1]) <= Value(DigitPrefix(s))
  {
    ValueStep(s, i);
    PrefixIsMaximal(s, i + 1);
    PrefixValue(s[..i + 1], DigitPrefix(s));
  }

  /** Accumulates the digits; saturates at the first one that would overflow,
      without looking at the rest. */
  method AccumulateDigits(negative: bool, s: string) returns (r: Option<Parsed>)
    ensures r == ParseBody(negative, s)
  {
    var magnitude := 0;
    for i := 0 to |s|
      invariant AllDigits(s[..i]) && magnitude == Value(s[..i]) && magnitude <= UINT64_MAX
    {
      if !IsDigit(s[i]) {
        PrefixIsMaximal(s, i);
        return None;
      }
      var d := Digit(s[i]);
      ValueStep(s, i);
      PrefixStep(s, i);
      GuardIsExact(magnitude, d);
      if magnitude > (UINT64_MAX - d) / 10 {
        return Some(Parsed(negative, UINT64_MAX, true));
      }
      magnitude := magnitude * 10 + d;
    }
    assert s[..|s|] == s;
    return Some(Parsed(negative, magnitude, false));
  }

  method ParseIntegerLiteral(text: string) returns (r: Option<Parsed>)
    ensures r == ParseSpec(text)
  {
    var s := StripDigitSeparators(text);
    if s == "" {
      return None;
    }
    var negative := s[0] == '-';
    if negative {
      s := s[1..];
    }
    s := DropLeadingZeros(s);
    r := AccumulateDigits(negative, s);
  }

  /** Acceptance, exactly: well-formed literals, a text reduced to a lone minus,
      and texts whose leading digits alone overflow before the first other char. */
  lemma AcceptedTexts(text: string)
    ensures ParseSpec(text).Some? <==>
            WellFormed(text) || Stripped(text) == "-" || Value(DigitPrefix(Body(Stripped(text)))) > UINT64_MAX
  {
  }

  /** A minus without digits is accepted, as a negative zero. */
  lemma LoneMinusAccepted()
    ensures !WellFormed("-") && ParseSpec("-") == Some(Parsed(true, 0, false))
  {
    assert Stripped("-") == "-" by { assert "-"[..0] == ""; }
    assert Body("-") == "";
  }

  /** Well-formed literals are parsed exactly, or flagged when they exceed 64 bits. */
  lemma ParseIsExact(text: string)
    requires WellFormed(text)
    ensures var v := LiteralValue(text);
            var m := if v < 0 then -v else v;
            ParseSpec(text) == Some(if m > UINT64_MAX then Parsed(Negative(Stripped(text)), UINT64_MAX, true)
                                    else Parsed(Negative(Stripped(text)), m, false))
  {
  }

  // ---- ranges -----------------------------------------------------------------------------

  /** Shift counts outside 0..63 are undefined, so widths run from 1 to 64. */
  predicate Width(w: int) {
    1 <= w <= 64
  }

  /** Logical right shift. */
  function Shr(x: nat, n: nat): nat {
    if n == 0 then x else Shr(x, n - 1) / 2
  }

  function SignedBound(negative: bool, w: nat): nat
    requires Width(w)
  {
    if negative then Shr(INT64_MIN_MAGNITUDE, 64 - w) else Shr(INT64_MAX, 64 - w)
  }

  predicate FitsSignedIntMagnitude(v: Parsed, w: nat)
    requires Width(w)
  {
    !v.exceeds && v.magnitude <= SignedBound(v.negative, w)
  }

  lemma {:induction false} ShiftedPower(m: nat, n: nat)
    requires n <= m
    ensures Shr(Pow2(m), n) == Pow2(m - n) && Shr(Pow2(m) - 1, n) == Pow2(m - n) - 1
  {
    if n > 0 {
      ShiftedPower(m, n - 1);
      assert Pow2(m - n + 1) == 2 * Pow2(m - n);
    }
  }

  lemma Pow2_64()
    ensures Pow2(63) == INT64_MIN_MAGNITUDE && Pow2(64) == UINT64_MAX + 1
  {
    assert Pow2(1) == 2;
    Pow2Split(1, 1);
    Pow2Split(2, 2);
    Pow2Split(4, 4);
    Pow2Split(8, 8);
    Pow2Split(16, 16);
    Pow2Split(32, 32);
    assert Pow2(64) == 2 * Pow2(63);
  }

  /** The shifted 64-bit limits are the limits of the narrower width. */
  lemma ShiftedBounds(w: nat)
    requires Width(w)
    ensures SignedBound(true, w) == Pow2(w - 1) && SignedBound(false, w) == Pow2(w - 1) - 1
    ensures Shr(UINT64_MAX, 64 - w) == Pow2(w) - 1
  {
    Pow2_64();
    ShiftedPower(63, 64 - w);
    ShiftedPower(64, 64 - w);
  }

  /** Two's-complement range of a signed type. */
  predicate InSigned(v: int, w: nat)
    requires Width(w)
  {
    0 - Pow2(w - 1) <= v < Pow2(w - 1)
  }

  predicate InUnsigned(v: int, w: nat) {
    0 <= v < Pow2(w)
  }

  lemma FitsSignedIsRange(text: string, w: nat)
    requires WellFormed(text) && Width(w)
    ensures FitsSignedIntMagnitude(ParseSpec(text).value, w) <==> InSigned(LiteralValue(text), w)
  {
    ParseIsExact(text);
    ShiftedBounds(w);
    Pow2Grows(w - 1, 63);
    Pow2_64();
  }

  // ---- the type of a literal -----------------------------------------------------------------

  function IntTypeForWidth(w: nat): TypeId {
    match w
    case 8 => GetType(Int8)
    case 16 => GetType(Int16)
    case 32 => GetType(Int32)
    case _ => GetType(Int64)
  }

  function IntTypeForSignedMagnitude(v: Parsed): TypeId {
    if FitsSignedIntMagnitude(v, 8) then IntTypeForWidth(8)
    else if FitsSignedIntMagnitude(v, 16) then IntTypeForWidth(16)
    else if FitsSignedIntMagnitude(v, 32) then IntTypeForWidth(32)
    else if FitsSignedIntMagnitude(v, 64) then IntTypeForWidth(64)
    else GetType(BigInteger)
  }

  function IntLiteralType(text: string): TypeId {
    match ParseSpec(text) case None => INVALID case Some(v) => IntTypeForSignedMagnitude(v)
  }

  lemma WiderContains(v: int, w: nat, w': nat)
    requires Width(w) && Width(w') && w <= w'
    ensures InSigned(v, w) ==> InSigned(v, w')
  {
    Pow2Grows(w - 1, w' - 1);
  }

  predicate IsSmallest(t: TypeId, v: int) {
    if InSigned(v, 64) then
      t in {GetType(Int8), GetType(Int16), GetType(Int32), GetType(Int64)}
      && InSigned(v, t.kind.data)
      && forall w :: w in {8, 16, 32, 64} && w < t.kind.data ==> !InSigned(v, w)
    else t == GetType(BigInteger)
  }

  lemma FirstFitIsSmallest(p: Parsed, v: int)
    requires FitsSignedIntMagnitude(p, 8) <==> InSigned(v, 8)
    requires FitsSignedIntMagnitude(p, 16) <==> InSigned(v, 16)
    requires FitsSignedIntMagnitude(p, 32) <==> InSigned(v, 32)
    requires FitsSignedIntMagnitude(p, 64) <==> InSigned(v, 64)
    ensures IsSmallest(IntTypeForSignedMagnitude(p), v)
  {
    WiderContains(v, 8, 16);
    WiderContains(v, 16, 32);
    WiderContains(v, 32, 64);
  }

  /** The inferred type is the smallest of the four signed types that contains the
      value, and BigInteger exactly when none does. */
  lemma InferredTypeIsMinimal(text: string)
    requires WellFormed(text)
    ensures IsSmallest(IntLiteralType(text), LiteralValue(text))
  {
    ParseIsExact(text);
    FitsSignedIsRange(text, 8);
    FitsSignedIsRange(text, 16);
    FitsSignedIsRange(text, 32);
    FitsSignedIsRange(text, 64);
    FirstFitIsSmallest(ParseSpec(text).value, LiteralValue(text));
  }

  // ---- annotated literals ----------------------------------------------------------------------

  /** Does an integer literal fit a target kind; non-integer targets take any. */
  function IntFitsTarget(text: string, k: TypeKind): bool
    requires k.group == Integers || k.group == Unsigned ==> Width(k.data)
  {
    if k.group != Integers && k.group != Unsigned then true
    else
      match ParseSpec(text)
      case None => false
      case Some(v) =>
        if k.group == Unsigned then !v.negative && !v.exceeds && v.magnitude <= Shr(UINT64_MAX, 64 - k.data)
        else FitsSignedIntMagnitude(v, k.data)
  }

  /** Targets that are no machine integers take every text; the others take none that
      is not read or exceeds 64 bits. */
  lemma FitsTargetAtAll(text: string, k: TypeKind)
    requires k.group in {Integers, Unsigned} ==> Width(k.data)
    ensures k.group !in {Integers, Unsigned} ==> IntFitsTarget(text, k)
    ensures k.group in {Integers, Unsigned} && (ParseSpec(text) == None || ParseSpec(text).value.exceeds) ==>
              !IntFitsTarget(text, k)
  {
  }

  lemma UnsignedMagnitude(text: string, w: nat)
    requires WellFormed(text) && Width(w)
    ensures var v := ParseSpec(text).value;
            ParseSpec(text).Some? && (!v.negative && !v.exceeds && v.magnitude <= Pow2(w) - 1 <==>
                                      !Negative(Stripped(text)) && InUnsigned(LiteralValue(text), w))
  {
    ParseIsExact(text);
    Pow2Grows(w, 64);
    Pow2_64();
  }

  /** Signed targets take exactly the values in range; unsigned targets take exactly
      the literals without a minus whose value is in range. */
  lemma FitsTargetIsRange(text: string, k: TypeKind)
    requires WellFormed(text) && Width(k.data) && (k.group == Integers || k.group == Unsigned)
    ensures IntFitsTarget(text, k) <==>
            if k.group == Integers then InSigned(LiteralValue(text), k.data)
            else !Negative(Stripped(text)) && InUnsigned(LiteralValue(text), k.data)
  {
    if k.group == Integers {
      FitsSignedIsRange(text, k.data);
    } else {
      UnsignedMagnitude(text, k.data);
      ShiftedBounds(k.data);
    }
  }

  datatype LiteralKind = IntLiteralKind | FloatLiteralKind | RationalLiteralKind

  datatype Problem = NoProblem | UnknownType | RationalExpected | BoolNot01 | IntOverflow | NonNumeric

  datatype AnnotResult = AnnotResult(typ: TypeId, problem: Problem)

  predicate WidthsDefined(reg: Registry, ann: TypeId) {
    var k := Canonical(reg, ann).kind;
    k.group == Integers || k.group == Unsigned ==> Width(k.data)
  }

  /** Decides the type of `literal :Type`; the annotation is already resolved. */
  function AnnotatedLiteralType(reg: Registry, kind: LiteralKind, text: string, ann: Option<TypeId>): AnnotResult
    requires ann.Some? ==> WidthsDefined(reg, ann.value)
  {
    if ann == None || ann.value == INVALID then AnnotResult(INVALID, UnknownType)
    else
      var ac := Canonical(reg, ann.value);
      var accepted := AnnotResult(ann.value, NoProblem);
      if kind == RationalLiteralKind then
        if ac == GetType(Rational) then accepted else AnnotResult(INVALID, RationalExpected)
      else if ac == GetType(BigInteger) || ac == GetType(Rational) then accepted
      else if ac == GetType(Bool) then
        if Stripped(text) == "0" || Stripped(text) == "1" then accepted else AnnotResult(INVALID, BoolNot01)
      else if ac.kind.group == Integers || ac.kind.group == Unsigned then
        if kind == IntLiteralKind && IntFitsTarget(text, ac.kind) then accepted else AnnotResult(INVALID, IntOverflow)
      else if ac.kind.group == Numbers then accepted
      else AnnotResult(INVALID, NonNumeric)
  }

  predicate Accepts(reg: Registry, text: string, ann: TypeId)
    requires WidthsDefined(reg, ann)
  {
    AnnotatedLiteralType(reg, IntLiteralKind, text, Some(ann)) == AnnotResult(ann, NoProblem) && ann != INVALID
  }

  predicate MachineInt(reg: Registry, ann: TypeId, g: Group) {
    ann != INVALID && Canonical(reg, ann).kind.group == g && Width(Canonical(reg, ann).kind.data)
  }

  lemma AnnotationDecides(reg: Registry, text: string, ann: TypeId)
    requires MachineInt(reg, ann, Integers) || MachineInt(reg, ann, Unsigned)
    ensures AnnotatedLiteralType(reg, IntLiteralKind, text, Some(ann)) ==
            if IntFitsTarget(text, Canonical(reg, ann).kind) then AnnotResult(ann, NoProblem)
            else AnnotResult(INVALID, IntOverflow)
  {
  }

  /** An integer annotation is accepted exactly for the values of its type (for an
      unsigned one, written without a minus); anything else is an overflow report. */
  lemma AnnotationIsRange(reg: Registry, text: string, ann: TypeId)
    requires WellFormed(text) && (MachineInt(reg, ann, Integers) || MachineInt(reg, ann, Unsigned))
    ensures var k := Canonical(reg, ann).kind;
            Accepts(reg, text, ann) <==>
            if k.group == Integers then InSigned(LiteralValue(text), k.data)
            else !Negative(Stripped(text)) && InUnsigned(LiteralValue(text), k.data)
    ensures !Accepts(reg, text, ann) ==>
              AnnotatedLiteralType(reg, IntLiteralKind, text, Some(ann)) == AnnotResult(INVALID, IntOverflow)
  {
    AnnotationDecides(reg, text, ann);
    FitsTargetIsRange(text, Canonical(reg, ann).kind);
  }

  /** Widening an annotation within its group never turns acceptance into rejection. */
  lemma AnnotationMonotone(reg: Registry, text: string, a: TypeId, b: TypeId, g: Group)
    requires g == Integers || g == Unsigned
    requires WellFormed(text) && MachineInt(reg, a, g) && MachineInt(reg, b, g)
    requires Canonical(reg, a).kind.data <= Canonical(reg, b).kind.data
    requires Accepts(reg, text, a)
    ensures Accepts(reg, text, b)
  {
    var wa, wb := Canonical(reg, a).kind.data, Canonical(reg, b).kind.data;
    AnnotationIsRange(reg, text, a);
    AnnotationIsRange(reg, text, b);
    Pow2Grows(wa, wb);
    Pow2Grows(wa - 1, wb - 1);
  }

  /** A built-in signed type accepts the values in its range. */
  lemma BuiltinAccepts(reg: Registry, text: string, b: Builtin)
    requires WellFormed(text) && b in {Int8, Int16, Int32, Int64} && InSigned(LiteralValue(text), KindOf(b).data)
    ensures Canonical(reg, GetType(b)) == GetType(b)
    ensures WidthsDefined(reg, GetType(b)) && Accepts(reg, text, GetType(b))
  {
    BuiltinCanonical(reg, b);
    AnnotationIsRange(reg, text, GetType(b));
  }

  lemma BigIntegerAccepts(reg: Registry, text: string)
    ensures Canonical(reg, GetType(BigInteger)) == GetType(BigInteger)
    ensures WidthsDefined(reg, GetType(BigInteger)) && Accepts(reg, text, GetType(BigInteger))
  {
    BuiltinCanonical(reg, BigInteger);
  }

  /** Every literal is accepted under the type inferred for it. */
  lemma InferredTypeAccepts(reg: Registry, text: string)
    requires WellFormed(text)
    ensures Canonical(reg, IntLiteralType(text)) == IntLiteralType(text)
    ensures WidthsDefined(reg, IntLiteralType(text)) && Accepts(reg, text, IntLiteralType(text))
  {
    var t := IntLiteralType(text);
    var v := LiteralValue(text);
    InferredTypeIsMinimal(text);
    if InSigned(v, 64) {
      var b :| b in {Int8, Int16, Int32, Int64} && t == GetType(b);
      BuiltinAccepts(reg, text, b);
    } else {
      BigIntegerAccepts(reg, text);
    }
  }

  /** Value range alone does not decide for unsigned targets: "-0" is zero, yet
      refused. */
  lemma MinusZeroRefused()
    ensures WellFormed("-0") && LiteralValue("-0") == 0 && InUnsigned(0, 8)
    ensures !IntFitsTarget("-0", KindOf(UInt8))
  {
    assert Stripped("-") == "-" by { assert "-"[..0] == ""; }
    assert "-0"[..1] == "-";
    assert Stripped("-0") == "-0";
    assert "-0"[1..] == "0";
    assert "0"[..0] == "";
    ParseIsExact("-0");
  }
}

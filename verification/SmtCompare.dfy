/** Export of integer comparisons to SMT-LIB: operands of different widths are
    extended to a common bit-vector width and compared by a signed or an unsigned
    operator. */
module SmtCompare {
  import opened Types
  import opened Powers

  // ---- terms -------------------------------------------------------------------------------

  datatype Sort = BoolSort | BitVecSort(width: nat) | OtherSort(name: string)

  datatype SmtOp =
    | SignExt | ZeroExt
    | BvSlt | BvSle | BvSgt | BvSge | BvUlt | BvUle | BvUgt | BvUge
    | Equal | Not

  /** `Atom` is any term whose value the model decides: a variable, constant or
      uninterpreted application; `Numeral` is an integer literal. */
  datatype Term =
    | Atom(name: string, sort: Sort)
    | Numeral(value: nat, sort: Sort)
    | App(op: SmtOp, sort: Sort, args: seq<Term>, extAmount: nat)

  datatype CmpOp = Less | LessEq | Greater | GreaterEq | IsEqual | NotEqual

  function MapCmpOp(op: CmpOp, signedOp: bool): SmtOp {
    match op
    case Greater => if signedOp then BvSgt else BvUgt
    case GreaterEq => if signedOp then BvSge else BvUge
    case Less => if signedOp then BvSlt else BvUlt
    case LessEq => if signedOp then BvSle else BvUle
    case _ => Equal
  }

  /** What the recursive inference says about an operand: literals, globals and what
      is built from them only are neutral. */
  datatype Sign = Signed | Unsigned | Neutral

  /** `signed` tells how the operand's values are meant; `typed` whether the export
      finds that type at the comparison; `sign` is what the inference says. */
  datatype Operand = Operand(term: Term, sign: Sign, signed: bool, typed: bool) {
    /** Operands of unknown type are extended by zeros. */
    predicate SignExtends() {
      typed && signed
    }
  }

  /** Neutral operands take over the sign of the other one; two of them count as signed. */
  predicate SignedOp(l: Sign, r: Sign) {
    l == Signed || r == Signed || (l == Neutral && r == Neutral)
  }

  function CoerceToWidth(t: Term, target: Sort, signedOp: bool): Term {
    if t.sort.BitVecSort? && target.BitVecSort? && t.sort.width < target.width then
      App(if signedOp then SignExt else ZeroExt, target, [t], target.width - t.sort.width)
    else t
  }

  /** The declared sort of the operation, but not narrower than either operand. */
  function WidenOperandSort(sort: Sort, l: Term, r: Term): Sort {
    if !sort.BitVecSort? then sort
    else
      var a := if l.sort.BitVecSort? && l.sort.width > sort.width then l.sort.width else sort.width;
      var b := if r.sort.BitVecSort? && r.sort.width > a then r.sort.width else a;
      BitVecSort(b)
  }

  /** A comparison of machine integers at the given sort: each operand is extended by
      the signedness of its own type, the operator is chosen by the inferred signs. */
  function ExportCompare(op: CmpOp, sort: Sort, l: Operand, r: Operand): Term {
    var target := WidenOperandSort(sort, l.term, r.term);
    var cmp := App(MapCmpOp(op, SignedOp(l.sign, r.sign)), BoolSort,
                   [CoerceToWidth(l.term, target, l.SignExtends()), CoerceToWidth(r.term, target, r.SignExtends())], 0);
    if op == NotEqual then App(Not, BoolSort, [cmp], 0) else cmp
  }

  // ---- meaning -------------------------------------------------------------------------------

  /** Values of the atoms, as unsigned numbers. */
  type Env = (string, nat) -> nat

  ghost predicate ValidEnv(env: Env) {
    forall name, w :: env(name, w) < Pow2(w)
  }

  /** Two's-complement reading of a word. */
  function ToSigned(v: nat, w: nat): int
    requires w >= 1
  {
    if v < Pow2(w - 1) then v else v - Pow2(w)
  }

  /** The integer an operand of a program stands for. */
  function IntValue(v: nat, w: nat, signed: bool): int
    requires w >= 1
  {
    if signed then ToSigned(v, w) else v
  }

  function SignExtended(v: nat, w: nat, k: nat): nat
    requires w >= 1 && v < Pow2(w)
  {
    Pow2Grows(w, w + k);
    if v < Pow2(w - 1) then v else v + Pow2(w + k) - Pow2(w)
  }

  /** A numeral too large for its sort wraps around. */
  function Wrapped(n: nat, w: nat): (v: nat)
    ensures v < Pow2(w) && (n < Pow2(w) ==> v == n)
  {
    if n < Pow2(w) then n else Wrapped(n - Pow2(w), w)
  }

  /** Bit-vector terms: atoms, literals and extensions of them. */
  ghost predicate WordTerm(t: Term) {
    t.sort.BitVecSort? && t.sort.width >= 1 &&
    match t
    case Atom(_, _) => true
    case Numeral(_, _) => true
    case App(op, sort, args, k) =>
      (op == SignExt || op == ZeroExt) && |args| == 1 && WordTerm(args[0])
      && sort.width == args[0].sort.width + k
  }

  /** Value of a word term in the theory FixedSizeBitVectors with sign_extend and
      zero_extend. */
  ghost function WordValue(env: Env, t: Term): (v: nat)
    requires ValidEnv(env) && WordTerm(t)
    ensures v < Pow2(t.sort.width)
  {
    match t
    case Atom(name, sort) => env(name, sort.width)
    case Numeral(n, sort) => Wrapped(n, sort.width)
    case App(op, sort, args, k) =>
      var v := WordValue(env, args[0]);
      Pow2Grows(args[0].sort.width, sort.width);
      if op == SignExt then SignExtended(v, args[0].sort.width, k) else v
  }

  ghost predicate BoolTerm(t: Term) {
    t.App? && t.sort == BoolSort &&
    if t.op == Not then |t.args| == 1 && BoolTerm(t.args[0])
    else t.op != SignExt && t.op != ZeroExt && |t.args| == 2 && WordTerm(t.args[0]) && WordTerm(t.args[1])
         && t.args[0].sort == t.args[1].sort
  }

  ghost predicate Holds(env: Env, t: Term)
    requires ValidEnv(env) && BoolTerm(t)
  {
    if t.op == Not then !Holds(env, t.args[0])
    else
      var w := t.args[0].sort.width;
      var a, b := WordValue(env, t.args[0]), WordValue(env, t.args[1]);
      match t.op
      case BvSlt => ToSigned(a, w) < ToSigned(b, w)
      case BvSle => ToSigned(a, w) <= ToSigned(b, w)
      case BvSgt => ToSigned(a, w) > ToSigned(b, w)
      case BvSge => ToSigned(a, w) >= ToSigned(b, w)
      case BvUlt => a < b
      case BvUle => a <= b
      case BvUgt => a > b
      case BvUge => a >= b
      case _ => a == b
  }

  predicate Compare(op: CmpOp, a: int, b: int) {
    match op
    case Less => a < b
    case LessEq => a <= b
    case Greater => a > b
    case GreaterEq => a >= b
    case IsEqual => a == b
    case NotEqual => a != b
  }

  // ---- extension keeps the value -----------------------------------------------------------------

  /** Coercion keeps the integer an operand stands for, leaves wide enough terms
      alone, and gives the target width otherwise. */
  lemma CoercionKeepsValue(env: Env, t: Term, width: nat, signed: bool)
    requires ValidEnv(env) && WordTerm(t)
    ensures var c := CoerceToWidth(t, BitVecSort(width), signed);
            WordTerm(c) && c.sort.width == (if t.sort.width < width then width else t.sort.width)
            && IntValue(WordValue(env, c), c.sort.width, signed) == IntValue(WordValue(env, t), t.sort.width, signed)
    ensures t.sort.width >= width ==> CoerceToWidth(t, BitVecSort(width), signed) == t
  {
    if t.sort.width < width {
      var w := t.sort.width;
      Pow2Grows(w, width - 1);
    }
  }

  // ---- what the export says ---------------------------------------------------------------------------

  function TargetWidth(sort: Sort, l: Term, r: Term): nat
    requires l.sort.BitVecSort? && r.sort.BitVecSort? && sort.BitVecSort?
  {
    WidenOperandSort(sort, l, r).width
  }

  /** What the exported formula says about two words of width `w`. */
  predicate WordCompare(op: CmpOp, signedOp: bool, a: nat, b: nat, w: nat)
    requires w >= 1
  {
    if op == IsEqual then a == b
    else if op == NotEqual then a != b
    else Compare(op, IntValue(a, w, signedOp), IntValue(b, w, signedOp))
  }

  /** A word of `w` bits extended to `width` bits. */
  function Extended(v: nat, w: nat, width: nat, signed: bool): (r: nat)
    requires 1 <= w <= width && v < Pow2(w)
    ensures r < Pow2(width)
  {
    Pow2Grows(w, width);
    if signed then SignExtended(v, w, width - w) else v
  }

  /** How an operand of a width is treated: extended by its sign or by zeros, read by
      its sign or not. */
  datatype View = View(width: nat, signExt: bool, signed: bool)

  function ViewOf(o: Operand): View
    requires o.term.sort.BitVecSort?
  {
    View(o.term.sort.width, o.SignExtends(), o.signed)
  }

  predicate ValidView(x: View, width: nat) {
    1 <= x.width <= width && (x.signExt ==> x.signed)
  }

  function Word(x: View, v: nat, width: nat): nat
    requires ValidView(x, width) && v < Pow2(x.width)
  {
    Extended(v, x.width, width, x.signExt)
  }

  function IntOf(x: View, v: nat): int
    requires x.width >= 1
  {
    IntValue(v, x.width, x.signed)
  }

  lemma ExtendedValue(env: Env, t: Term, width: nat, signed: bool)
    requires ValidEnv(env) && WordTerm(t) && t.sort.width < width
    ensures var c := App(if signed then SignExt else ZeroExt, BitVecSort(width), [t], width - t.sort.width);
            WordTerm(c) && WordValue(env, c) == Extended(WordValue(env, t), t.sort.width, width, signed)
  {
  }

  lemma SameWidth(v: nat, w: nat, signed: bool)
    requires w >= 1 && v < Pow2(w)
    ensures Extended(v, w, w, signed) == v
  {
  }

  lemma CoercedWord(env: Env, t: Term, width: nat, signed: bool)
    requires ValidEnv(env) && WordTerm(t) && t.sort.width <= width
    ensures var c := CoerceToWidth(t, BitVecSort(width), signed);
            WordTerm(c) && c.sort == BitVecSort(width)
            && WordValue(env, c) == Extended(WordValue(env, t), t.sort.width, width, signed)
  {
    if t.sort.width < width {
      ExtendedValue(env, t, width, signed);
    } else {
      SameWidth(WordValue(env, t), width, signed);
    }
  }

  lemma FormulaMeaning(env: Env, op: CmpOp, signedOp: bool, a: Term, b: Term)
    requires ValidEnv(env) && WordTerm(a) && WordTerm(b) && a.sort == b.sort && op != NotEqual
    ensures var t := App(MapCmpOp(op, signedOp), BoolSort, [a, b], 0);
            BoolTerm(t)
            && (Holds(env, t) <==> WordCompare(op, signedOp, WordValue(env, a), WordValue(env, b), a.sort.width))
  {
  }

  /** The exported formula is the word comparison of the extended operands. */
  lemma ExportMeaning(env: Env, op: CmpOp, sort: Sort, l: Operand, r: Operand)
    requires ValidEnv(env) && WordTerm(l.term) && WordTerm(r.term) && sort.BitVecSort?
    ensures var t, w, signedOp := ExportCompare(op, sort, l, r), TargetWidth(sort, l.term, r.term), SignedOp(l.sign, r.sign);
            var x, y := ViewOf(l), ViewOf(r);
            && BoolTerm(t) && ValidView(x, w) && ValidView(y, w)
            && (Holds(env, t) <==>
                WordCompare(op, signedOp, Word(x, WordValue(env, l.term), w), Word(y, WordValue(env, r.term), w), w))
  {
    var w := TargetWidth(sort, l.term, r.term);
    CoercedWord(env, l.term, w, l.SignExtends());
    CoercedWord(env, r.term, w, r.SignExtends());
    var a, b := CoerceToWidth(l.term, BitVecSort(w), l.SignExtends()), CoerceToWidth(r.term, BitVecSort(w), r.SignExtends());
    if op == NotEqual {
      FormulaMeaning(env, IsEqual, SignedOp(l.sign, r.sign), a, b);
      assert BoolTerm(App(Not, BoolSort, [App(Equal, BoolSort, [a, b], 0)], 0));
    } else {
      FormulaMeaning(env, op, SignedOp(l.sign, r.sign), a, b);
    }
  }

  /** The integer an operand stands for. */
  ghost function Meaning(env: Env, o: Operand): int
    requires ValidEnv(env) && WordTerm(o.term)
  {
    IntOf(ViewOf(o), WordValue(env, o.term))
  }

  /** The formula is true in a model exactly when the integers compare as written. */
  ghost predicate ExportIsRight(env: Env, op: CmpOp, sort: Sort, l: Operand, r: Operand)
    requires ValidEnv(env) && WordTerm(l.term) && WordTerm(r.term) && sort.BitVecSort?
  {
    var t := ExportCompare(op, sort, l, r);
    BoolTerm(t) && (Holds(env, t) <==> Compare(op, Meaning(env, l), Meaning(env, r)))
  }

  // ---- one operand, as numbers ------------------------------------------------------------------------

  /** The operator reads the integer back from the extended word: a signed operator
      from sign-extended words, from words that fill the width if they are meant
      signed, and from unsigned ones that do not; an unsigned operator only from
      words meant unsigned. */
  predicate Preserved(x: View, width: nat, signedOp: bool) {
    if signedOp then x.signExt || (x.signed <==> x.width == width) else !x.signed
  }

  lemma PreservedValue(x: View, v: nat, width: nat, signedOp: bool)
    requires ValidView(x, width) && v < Pow2(x.width) && Preserved(x, width, signedOp)
    ensures IntValue(Word(x, v, width), width, signedOp) == IntOf(x, v)
  {
    if x.width < width { Pow2Grows(x.width, width - 1); }
  }

  /** Where it is not, some value changes sides of zero. */
  lemma NotPreserved(x: View, width: nat, signedOp: bool) returns (v: nat)
    requires ValidView(x, width) && !Preserved(x, width, signedOp)
    ensures v < Pow2(x.width)
    ensures var word := IntValue(Word(x, v, width), width, signedOp);
            word < 0 < IntOf(x, v) || IntOf(x, v) < 0 < word
  {
    if x.width < width { Pow2Grows(x.width, width - 1); }
    v := Pow2(x.width - 1);
  }

  lemma ZeroKept(x: View, width: nat, signedOp: bool)
    requires ValidView(x, width)
    ensures 0 < Pow2(x.width) && Word(x, 0, width) == 0 == IntOf(x, 0) && IntValue(0, width, signedOp) == 0
  {
  }

  /** The word determines the integer modulo 2^width, unless zeros extend a word that
      is meant signed. */
  predicate Lossy(x: View, width: nat) {
    x.signed && !x.signExt && x.width < width
  }

  /** When equality of words is equality of integers. */
  predicate EqualityKept(x: View, y: View, width: nat) {
    if Lossy(x, width) then if Lossy(y, width) then x.width == y.width else !y.signed && y.width < x.width
    else if Lossy(y, width) then !x.signed && x.width < y.width
    else x.signed == y.signed || (if x.signed then y.width else x.width) < width
  }

  lemma EqualityByWord(x: View, y: View, a: nat, b: nat, width: nat)
    requires ValidView(x, width) && ValidView(y, width) && a < Pow2(x.width) && b < Pow2(y.width)
    requires EqualityKept(x, y, width)
    ensures Word(x, a, width) == Word(y, b, width) <==> IntOf(x, a) == IntOf(y, b)
  {
    if Lossy(x, width) {
      LossyEquality(x, y, a, b, width);
    } else if Lossy(y, width) {
      LossyEquality(y, x, b, a, width);
    } else {
      Congruent(x, a, width);
      Congruent(y, b, width);
    }
  }

  lemma LossyEquality(x: View, y: View, a: nat, b: nat, width: nat)
    requires ValidView(x, width) && ValidView(y, width) && a < Pow2(x.width) && b < Pow2(y.width)
    requires Lossy(x, width) && EqualityKept(x, y, width)
    ensures Word(x, a, width) == Word(y, b, width) <==> IntOf(x, a) == IntOf(y, b)
  {
    if !Lossy(y, width) { Pow2Grows(y.width, x.width - 1); }
  }

  /** Otherwise the word is the integer, or the integer below zero plus 2^width; only
      words meant unsigned that fill the width reach its upper half. */
  lemma Congruent(x: View, v: nat, width: nat)
    requires ValidView(x, width) && v < Pow2(x.width) && !Lossy(x, width)
    ensures var word, n := Word(x, v, width), IntOf(x, v);
            && (if n < 0 then word == n + Pow2(width) >= Pow2(width - 1) else word == n)
            && (n >= Pow2(width - 1) ==> !x.signed && x.width == width)
            && (n < 0 ==> x.signed)
  {
    if x.width < width { Pow2Grows(x.width, width - 1); }
  }

  /** All ones: minus one for a signed reading, the largest number otherwise. */
  lemma AllOnes(x: View, width: nat)
    requires ValidView(x, width)
    ensures var v := Pow2(x.width) - 1;
            && IntOf(x, v) == (if x.signed then -1 else v)
            && Word(x, v, width) == (if x.signExt || x.width == width then Pow2(width) - 1 else v)
  {
  }

  /** Otherwise two words are equal for different integers, or differ for equal ones. */
  lemma EqualityLost(x: View, y: View, width: nat) returns (a: nat, b: nat)
    requires ValidView(x, width) && ValidView(y, width) && !EqualityKept(x, y, width)
    ensures a < Pow2(x.width) && b < Pow2(y.width)
    ensures (Word(x, a, width) == Word(y, b, width)) != (IntOf(x, a) == IntOf(y, b))
  {
    if Lossy(x, width) {
      a, b := LossyLost(x, y, width);
    } else if Lossy(y, width) {
      b, a := LossyLost(y, x, width);
    } else {
      AllOnes(x, width);
      AllOnes(y, width);
      a, b := Pow2(x.width) - 1, Pow2(y.width) - 1;
    }
  }

  lemma LossyLost(x: View, y: View, width: nat) returns (a: nat, b: nat)
    requires ValidView(x, width) && ValidView(y, width) && Lossy(x, width) && !EqualityKept(x, y, width)
    ensures a < Pow2(x.width) && b < Pow2(y.width)
    ensures (Word(x, a, width) == Word(y, b, width)) != (IntOf(x, a) == IntOf(y, b))
  {
    AllOnes(x, width);
    a := Pow2(x.width) - 1;
    if y.signed {
      AllOnes(y, width);
      Pow2Strict(x.width, y.width);
      Pow2Strict(x.width, width);
      b := Pow2(y.width) - 1;
    } else {
      Pow2Grows(x.width, y.width);
      b := a;
    }
  }

  lemma Pow2Strict(v: nat, w: nat)
    ensures Pow2(v) == Pow2(w) <==> v == w
  {
    if v < w { Pow2Grows(v, w - 1); } else if w < v { Pow2Grows(w, v - 1); }
  }

  // ---- when the export is right ---------------------------------------------------------------------

  /** Order comparisons need both integers, equality only equal words for equal
      integers. */
  predicate RightFor(op: CmpOp, sort: Sort, l: Operand, r: Operand)
    requires l.term.sort.BitVecSort? && r.term.sort.BitVecSort? && sort.BitVecSort?
  {
    var w, signedOp := TargetWidth(sort, l.term, r.term), SignedOp(l.sign, r.sign);
    var x, y := ViewOf(l), ViewOf(r);
    if op == IsEqual || op == NotEqual then EqualityKept(x, y, w)
    else Preserved(x, w, signedOp) && Preserved(y, w, signedOp)
  }

  lemma RightValues(op: CmpOp, x: View, y: View, a: nat, b: nat, w: nat, signedOp: bool)
    requires ValidView(x, w) && ValidView(y, w) && a < Pow2(x.width) && b < Pow2(y.width)
    requires if op == IsEqual || op == NotEqual then EqualityKept(x, y, w)
             else Preserved(x, w, signedOp) && Preserved(y, w, signedOp)
    ensures WordCompare(op, signedOp, Word(x, a, w), Word(y, b, w), w) <==> Compare(op, IntOf(x, a), IntOf(y, b))
  {
    if op == IsEqual || op == NotEqual {
      EqualityByWord(x, y, a, b, w);
    } else {
      PreservedValue(x, a, w, signedOp);
      PreservedValue(y, b, w, signedOp);
    }
  }

  lemma WrongValues(op: CmpOp, x: View, y: View, w: nat, signedOp: bool) returns (a: nat, b: nat)
    requires ValidView(x, w) && ValidView(y, w)
    requires !if op == IsEqual || op == NotEqual then EqualityKept(x, y, w)
              else Preserved(x, w, signedOp) && Preserved(y, w, signedOp)
    ensures a < Pow2(x.width) && b < Pow2(y.width)
    ensures WordCompare(op, signedOp, Word(x, a, w), Word(y, b, w), w) != Compare(op, IntOf(x, a), IntOf(y, b))
  {
    if op == IsEqual || op == NotEqual {
      a, b := EqualityLost(x, y, w);
    } else {
      ZeroKept(x, w, signedOp);
      ZeroKept(y, w, signedOp);
      if Preserved(x, w, signedOp) {
        a := 0;
        b := NotPreserved(y, w, signedOp);
      } else {
        a := NotPreserved(x, w, signedOp);
        b := 0;
      }
    }
  }

  /** Under the condition the exported formula means the comparison of the integers,
      for all terms and all models. */
  lemma ExportFaithful(env: Env, op: CmpOp, sort: Sort, l: Operand, r: Operand)
    requires ValidEnv(env) && WordTerm(l.term) && WordTerm(r.term) && sort.BitVecSort?
    requires RightFor(op, sort, l, r)
    ensures ExportIsRight(env, op, sort, l, r)
  {
    var w, signedOp := TargetWidth(sort, l.term, r.term), SignedOp(l.sign, r.sign);
    ExportMeaning(env, op, sort, l, r);
    RightValues(op, ViewOf(l), ViewOf(r), WordValue(env, l.term), WordValue(env, r.term), w, signedOp);
  }

  /** Gives `a` to one name and `b` to all others, as far as they fit. */
  function Witness(name: string, a: nat, b: nat): Env {
    (n: string, w: nat) => var v := if n == name then a else b; if v < Pow2(w) then v else 0
  }

  lemma WitnessValues(l: Term, r: Term, a: nat, b: nat)
    requires l.Atom? && r.Atom? && l.name != r.name && WordTerm(l) && WordTerm(r)
    requires a < Pow2(l.sort.width) && b < Pow2(r.sort.width)
    ensures var env := Witness(l.name, a, b);
            ValidEnv(env) && WordValue(env, l) == a && WordValue(env, r) == b
  {
  }

  /** Otherwise some model makes the exported formula wrong, whatever the operator. */
  lemma ExportUnfaithful(op: CmpOp, sort: Sort, l: Operand, r: Operand) returns (env: Env)
    requires l.term.Atom? && r.term.Atom? && l.term.name != r.term.name
    requires WordTerm(l.term) && WordTerm(r.term) && sort.BitVecSort? && !RightFor(op, sort, l, r)
    ensures ValidEnv(env) && !ExportIsRight(env, op, sort, l, r)
  {
    var w, signedOp := TargetWidth(sort, l.term, r.term), SignedOp(l.sign, r.sign);
    var a, b := WrongValues(op, ViewOf(l), ViewOf(r), w, signedOp);
    env := Witness(l.term.name, a, b);
    WitnessValues(l.term, r.term, a, b);
    ExportMeaning(env, op, sort, l, r);
  }

  /** The exact condition for the export of a comparison to be right in all models,
      whatever is known about signs and types. */
  lemma ExportRightIff(op: CmpOp, sort: Sort, l: Operand, r: Operand)
    requires l.term.Atom? && r.term.Atom? && l.term.name != r.term.name
    requires WordTerm(l.term) && WordTerm(r.term) && sort.BitVecSort?
    ensures RightFor(op, sort, l, r) <==> forall env: Env :: ValidEnv(env) ==> ExportIsRight(env, op, sort, l, r)
  {
    if RightFor(op, sort, l, r) {
      forall env: Env | ValidEnv(env) ensures ExportIsRight(env, op, sort, l, r) {
        ExportFaithful(env, op, sort, l, r);
      }
    } else {
      var env := ExportUnfaithful(op, sort, l, r);
    }
  }

  /** A variable, parameter or call whose type gives its sign. */
  function Known(t: Term, signed: bool): Operand {
    Operand(t, if signed then Sign.Signed else Sign.Unsigned, signed, true)
  }

  /** Two operands of concrete types, compared at the sort of the left one: right
      exactly for equal signedness or a strictly wider signed operand. */
  lemma ConcreteOperands(op: CmpOp, l: Term, lSigned: bool, r: Term, rSigned: bool)
    requires l.Atom? && r.Atom? && l.name != r.name && WordTerm(l) && WordTerm(r)
    ensures (forall env: Env :: ValidEnv(env) ==> ExportIsRight(env, op, l.sort, Known(l, lSigned), Known(r, rSigned))) <==>
            lSigned == rSigned
            || (lSigned && r.sort.width < l.sort.width) || (rSigned && l.sort.width < r.sort.width)
  {
    KnownOperands(op, l.sort, l, lSigned, r, rSigned);
    ExportRightIff(op, l.sort, Known(l, lSigned), Known(r, rSigned));
  }

  /** The operands are compared at the width of the declared sort or of the wider
      operand, whichever is greatest; a sort of another kind leaves them as they are. */
  lemma OperandWidths(op: CmpOp, sort: Sort, l: Operand, r: Operand)
    requires l.term.sort.BitVecSort? && r.term.sort.BitVecSort?
    ensures var t := ExportCompare(op, sort, l, r);
            var cmp := if op == NotEqual then t.args[0] else t;
            var a, b := cmp.args[0], cmp.args[1];
            && |cmp.args| == 2
            && (!sort.BitVecSort? ==> a == l.term && b == r.term)
            && (sort.BitVecSort? ==>
                  && a.sort == b.sort && a.sort.BitVecSort?
                  && a.sort.width in {sort.width, l.term.sort.width, r.term.sort.width}
                  && a.sort.width >= sort.width && a.sort.width >= l.term.sort.width && a.sort.width >= r.term.sort.width)
  {
  }

  /** Two operands of concrete types at any declared sort: right exactly for equal
      signedness, or when the unsigned operand is narrower than the declared sort or
      the signed operand. */
  lemma ConcreteAtSort(op: CmpOp, s: nat, l: Term, lSigned: bool, r: Term, rSigned: bool)
    requires l.Atom? && r.Atom? && l.name != r.name && WordTerm(l) && WordTerm(r)
    ensures (forall env: Env :: ValidEnv(env) ==>
               ExportIsRight(env, op, BitVecSort(s), Known(l, lSigned), Known(r, rSigned))) <==>
            || lSigned == rSigned
            || (lSigned && (r.sort.width < s || r.sort.width < l.sort.width))
            || (rSigned && (l.sort.width < s || l.sort.width < r.sort.width))
  {
    KnownOperands(op, BitVecSort(s), l, lSigned, r, rSigned);
    ExportRightIff(op, BitVecSort(s), Known(l, lSigned), Known(r, rSigned));
  }

  /** A signed operand whose type the export does not find is extended by zeros: beside a
      signed operand of known type it compares rightly exactly if it is not extended. */
  lemma UnknownType(op: CmpOp, l: Term, r: Term)
    requires l.Atom? && r.Atom? && l.name != r.name && WordTerm(l) && WordTerm(r)
    ensures (forall env: Env :: ValidEnv(env) ==>
               ExportIsRight(env, op, l.sort, Known(l, true), Operand(r, Sign.Signed, true, false))) <==>
            r.sort.width >= l.sort.width
  {
    var o := Operand(r, Sign.Signed, true, false);
    UnknownTypeRight(op, l, o);
    ExportRightIff(op, l.sort, Known(l, true), o);
  }

  lemma UnknownTypeRight(op: CmpOp, l: Term, o: Operand)
    requires WordTerm(l) && WordTerm(o.term) && o.sign == Sign.Signed && o.signed && !o.typed
    ensures RightFor(op, l.sort, Known(l, true), o) <==> o.term.sort.width >= l.sort.width
  {
  }

  /** Operands of known sign at any sort: equal signedness, or an unsigned operand
      narrower than the comparison. */
  lemma KnownOperands(op: CmpOp, sort: Sort, l: Term, lSigned: bool, r: Term, rSigned: bool)
    requires WordTerm(l) && WordTerm(r) && sort.BitVecSort?
    ensures RightFor(op, sort, Known(l, lSigned), Known(r, rSigned)) <==>
            lSigned == rSigned || (if lSigned then r.sort.width else l.sort.width) < TargetWidth(sort, l, r)
  {
  }

  /** A global has the sort of the operand on its left and takes over its sign: right
      exactly when its values are meant with the same signedness, known or not. */
  lemma GlobalOperand(op: CmpOp, l: Term, lSigned: bool, name: string, signed: bool, typed: bool)
    requires l.Atom? && l.name != name && WordTerm(l)
    ensures (forall env: Env :: ValidEnv(env) ==>
               ExportIsRight(env, op, l.sort, Known(l, lSigned), Operand(Atom(name, l.sort), Neutral, signed, typed))) <==>
            signed == lSigned
  {
    var g := Operand(Atom(name, l.sort), Neutral, signed, typed);
    SameSortRight(op, l, lSigned, g);
    ExportRightIff(op, l.sort, Known(l, lSigned), g);
  }

  lemma SameSortRight(op: CmpOp, l: Term, lSigned: bool, g: Operand)
    requires WordTerm(l) && g.term.sort == l.sort && g.sign == Neutral
    ensures RightFor(op, l.sort, Known(l, lSigned), g) <==> g.signed == lSigned
  {
  }

  // ---- literals ----------------------------------------------------------------------------------------

  /** A literal has a signed type inferred from its value and no sign of its own. */
  function LiteralOperand(n: nat, sort: Sort): Operand {
    Operand(Numeral(n, sort), Neutral, true, true)
  }

  /** Beside a literal everything not inferred to be unsigned is compared as signed. */
  predicate SignedBesideLiteral(o: Operand) {
    SignedOp(o.sign, Neutral)
  }

  ghost predicate LiteralIsRight(env: Env, op: CmpOp, l: Operand, n: nat)
    requires ValidEnv(env) && WordTerm(l.term)
  {
    var t := ExportCompare(op, l.term.sort, l, LiteralOperand(n, l.term.sort));
    BoolTerm(t) && (Holds(env, t) <==> Compare(op, Meaning(env, l), n))
  }

  function MaxOf(w: nat, signed: bool): nat
    requires w >= 1
  {
    if signed then Pow2(w - 1) - 1 else Pow2(w) - 1
  }

  /** Equality needs a literal that fits the values of the other operand.  So does an
      order comparison, whose operator must read those values as they are meant, unless
      every value, or none, satisfies `<=` or `>` and the literal wraps around to the
      largest number the operator knows. */
  predicate LiteralFits(op: CmpOp, w: nat, signed: bool, signedOp: bool, n: nat)
    requires w >= 1
  {
    if op == IsEqual || op == NotEqual then n <= MaxOf(w, signed)
    else
      || (signed == signedOp && n <= MaxOf(w, signed))
      || ((op == LessEq || op == Greater) && Wrapped(n, w) == MaxOf(w, signedOp) && n >= MaxOf(w, signed))
  }

  lemma WrappedBelow(n: nat, w: nat)
    ensures Wrapped(n, w) <= n && (n >= Pow2(w) ==> Wrapped(n, w) + Pow2(w) <= n)
  {
  }

  /** What remains of a literal: itself, or something smaller. */
  lemma LiteralRead(w: nat, signed: bool, n: nat)
    requires w >= 1
    ensures var m := IntValue(Wrapped(n, w), w, signed);
            && m <= MaxOf(w, signed) && (n <= MaxOf(w, signed) ==> m == n)
            && (m == MaxOf(w, signed) <==> Wrapped(n, w) == MaxOf(w, signed))
            && (n > MaxOf(w, signed) ==> m < n)
  {
    WrappedBelow(n, w);
  }

  lemma LiteralMeaning(env: Env, op: CmpOp, l: Operand, n: nat)
    requires ValidEnv(env) && WordTerm(l.term)
    ensures var v, w := WordValue(env, l.term), l.term.sort.width;
            LiteralIsRight(env, op, l, n) <==>
            (WordCompare(op, SignedBesideLiteral(l), v, Wrapped(n, w), w) <==> Compare(op, IntValue(v, w, l.signed), n))
  {
    var o := LiteralOperand(n, l.term.sort);
    ExportMeaning(env, op, l.term.sort, l, o);
    FullWidth(env, l.term, ViewOf(l));
    FullWidth(env, o.term, ViewOf(o));
  }

  /** A word that fills the width of the comparison is not extended. */
  lemma FullWidth(env: Env, t: Term, x: View)
    requires ValidEnv(env) && WordTerm(t) && ValidView(x, t.sort.width) && x.width == t.sort.width
    ensures Word(x, WordValue(env, t), t.sort.width) == WordValue(env, t)
    ensures t.Numeral? ==> WordValue(env, t) == Wrapped(t.value, t.sort.width)
  {
    SameWidth(WordValue(env, t), t.sort.width, x.signExt);
  }

  lemma LiteralCompared(op: CmpOp, w: nat, signed: bool, signedOp: bool, n: nat, v: nat)
    requires w >= 1 && v < Pow2(w) && LiteralFits(op, w, signed, signedOp, n)
    ensures WordCompare(op, signedOp, v, Wrapped(n, w), w) <==> Compare(op, IntValue(v, w, signed), n)
  {
    LiteralRead(w, signed, n);
    LiteralRead(w, signedOp, n);
    SameByReading(v, Wrapped(n, w), w, signed);
  }

  lemma LiteralMissed(op: CmpOp, w: nat, signed: bool, signedOp: bool, n: nat) returns (v: nat)
    requires w >= 1 && !LiteralFits(op, w, signed, signedOp, n)
    ensures v < Pow2(w)
    ensures WordCompare(op, signedOp, v, Wrapped(n, w), w) != Compare(op, IntValue(v, w, signed), n)
  {
    LiteralRead(w, signed, n);
    if op == IsEqual || op == NotEqual {
      v := Wrapped(n, w);
    } else if signed == signedOp {
      v := if op == LessEq || op == Greater then MaxOf(w, signed) else Wrapped(n, w);
    } else {
      v := LiteralMisread(op, w, signed, n);
    }
  }

  /** The operator reads the values otherwise than they are meant. */
  lemma LiteralMisread(op: CmpOp, w: nat, signed: bool, n: nat) returns (v: nat)
    requires w >= 1 && op != IsEqual && op != NotEqual && !LiteralFits(op, w, signed, !signed, n)
    ensures v < Pow2(w)
    ensures WordCompare(op, !signed, v, Wrapped(n, w), w) != Compare(op, IntValue(v, w, signed), n)
  {
    var half, m := Pow2(w - 1), Wrapped(n, w);
    WrappedBelow(n, w);
    if signed {
      // -1 is the largest word and below every literal
      v := Pow2(w) - 1;
    } else if op == Less || op == GreaterEq {
      v := if m == half then 0 else if n <= half then half else half - 1;
    } else {
      v := if n < half then half else half - 1;
    }
  }

  /** Comparing any operand with a literal on the right: the exact condition to be right
      in all models. */
  lemma LiteralRightIff(op: CmpOp, l: Operand, n: nat)
    requires l.term.Atom? && WordTerm(l.term)
    ensures LiteralFits(op, l.term.sort.width, l.signed, SignedBesideLiteral(l), n) <==>
            forall env: Env :: ValidEnv(env) ==> LiteralIsRight(env, op, l, n)
  {
    var w, signedOp := l.term.sort.width, SignedBesideLiteral(l);
    if LiteralFits(op, w, l.signed, signedOp, n) {
      forall env: Env | ValidEnv(env) ensures LiteralIsRight(env, op, l, n) {
        LiteralMeaning(env, op, l, n);
        LiteralCompared(op, w, l.signed, signedOp, n, WordValue(env, l.term));
      }
    } else {
      var v := LiteralMissed(op, w, l.signed, signedOp, n);
      var env := Witness(l.term.name, v, 0);
      LiteralMeaning(env, op, l, n);
      assert !LiteralIsRight(env, op, l, n);
    }
  }

  /** A local variable of type UInt8 has no inferred sign: `y < 200` is exported with a
      signed operator and misjudges the value 0. */
  lemma UnsignedLocal(name: string)
    ensures var y := Operand(Atom(name, BitVecSort(8)), Neutral, false, true);
            var env := Witness(name, 0, 0);
            ValidEnv(env) && !LiteralIsRight(env, Less, y, 200)
  {
    var y := Operand(Atom(name, BitVecSort(8)), Neutral, false, true);
    assert Pow2(7) == 128 && Pow2(8) == 256;
    LiteralMeaning(Witness(name, 0, 0), Less, y, 200);
  }

  lemma SameByReading(a: nat, b: nat, w: nat, signed: bool)
    requires w >= 1 && a < Pow2(w) && b < Pow2(w)
    ensures IntValue(a, w, signed) == IntValue(b, w, signed) <==> a == b
  {
  }

  // ---- literals on the left ----------------------------------------------------------------------------

  /** A literal that fits its sort is read as itself at every width. */
  lemma LiteralKept(n: nat, width: nat, w: nat, signedOp: bool)
    requires 1 <= width <= w && n < Pow2(width - 1)
    ensures n < Pow2(width) && n < Pow2(w - 1) && Extended(n, width, w, true) == n == IntValue(n, w, signedOp)
  {
    Pow2Grows(width - 1, w - 1);
  }

  /** Values meant signed but extended by zeros are told from a literal only beyond
      their range; all others compare rightly if the operator reads them as meant, and
      are equal to the literal exactly as meant. */
  predicate LeftLiteralFits(op: CmpOp, n: nat, y: View, w: nat, signedOp: bool)
    requires y.width >= 1
  {
    if Lossy(y, w) then
      match op
      case IsEqual => n < Pow2(y.width - 1) || n >= Pow2(y.width)
      case NotEqual => n < Pow2(y.width - 1) || n >= Pow2(y.width)
      case Less => n >= Pow2(y.width) - 1
      case GreaterEq => n >= Pow2(y.width) - 1
      case LessEq => n >= Pow2(y.width)
      case Greater => n >= Pow2(y.width)
    else op == IsEqual || op == NotEqual || Preserved(y, w, signedOp)
  }

  lemma LeftLiteralCompared(op: CmpOp, n: nat, y: View, v: nat, w: nat, signedOp: bool)
    requires ValidView(y, w) && v < Pow2(y.width) && n < Pow2(w - 1) && n < Pow2(w)
    requires LeftLiteralFits(op, n, y, w, signedOp)
    ensures WordCompare(op, signedOp, n, Word(y, v, w), w) <==> Compare(op, n, IntOf(y, v))
  {
    if Lossy(y, w) {
      Pow2Grows(y.width, w - 1);
    } else if op == IsEqual || op == NotEqual {
      Congruent(y, v, w);
    } else {
      PreservedValue(y, v, w, signedOp);
    }
  }

  lemma LeftLiteralMissed(op: CmpOp, n: nat, y: View, w: nat, signedOp: bool) returns (v: nat)
    requires ValidView(y, w) && n < Pow2(w - 1) && n < Pow2(w)
    requires !LeftLiteralFits(op, n, y, w, signedOp)
    ensures v < Pow2(y.width)
    ensures WordCompare(op, signedOp, n, Word(y, v, w), w) != Compare(op, n, IntOf(y, v))
  {
    AllOnes(y, w);
    if Lossy(y, w) {
      Pow2Grows(y.width, w - 1);
      v := if op == IsEqual || op == NotEqual then n else Pow2(y.width) - 1;
    } else if y.signed {
      v := Pow2(y.width) - 1;
    } else {
      v := Pow2(y.width - 1);
    }
  }

  /** Comparing a literal on the left, which has the sort of its own type, with any
      operand: the exact condition to be right in all models. */
  lemma LiteralLeftIff(op: CmpOp, n: nat, width: nat, r: Operand)
    requires r.term.Atom? && WordTerm(r.term) && width >= 1 && n < Pow2(width - 1)
    ensures var w := TargetWidth(BitVecSort(width), Numeral(n, BitVecSort(width)), r.term);
            LeftLiteralFits(op, n, ViewOf(r), w, SignedBesideLiteral(r)) <==>
            forall env: Env :: ValidEnv(env) ==> LeftLiteralIsRight(env, op, n, width, r)
  {
    var w := TargetWidth(BitVecSort(width), Numeral(n, BitVecSort(width)), r.term);
    LiteralKept(n, width, w, SignedBesideLiteral(r));
    if LeftLiteralFits(op, n, ViewOf(r), w, SignedBesideLiteral(r)) {
      forall env: Env | ValidEnv(env) ensures LeftLiteralIsRight(env, op, n, width, r) {
        LeftLiteralMeaning(env, op, n, width, r);
        LeftLiteralCompared(op, n, ViewOf(r), WordValue(env, r.term), w, SignedBesideLiteral(r));
      }
    } else {
      var v := LeftLiteralMissed(op, n, ViewOf(r), w, SignedBesideLiteral(r));
      var env := Witness(r.term.name, v, 0);
      LeftLiteralMeaning(env, op, n, width, r);
      assert !LeftLiteralIsRight(env, op, n, width, r);
    }
  }

  ghost predicate LeftLiteralIsRight(env: Env, op: CmpOp, n: nat, width: nat, r: Operand)
    requires ValidEnv(env) && WordTerm(r.term) && width >= 1
  {
    var t := ExportCompare(op, BitVecSort(width), LiteralOperand(n, BitVecSort(width)), r);
    BoolTerm(t) && (Holds(env, t) <==> Compare(op, n, Meaning(env, r)))
  }

  lemma LeftLiteralMeaning(env: Env, op: CmpOp, n: nat, width: nat, r: Operand)
    requires ValidEnv(env) && WordTerm(r.term) && width >= 1 && n < Pow2(width - 1)
    ensures var w := TargetWidth(BitVecSort(width), Numeral(n, BitVecSort(width)), r.term);
            && 1 <= width <= w && ValidView(ViewOf(r), w) && n < Pow2(w)
            && (LeftLiteralIsRight(env, op, n, width, r) <==>
                (WordCompare(op, SignedBesideLiteral(r), n, Word(ViewOf(r), WordValue(env, r.term), w), w) <==>
                 Compare(op, n, Meaning(env, r))))
  {
    var sort := BitVecSort(width);
    var w := TargetWidth(sort, Numeral(n, sort), r.term);
    LiteralKept(n, width, w, SignedBesideLiteral(r));
    ExportMeaning(env, op, sort, LiteralOperand(n, sort), r);
  }

  /** A literal on the left of an operand whose type gives its sign is always right. */
  lemma LiteralOnTheLeft(env: Env, op: CmpOp, n: nat, width: nat, r: Term, signed: bool)
    requires ValidEnv(env) && WordTerm(r) && width >= 1 && n < Pow2(width - 1)
    ensures LeftLiteralIsRight(env, op, n, width, Known(r, signed))
  {
    var w := TargetWidth(BitVecSort(width), Numeral(n, BitVecSort(width)), r);
    LeftLiteralMeaning(env, op, n, width, Known(r, signed));
    LiteralKept(n, width, w, signed);
    LeftLiteralCompared(op, n, ViewOf(Known(r, signed)), WordValue(env, r), w, signed);
  }
}

/** Types of arithmetic expressions: promotion of operands and the type of a whole
    expression tree. */
module Promotion {
  import opened Types

  datatype OpKind = MathOp | CompareOp | LogicalOp

  datatype BinaryOp = Add | Sub | Mul | Div | Mod | IntDiv | IntDivAssign

  predicate IsIntDivOp(op: BinaryOp) {
    op == IntDiv || op == IntDivAssign
  }

  function FloatTypeForData(data: Byte): TypeId {
    match data
    case 16 => GetType(Float16)
    case 32 => GetType(Float32)
    case _ => GetType(Float64)
  }

  function PromoteSingleNumeric(reg: Registry, id: TypeId): TypeId {
    var c := Canonical(reg, id);
    match c.kind.group
    case Numbers => c
    case Integers => if c.kind.data >= 64 then GetType(Int64) else GetType(Int32)
    case Unsigned => if c.kind.data >= 64 then GetType(UInt64) else GetType(UInt32)
    case _ => INVALID
  }

  function CommonArithmeticType(reg: Registry, lhs: TypeId, rhs: TypeId): TypeId {
    var l, r := Canonical(reg, lhs).kind, Canonical(reg, rhs).kind;
    if l.group == Numbers || r.group == Numbers then
      var lw: Byte := if l.group == Numbers then l.data else 0;
      var rw: Byte := if r.group == Numbers then r.data else 0;
      FloatTypeForData(if lw >= rw then lw else rw)
    else if l.data >= 64 || r.data >= 64 then GetType(Int64)
    else GetType(Int32)
  }

  /** Rational 2, BigInteger 1, machine integer 0, anything else -1. */
  function PrecisionLevel(c: TypeId): int {
    match c.kind.group
    case ArbitraryPrecision => if c == GetType(Rational) then 2 else 1
    case Integers => 0
    case Unsigned => 0
    case _ => -1
  }

  function ArbitraryPrecisionArithmeticType(reg: Registry, lhs: TypeId, rhs: TypeId): TypeId {
    var lc, rc := Canonical(reg, lhs), Canonical(reg, rhs);
    var ll, rl := PrecisionLevel(lc), PrecisionLevel(rc);
    if ll < 0 || rl < 0 then INVALID else if ll >= rl then lc else rc
  }

  predicate IsAnyType(reg: Registry, id: TypeId) {
    id != INVALID && Canonical(reg, id).kind.group == AnyGroup
  }

  function ResultTypeBinary(reg: Registry, kind: OpKind, op: BinaryOp, lhs: TypeId, rhs: TypeId): TypeId {
    if kind == CompareOp || kind == LogicalOp then GetType(Bool)
    else if lhs == INVALID || rhs == INVALID then INVALID
    else
      var lc, rc := Canonical(reg, lhs), Canonical(reg, rhs);
      var lg, rg := lc.kind.group, rc.kind.group;
      if lg == ArbitraryPrecision || rg == ArbitraryPrecision then
        if IsIntDivOp(op) then INVALID else ArbitraryPrecisionArithmeticType(reg, lc, rc)
      else if IsIntDivOp(op) then GetType(Int64)
      else if IsAnyType(reg, lhs) && IsArithmeticGroup(rg) then PromoteSingleNumeric(reg, rc)
      else if IsAnyType(reg, rhs) && IsArithmeticGroup(lg) then PromoteSingleNumeric(reg, lc)
      else if IsAnyType(reg, lhs) || IsAnyType(reg, rhs) then INVALID
      else if !IsArithmeticGroup(lg) || !IsArithmeticGroup(rg) then INVALID
      else CommonArithmeticType(reg, lc, rc)
  }

  // ---- expression trees --------------------------------------------------------------------

  datatype Tree = Leaf(typ: TypeId) | Node(op: BinaryOp, left: Tree, right: Tree)

  function TypeOf(reg: Registry, t: Tree): TypeId {
    match t
    case Leaf(id) => id
    case Node(op, l, r) => ResultTypeBinary(reg, MathOp, op, TypeOf(reg, l), TypeOf(reg, r))
  }

  function Leaves(t: Tree): multiset<TypeId> {
    match t
    case Leaf(id) => multiset{id}
    case Node(_, l, r) => Leaves(l) + Leaves(r)
  }

  predicate NoIntDiv(t: Tree) {
    t.Node? ==> !IsIntDivOp(t.op) && NoIntDiv(t.left) && NoIntDiv(t.right)
  }

  // ---- reference: what the leaves have in common ---------------------------------------------

  /** Machine integers, the three float types, BigInteger and Rational. */
  predicate Arithmetic(reg: Registry, id: TypeId) {
    var c := Canonical(reg, id);
    id != INVALID &&
    match c.kind.group
    case Integers => true
    case Unsigned => true
    case Numbers => c.kind.data in {16, 32, 64}
    case ArbitraryPrecision => c == GetType(Rational) || c == GetType(BigInteger)
    case _ => false
  }

  /** The built-in types the laws on operands are about. */
  lemma ArithmeticBuiltins(reg: Registry, b: Builtin)
    ensures Arithmetic(reg, GetType(b)) <==> b !in {Bool, AnyType, StrChar}
    ensures forall id :: Arithmetic(reg, id) ==> Canonical(reg, id).kind.group in {Integers, Unsigned, Numbers, ArbitraryPrecision}
  {
    BuiltinCanonical(reg, b);
  }

  predicate IsFloat(reg: Registry, id: TypeId, w: nat) {
    Canonical(reg, id).kind.group == Numbers && Canonical(reg, id).kind.data == w
  }

  predicate IsWideInt(reg: Registry, id: TypeId) {
    var k := Canonical(reg, id).kind;
    (k.group == Integers || k.group == Unsigned) && k.data >= 64
  }

  ghost predicate HasType(reg: Registry, ls: multiset<TypeId>, b: Builtin) {
    exists id :: id in ls && Canonical(reg, id) == GetType(b)
  }

  ghost predicate HasFloat(reg: Registry, ls: multiset<TypeId>, w: nat) {
    exists id :: id in ls && IsFloat(reg, id, w)
  }

  ghost predicate HasWideInt(reg: Registry, ls: multiset<TypeId>) {
    exists id :: id in ls && IsWideInt(reg, id)
  }

  /** What occurs among the operands. */
  datatype Traits = Traits(rational: bool, big: bool, float16: bool, float32: bool, float64: bool, wide: bool) {
    predicate Mixed() {
      (rational || big) && (float16 || float32 || float64)
    }
  }

  ghost function TraitsOf(reg: Registry, ls: multiset<TypeId>): Traits {
    Traits(HasType(reg, ls, Rational), HasType(reg, ls, BigInteger),
           HasFloat(reg, ls, 16), HasFloat(reg, ls, 32), HasFloat(reg, ls, 64), HasWideInt(reg, ls))
  }

  function TypeOfTraits(t: Traits): TypeId {
    if t.Mixed() then INVALID
    else if t.rational then GetType(Rational)
    else if t.big then GetType(BigInteger)
    else if t.float64 then GetType(Float64)
    else if t.float32 then GetType(Float32)
    else if t.float16 then GetType(Float16)
    else if t.wide then GetType(Int64)
    else GetType(Int32)
  }

  /** Type of a bag of operands, by what occurs among them and nothing else. */
  ghost function BagType(reg: Registry, ls: multiset<TypeId>): TypeId {
    TypeOfTraits(TraitsOf(reg, ls))
  }

  // ---- classes of operand types ---------------------------------------------------------------

  datatype Class = Bad | RationalC | BigC | FloatC(w: nat) | IntC(wide: bool) | AnyC | NoClass

  predicate Untyped(c: Class) {
    c.AnyC?
  }

  predicate Machine(c: Class) {
    c.IntC? || c.FloatC?
  }

  predicate Exact(c: Class) {
    c.RationalC? || c.BigC?
  }

  predicate Whole(c: Class) {
    c.IntC?
  }

  function ClassOfType(reg: Registry, id: TypeId): (r: Class)
    ensures r.FloatC? ==> r.w in {16, 32, 64}
  {
    if id == INVALID then Bad
    else
      var c := Canonical(reg, id);
      match c.kind.group
      case Integers => IntC(c.kind.data >= 64)
      case Unsigned => IntC(c.kind.data >= 64)
      case Numbers => if c.kind.data in {16, 32, 64} then FloatC(c.kind.data) else NoClass
      case ArbitraryPrecision =>
        if c == GetType(Rational) then RationalC else if c == GetType(BigInteger) then BigC else NoClass
      case AnyGroup => AnyC
      case _ => NoClass
  }

  function Join(a: Class, b: Class): (r: Class)
    ensures r.FloatC? ==> (a.FloatC? && r == a) || (b.FloatC? && r == b)
  {
    match (a, b)
    case (Bad, _) => Bad
    case (_, Bad) => Bad
    case (AnyC, _) => if Machine(b) then b else Bad
    case (_, AnyC) => if Machine(a) then a else Bad
    case (RationalC, FloatC(_)) => Bad
    case (BigC, FloatC(_)) => Bad
    case (FloatC(_), RationalC) => Bad
    case (FloatC(_), BigC) => Bad
    case (RationalC, _) => RationalC
    case (_, RationalC) => RationalC
    case (BigC, _) => BigC
    case (_, BigC) => BigC
    case (FloatC(v), FloatC(w)) => if v >= w then a else b
    case (FloatC(_), _) => a
    case (_, FloatC(_)) => b
    case (IntC(v), IntC(w)) => IntC(v || w)
    case _ => NoClass
  }

  function TypeOfClass(c: Class): TypeId {
    match c
    case RationalC => GetType(Rational)
    case BigC => GetType(BigInteger)
    case FloatC(w) => if w == 16 then GetType(Float16) else if w == 32 then GetType(Float32) else GetType(Float64)
    case IntC(wide) => if wide then GetType(Int64) else GetType(Int32)
    case _ => INVALID
  }

  lemma TypeOfClassHasClass(reg: Registry, c: Class)
    requires c != NoClass && c != AnyC && (c.FloatC? ==> c.w in {16, 32, 64})
    ensures ClassOfType(reg, TypeOfClass(c)) == c
  {
  }

  /** One operator: the type of the result follows from the classes of the operands. */
  lemma BinaryJoinsClasses(reg: Registry, op: BinaryOp, l: TypeId, r: TypeId)
    requires !IsIntDivOp(op) && ClassOfType(reg, l) !in {AnyC, NoClass} && ClassOfType(reg, r) !in {AnyC, NoClass}
    ensures ResultTypeBinary(reg, MathOp, op, l, r) == TypeOfClass(Join(ClassOfType(reg, l), ClassOfType(reg, r)))
  {
    CanonicalIdempotent(reg, l);
    CanonicalIdempotent(reg, r);
  }

  /** Beside an untyped operand a machine number is promoted alone; nothing else has a
      type there. */
  lemma AnyBinary(reg: Registry, op: BinaryOp, l: TypeId, r: TypeId)
    requires !IsIntDivOp(op) && ClassOfType(reg, l) != NoClass && ClassOfType(reg, r) != NoClass
    requires ClassOfType(reg, l) == AnyC || ClassOfType(reg, r) == AnyC
    ensures ResultTypeBinary(reg, MathOp, op, l, r) ==
            if Machine(ClassOfType(reg, l)) then PromoteSingleNumeric(reg, l)
            else if Machine(ClassOfType(reg, r)) then PromoteSingleNumeric(reg, r)
            else INVALID
  {
    CanonicalIdempotent(reg, l);
    CanonicalIdempotent(reg, r);
  }

  lemma PromotedClass(reg: Registry, id: TypeId)
    requires Machine(ClassOfType(reg, id))
    ensures ClassOfType(reg, PromoteSingleNumeric(reg, id)) == ClassOfType(reg, id)
  {
    CanonicalIdempotent(reg, id);
  }

  lemma PromotedAgain(reg: Registry, c: Class)
    requires Machine(c) && (c.FloatC? ==> c.w in {16, 32, 64})
    ensures PromoteSingleNumeric(reg, TypeOfClass(c)) == TypeOfClass(c)
  {
  }

  lemma BinaryClass(reg: Registry, op: BinaryOp, l: TypeId, r: TypeId)
    requires !IsIntDivOp(op) && ClassOfType(reg, l) != NoClass && ClassOfType(reg, r) != NoClass
    ensures ClassOfType(reg, ResultTypeBinary(reg, MathOp, op, l, r)) == Join(ClassOfType(reg, l), ClassOfType(reg, r))
  {
    var lc, rc := ClassOfType(reg, l), ClassOfType(reg, r);
    if lc == AnyC || rc == AnyC {
      AnyBinary(reg, op, l, r);
      if Machine(lc) { PromotedClass(reg, l); } else if Machine(rc) { PromotedClass(reg, r); }
    } else {
      BinaryJoinsClasses(reg, op, l, r);
      TypeOfClassHasClass(reg, Join(lc, rc));
    }
  }

  // ---- trees of classes ------------------------------------------------------------------------

  datatype ClassTree = ClassLeaf(c: Class) | ClassNode(left: ClassTree, right: ClassTree)

  function ClassesOf(reg: Registry, t: Tree): ClassTree {
    match t
    case Leaf(id) => ClassLeaf(ClassOfType(reg, id))
    case Node(_, l, r) => ClassNode(ClassesOf(reg, l), ClassesOf(reg, r))
  }

  function Joined(t: ClassTree): Class {
    match t
    case ClassLeaf(c) => c
    case ClassNode(l, r) => Join(Joined(l), Joined(r))
  }

  /** Number of leaves of a sort. */
  function Count(t: ClassTree, sort: Class -> bool): nat {
    match t
    case ClassLeaf(c) => if sort(c) then 1 else 0
    case ClassNode(l, r) => Count(l, sort) + Count(r, sort)
  }

  /** Every leaf is an untyped operand, a machine number or of arbitrary precision. */
  predicate Proper(t: ClassTree) {
    match t
    case ClassLeaf(c) => Untyped(c) || Exact(c) || c.IntC? || (c.FloatC? && c.w in {16, 32, 64})
    case ClassNode(l, r) => Proper(l) && Proper(r)
  }

  function ClassOfTraits(t: Traits): Class {
    if t.Mixed() then Bad
    else if t.rational then RationalC
    else if t.big then BigC
    else if t.float64 then FloatC(64)
    else if t.float32 then FloatC(32)
    else if t.float16 then FloatC(16)
    else IntC(t.wide)
  }

  function TraitsOfClass(c: Class): Traits {
    Traits(c.RationalC?, c.BigC?, c == FloatC(16), c == FloatC(32), c == FloatC(64), c == IntC(true))
  }

  function Either(s: Traits, t: Traits): Traits {
    Traits(s.rational || t.rational, s.big || t.big, s.float16 || t.float16, s.float32 || t.float32,
           s.float64 || t.float64, s.wide || t.wide)
  }

  function TreeTraits(t: ClassTree): Traits {
    match t
    case ClassLeaf(c) => TraitsOfClass(c)
    case ClassNode(l, r) => Either(TreeTraits(l), TreeTraits(r))
  }

  lemma JoinOfTraits(s: Traits, t: Traits)
    ensures ClassOfTraits(Either(s, t)) == Join(ClassOfTraits(s), ClassOfTraits(t))
  {
  }

  /** Untyped leaves either spoil the class or have no part in it. */
  lemma {:induction false} JoinedByTraits(t: ClassTree)
    requires Proper(t)
    ensures Joined(t) == Bad || (Joined(t) == AnyC && t.ClassLeaf?) || Joined(t) == ClassOfTraits(TreeTraits(t))
    ensures Count(t, Untyped) == 0 ==> Joined(t) == ClassOfTraits(TreeTraits(t))
    ensures Joined(t) == AnyC ==> TreeTraits(t) == TraitsOfClass(AnyC)
  {
    match t
    case ClassLeaf(c) =>
    case ClassNode(l, r) =>
      JoinedByTraits(l);
      JoinedByTraits(r);
      JoinOfTraits(TreeTraits(l), TreeTraits(r));
  }

  /** Untyped operands that meet no machine number leave the type open. */
  lemma {:induction false} NoMachine(t: ClassTree)
    requires Proper(t) && Count(t, Machine) == 0
    ensures !Machine(Joined(t))
    ensures Count(t, Untyped) > 0 ==> Joined(t) == Bad || (Joined(t) == AnyC && t.ClassLeaf?)
  {
    match t
    case ClassLeaf(c) =>
    case ClassNode(l, r) =>
      NoMachine(l);
      NoMachine(r);
  }

  /** Machine numbers with at most one untyped operand among them never break. */
  lemma {:induction false} OneAny(t: ClassTree)
    requires Proper(t) && Count(t, Exact) == 0 && Count(t, Untyped) <= 1
    ensures Machine(Joined(t)) || (Joined(t) == AnyC && t.ClassLeaf?)
  {
    match t
    case ClassLeaf(c) =>
    case ClassNode(l, r) =>
      OneAny(l);
      OneAny(r);
  }

  // ---- expression trees and their bags of leaves --------------------------------------------------

  ghost predicate Operand(reg: Registry, id: TypeId) {
    Arithmetic(reg, id) || IsAnyType(reg, id)
  }

  ghost predicate OperandTree(reg: Registry, t: Tree) {
    NoIntDiv(t) && forall id :: id in Leaves(t) ==> Operand(reg, id)
  }

  lemma OperandClass(reg: Registry, id: TypeId)
    requires Operand(reg, id)
    ensures Proper(ClassLeaf(ClassOfType(reg, id)))
    ensures Untyped(ClassOfType(reg, id)) <==> !Arithmetic(reg, id)
  {
  }

  lemma OperandSides(reg: Registry, t: Tree)
    requires OperandTree(reg, t) && t.Node?
    ensures OperandTree(reg, t.left) && OperandTree(reg, t.right)
  {
    assert forall id :: id in Leaves(t.left) || id in Leaves(t.right) ==> id in Leaves(t);
  }

  lemma JoinKeepsProper(a: Class, b: Class)
    requires a != NoClass && b != NoClass
    ensures Join(a, b) != NoClass && Join(a, b) != AnyC
  {
  }

  lemma {:induction false} TreeClass(reg: Registry, t: Tree)
    requires OperandTree(reg, t)
    ensures ClassOfType(reg, TypeOf(reg, t)) == Joined(ClassesOf(reg, t)) != NoClass
    ensures Proper(ClassesOf(reg, t))
  {
    match t
    case Leaf(id) =>
      assert id in Leaves(t);
      OperandClass(reg, id);
    case Node(op, l, r) =>
      OperandSides(reg, t);
      TreeClass(reg, l);
      TreeClass(reg, r);
      BinaryClass(reg, op, TypeOf(reg, l), TypeOf(reg, r));
      JoinKeepsProper(Joined(ClassesOf(reg, l)), Joined(ClassesOf(reg, r)));
  }

  lemma TraitsOfLeaf(reg: Registry, id: TypeId)
    requires Operand(reg, id)
    ensures TraitsOf(reg, multiset{id}) == TraitsOfClass(ClassOfType(reg, id))
  {
  }

  lemma TraitsOfUnion(reg: Registry, a: multiset<TypeId>, b: multiset<TypeId>)
    ensures TraitsOf(reg, a + b) == Either(TraitsOf(reg, a), TraitsOf(reg, b))
  {
  }

  lemma {:induction false} TraitsOfTree(reg: Registry, t: Tree)
    requires OperandTree(reg, t)
    ensures TraitsOf(reg, Leaves(t)) == TreeTraits(ClassesOf(reg, t))
  {
    match t
    case Leaf(id) =>
      assert id in Leaves(t);
      TraitsOfLeaf(reg, id);
    case Node(_, l, r) =>
      OperandSides(reg, t);
      TraitsOfTree(reg, l);
      TraitsOfTree(reg, r);
      TraitsOfUnion(reg, Leaves(l), Leaves(r));
  }

  ghost predicate Has(reg: Registry, ls: multiset<TypeId>, sort: Class -> bool) {
    exists id :: id in ls && sort(ClassOfType(reg, id))
  }

  ghost predicate AtMostOne(reg: Registry, ls: multiset<TypeId>, sort: Class -> bool) {
    forall x, y :: x in ls && y in ls && sort(ClassOfType(reg, x)) && sort(ClassOfType(reg, y)) ==> x == y && ls[x] == 1
  }

  lemma HasInUnion(reg: Registry, a: multiset<TypeId>, b: multiset<TypeId>, sort: Class -> bool)
    ensures Has(reg, a + b, sort) <==> Has(reg, a, sort) || Has(reg, b, sort)
    ensures AtMostOne(reg, a + b, sort) ==>
              AtMostOne(reg, a, sort) && AtMostOne(reg, b, sort) && (!Has(reg, a, sort) || !Has(reg, b, sort))
  {
    assert forall id :: (a + b)[id] == a[id] + b[id];
  }

  lemma {:induction false} CountLeaves(reg: Registry, t: Tree, sort: Class -> bool)
    ensures Count(ClassesOf(reg, t), sort) > 0 <==> Has(reg, Leaves(t), sort)
    ensures AtMostOne(reg, Leaves(t), sort) ==> Count(ClassesOf(reg, t), sort) <= 1
  {
    match t
    case Leaf(id) =>
      assert id in Leaves(t);
    case Node(_, l, r) =>
      CountLeaves(reg, l, sort);
      CountLeaves(reg, r, sort);
      HasInUnion(reg, Leaves(l), Leaves(r), sort);
  }

  lemma {:induction false} LeafSize(t: Tree)
    ensures |Leaves(t)| >= 1 && (t.Leaf? <==> |Leaves(t)| == 1)
  {
    if t.Node? {
      LeafSize(t.left);
      LeafSize(t.right);
    }
  }

  /** A node without untyped operands directly below has the type of its class. */
  lemma NodeType(reg: Registry, t: Tree)
    requires OperandTree(reg, t) && t.Node?
    ensures var l, r, c := Joined(ClassesOf(reg, t.left)), Joined(ClassesOf(reg, t.right)), Joined(ClassesOf(reg, t));
            && (l != AnyC && r != AnyC ==> TypeOf(reg, t) == TypeOfClass(c))
            && (l == AnyC && Machine(r) ==> TypeOf(reg, t) == PromoteSingleNumeric(reg, TypeOf(reg, t.right)))
            && (r == AnyC && Machine(l) ==> TypeOf(reg, t) == PromoteSingleNumeric(reg, TypeOf(reg, t.left)))
            && (c == Bad <==> TypeOf(reg, t) == INVALID)
  {
    OperandSides(reg, t);
    TreeClass(reg, t);
    TreeClass(reg, t.left);
    TreeClass(reg, t.right);
    var l, r := TypeOf(reg, t.left), TypeOf(reg, t.right);
    if ClassOfType(reg, l) == AnyC || ClassOfType(reg, r) == AnyC {
      AnyBinary(reg, t.op, l, r);
    } else {
      BinaryJoinsClasses(reg, t.op, l, r);
    }
  }

  // ---- main results -------------------------------------------------------------------------------

  lemma TypeOfClassOfTraits(t: Traits)
    ensures TypeOfClass(ClassOfTraits(t)) == TypeOfTraits(t)
    ensures TypeOfTraits(t) == INVALID <==> t.Mixed()
  {
  }

  /** The type of an expression with at least one operator is read off the bag of
      its leaf types; it is INVALID exactly when arbitrary precision and floats mix. */
  lemma TreeTypeIsBagType(reg: Registry, t: Tree)
    requires t.Node? && NoIntDiv(t) && forall id :: id in Leaves(t) ==> Arithmetic(reg, id)
    ensures TypeOf(reg, t) == BagType(reg, Leaves(t))
    ensures TypeOf(reg, t) == INVALID <==> TraitsOf(reg, Leaves(t)).Mixed()
  {
    forall id | id in Leaves(t) ensures !Untyped(ClassOfType(reg, id)) { OperandClass(reg, id); }
    CountLeaves(reg, t, Untyped);
    NoUntyped(reg, t);
    TraitsOfTree(reg, t);
    TypeOfClassOfTraits(TraitsOf(reg, Leaves(t)));
  }

  lemma NoUntyped(reg: Registry, t: Tree)
    requires OperandTree(reg, t) && t.Node? && Count(ClassesOf(reg, t), Untyped) == 0
    ensures Joined(ClassesOf(reg, t)) == ClassOfTraits(TreeTraits(ClassesOf(reg, t)))
    ensures TypeOf(reg, t) == TypeOfClass(Joined(ClassesOf(reg, t)))
  {
    OperandSides(reg, t);
    TreeClass(reg, t);
    JoinedByTraits(ClassesOf(reg, t));
    JoinedByTraits(ClassesOf(reg, t.left));
    JoinedByTraits(ClassesOf(reg, t.right));
    NodeType(reg, t);
  }

  /** Bracketing, order, repetition and choice of operators do not matter: trees over
      the same leaf types have the same type. */
  lemma ShapeIndependence(reg: Registry, s: Tree, t: Tree)
    requires s.Node? && t.Node? && NoIntDiv(s) && NoIntDiv(t)
    requires forall id :: id in Leaves(s) <==> id in Leaves(t)
    requires forall id :: id in Leaves(s) ==> Arithmetic(reg, id)
    ensures TypeOf(reg, s) == TypeOf(reg, t)
  {
    TreeTypeIsBagType(reg, s);
    TreeTypeIsBagType(reg, t);
    assert TraitsOf(reg, Leaves(s)) == TraitsOf(reg, Leaves(t));
  }

  predicate MachineNumber(b: Builtin) {
    IsArithmeticGroup(KindOf(b).group)
  }

  /** An untyped operand takes the type the other operand would get with a second one
      of its kind, exactly for signed integers and floats; unsigned operands stay
      unsigned next to Any but become signed next to each other. */
  lemma AnyOperand(reg: Registry, op: BinaryOp, b: Builtin)
    requires MachineNumber(b) && !IsIntDivOp(op)
    ensures ResultTypeBinary(reg, MathOp, op, GetType(AnyType), GetType(b)) ==
            ResultTypeBinary(reg, MathOp, op, GetType(b), GetType(AnyType))
    ensures (ResultTypeBinary(reg, MathOp, op, GetType(AnyType), GetType(b)) ==
             ResultTypeBinary(reg, MathOp, op, GetType(b), GetType(b))) <==> KindOf(b).group != Unsigned
  {
  }

  // ---- untyped operands: when the shape matters ---------------------------------------------------

  /** The type of an expression depends on its leaves only. */
  ghost predicate ShapeFree(reg: Registry, ls: multiset<TypeId>) {
    forall s, t | NoIntDiv(s) && NoIntDiv(t) && Leaves(s) == ls && Leaves(t) == ls :: TypeOf(reg, s) == TypeOf(reg, t)
  }

  /** Arbitrary precision meets floats; or it meets no untyped operand, or no machine
      integer; or there is none, and at most one untyped operand or no machine number. */
  ghost predicate FixesType(reg: Registry, ls: multiset<TypeId>) {
    || TraitsOf(reg, ls).Mixed()
    || (Has(reg, ls, Exact) && (!Has(reg, ls, Untyped) || !Has(reg, ls, Whole)))
    || (!Has(reg, ls, Exact) && (AtMostOne(reg, ls, Untyped) || !Has(reg, ls, Machine)))
  }

  /** With one untyped leaf, it is a side of the root or both sides have a class. */
  lemma OneAnyTop(t: ClassTree)
    requires Proper(t) && t.ClassNode? && Count(t, Exact) == 0 && Count(t, Untyped) == 1
    ensures Machine(Joined(t)) && Joined(t) == ClassOfTraits(TreeTraits(t))
    ensures Joined(t.left) == AnyC ==>
              t.left.ClassLeaf? && Machine(Joined(t.right)) && Count(t.right, Untyped) == 0 && Joined(t.right) == Joined(t)
    ensures Joined(t.right) == AnyC ==>
              t.right.ClassLeaf? && Machine(Joined(t.left)) && Count(t.left, Untyped) == 0 && Joined(t.left) == Joined(t)
    ensures Joined(t.left) != AnyC && Joined(t.right) != AnyC ==> !t.left.ClassLeaf? || !t.right.ClassLeaf?
  {
    OneAny(t);
    OneAny(t.left);
    OneAny(t.right);
    JoinedByTraits(t);
  }

  /** One untyped operand among machine numbers: the type is that of the numbers, or
      the promotion of the single other operand. */
  lemma OneAnyType(reg: Registry, t: Tree)
    requires OperandTree(reg, t) && t.Node?
    requires Count(ClassesOf(reg, t), Exact) == 0 && Count(ClassesOf(reg, t), Untyped) == 1
    ensures |Leaves(t)| > 2 ==> TypeOf(reg, t) == TypeOfClass(ClassOfTraits(TraitsOf(reg, Leaves(t))))
    ensures |Leaves(t)| == 2 ==>
              forall id :: id in Leaves(t) && Machine(ClassOfType(reg, id)) ==>
                TypeOf(reg, t) == PromoteSingleNumeric(reg, id)
  {
    OperandSides(reg, t);
    TreeClass(reg, t);
    OneAnyTop(ClassesOf(reg, t));
    TraitsOfTree(reg, t);
    NodeType(reg, t);
    LeafSize(t.left);
    LeafSize(t.right);
    if Joined(ClassesOf(reg, t.left)) == AnyC {
      OneAnySide(reg, t.left, t.right);
    } else if Joined(ClassesOf(reg, t.right)) == AnyC {
      OneAnySide(reg, t.right, t.left);
    }
  }

  lemma OneAnySide(reg: Registry, a: Tree, t: Tree)
    requires OperandTree(reg, a) && a.Leaf? && Joined(ClassesOf(reg, a)) == AnyC
    requires OperandTree(reg, t) && Count(ClassesOf(reg, t), Untyped) == 0 && Machine(Joined(ClassesOf(reg, t)))
    ensures t.Node? ==> PromoteSingleNumeric(reg, TypeOf(reg, t)) == TypeOfClass(Joined(ClassesOf(reg, t)))
    ensures t.Leaf? ==> Leaves(t) == multiset{t.typ} && Leaves(a) == multiset{a.typ} && !Machine(ClassOfType(reg, a.typ))
  {
    if t.Node? {
      NoUntyped(reg, t);
      TreeClass(reg, t);
      PromotedAgain(reg, Joined(ClassesOf(reg, t)));
    }
  }

  lemma HasByTraits(reg: Registry, t: Tree)
    requires OperandTree(reg, t)
    ensures var tr := TraitsOf(reg, Leaves(t));
            && (Has(reg, Leaves(t), Exact) <==> tr.rational || tr.big)
            && (Has(reg, Leaves(t), Machine) <==> Has(reg, Leaves(t), Whole) || tr.float16 || tr.float32 || tr.float64)
  {
    TraitsOfTree(reg, t);
    TreeClass(reg, t);
    TraitsByCount(ClassesOf(reg, t));
    CountLeaves(reg, t, Exact);
    CountLeaves(reg, t, Machine);
    CountLeaves(reg, t, Whole);
  }

  lemma {:induction false} TraitsByCount(t: ClassTree)
    requires Proper(t)
    ensures var tr := TreeTraits(t);
            && (Count(t, Exact) > 0 <==> tr.rational || tr.big)
            && (Count(t, Machine) > 0 <==> Count(t, Whole) > 0 || tr.float16 || tr.float32 || tr.float64)
  {
    match t
    case ClassLeaf(c) =>
    case ClassNode(l, r) =>
      TraitsByCount(l);
      TraitsByCount(r);
  }

  /** Type of every tree over a bag that fixes it. */
  ghost function FixedType(reg: Registry, ls: multiset<TypeId>): TypeId {
    if TraitsOf(reg, ls).Mixed() || (Has(reg, ls, Untyped) && !Has(reg, ls, Machine)) then INVALID
    else TypeOfClass(ClassOfTraits(TraitsOf(reg, ls)))
  }

  lemma NodeHasFixedType(reg: Registry, t: Tree)
    requires OperandTree(reg, t) && t.Node? && FixesType(reg, Leaves(t))
    requires |Leaves(t)| > 2 || !Has(reg, Leaves(t), Untyped) || !Has(reg, Leaves(t), Machine)
    ensures TypeOf(reg, t) == FixedType(reg, Leaves(t))
  {
    CountLeaves(reg, t, Untyped);
    CountLeaves(reg, t, Machine);
    CountLeaves(reg, t, Exact);
    HasByTraits(reg, t);
    TraitsOfTree(reg, t);
    TreeClass(reg, t);
    NodeType(reg, t);
    JoinedByTraits(ClassesOf(reg, t));
    if Count(ClassesOf(reg, t), Untyped) == 0 {
      NoUntyped(reg, t);
    } else if Count(ClassesOf(reg, t), Machine) == 0 {
      NoMachine(ClassesOf(reg, t));
    } else if !TraitsOf(reg, Leaves(t)).Mixed() {
      OneAnyType(reg, t);
    }
  }

  /** Bags that fix the type leave nothing to the shape. */
  lemma FixedIsShapeFree(reg: Registry, s: Tree, t: Tree)
    requires OperandTree(reg, s) && NoIntDiv(t) && Leaves(s) == Leaves(t) && FixesType(reg, Leaves(s))
    ensures TypeOf(reg, s) == TypeOf(reg, t)
  {
    LeafSize(s);
    LeafSize(t);
    if s.Leaf? {
      assert s.typ in Leaves(t);
    } else if |Leaves(s)| > 2 || !Has(reg, Leaves(s), Untyped) || !Has(reg, Leaves(s), Machine) {
      NodeHasFixedType(reg, s);
      NodeHasFixedType(reg, t);
    } else {
      PairType(reg, s);
      PairType(reg, t);
      var id :| id in Leaves(s) && Machine(ClassOfType(reg, id));
    }
  }

  lemma PairType(reg: Registry, t: Tree)
    requires OperandTree(reg, t) && |Leaves(t)| == 2 && Has(reg, Leaves(t), Untyped) && Has(reg, Leaves(t), Machine)
    ensures forall id :: id in Leaves(t) && Machine(ClassOfType(reg, id)) ==> TypeOf(reg, t) == PromoteSingleNumeric(reg, id)
  {
    LeafSize(t);
    LeafSize(t.left);
    LeafSize(t.right);
    CountLeaves(reg, t, Untyped);
    CountLeaves(reg, t, Machine);
    assert Count(ClassesOf(reg, t), Exact) == 0 && Count(ClassesOf(reg, t), Untyped) == 1;
    OneAnyType(reg, t);
  }

  /** Further operands joined one by one on the right. */
  function Chain(op: BinaryOp, start: Tree, ids: seq<TypeId>): (t: Tree)
    ensures NoIntDiv(start) && !IsIntDivOp(op) ==> NoIntDiv(t)
  {
    if ids == [] then start else Node(op, Chain(op, start, ids[..|ids| - 1]), Leaf(ids[|ids| - 1]))
  }

  lemma {:induction false} ChainLeaves(op: BinaryOp, start: Tree, ids: seq<TypeId>)
    ensures Leaves(Chain(op, start, ids)) == Leaves(start) + multiset(ids)
  {
    if ids != [] {
      ChainLeaves(op, start, ids[..|ids| - 1]);
      assert ids == ids[..|ids| - 1] + [ids[|ids| - 1]];
    }
  }

  lemma {:induction false} Listed(ls: multiset<TypeId>) returns (ids: seq<TypeId>)
    ensures multiset(ids) == ls
    decreases |ls|
  {
    if ls == multiset{} {
      ids := [];
    } else {
      var id :| id in ls;
      ids := Listed(ls - multiset{id});
      ids := ids + [id];
    }
  }

  lemma {:induction false} BrokenChain(reg: Registry, op: BinaryOp, start: Tree, ids: seq<TypeId>)
    requires TypeOf(reg, start) == INVALID
    ensures TypeOf(reg, Chain(op, start, ids)) == INVALID
  {
    if ids != [] {
      BrokenChain(reg, op, start, ids[..|ids| - 1]);
    }
  }

  /** Starting with an untyped operand beside one that is no machine number breaks
      the expression. */
  lemma BrokenTree(reg: Registry, ls: multiset<TypeId>, a: TypeId, b: TypeId) returns (t: Tree)
    requires multiset{a, b} <= ls && Untyped(ClassOfType(reg, a))
    requires Untyped(ClassOfType(reg, b)) || Exact(ClassOfType(reg, b))
    ensures NoIntDiv(t) && Leaves(t) == ls && TypeOf(reg, t) == INVALID
  {
    var ids := Listed(ls - multiset{a, b});
    var start := Node(Add, Leaf(a), Leaf(b));
    assert NoIntDiv(Leaf(a)) && NoIntDiv(Leaf(b)) && NoIntDiv(start);
    AnyBinary(reg, Add, a, b);
    BrokenChain(reg, Add, start, ids);
    ChainLeaves(Add, start, ids);
    t := Chain(Add, start, ids);
  }

  lemma {:induction false} Parted<A>(s: seq<A>, p: A -> bool) returns (yes: seq<A>, no: seq<A>)
    ensures multiset(yes) + multiset(no) == multiset(s)
    ensures (forall a :: a in yes ==> p(a)) && forall a :: a in no ==> !p(a)
  {
    if s == [] {
      yes, no := [], [];
    } else {
      var init, last := s[..|s| - 1], s[|s| - 1];
      yes, no := Parted(init, p);
      assert s == init + [last];
      if p(last) { yes := yes + [last]; } else { no := no + [last]; }
    }
  }

  /** Machine numbers, or only the integers among them. */
  predicate Number(c: Class, whole: bool) {
    if whole then Whole(c) else Machine(c)
  }

  lemma NumberJoined(a: Class, b: Class, whole: bool)
    requires Number(a, whole) && (Untyped(b) || Number(b, whole))
    ensures Number(Join(a, b), whole)
  {
  }

  /** Started at a machine number, machine numbers and untyped operands keep the
      expression one, an integer if there are no floats. */
  lemma {:induction false} MachineChain(reg: Registry, start: Tree, ids: seq<TypeId>, whole: bool)
    requires Number(ClassOfType(reg, TypeOf(reg, start)), whole)
    requires forall id :: id in ids ==> Untyped(ClassOfType(reg, id)) || Number(ClassOfType(reg, id), whole)
    ensures Number(ClassOfType(reg, TypeOf(reg, Chain(Add, start, ids))), whole)
  {
    if ids != [] {
      var init, last := ids[..|ids| - 1], ids[|ids| - 1];
      MachineChain(reg, start, init, whole);
      assert last in ids;
      BinaryClass(reg, Add, TypeOf(reg, Chain(Add, start, init)), last);
      NumberJoined(ClassOfType(reg, TypeOf(reg, Chain(Add, start, init))), ClassOfType(reg, last), whole);
    }
  }

  lemma {:induction false} ExactChain(reg: Registry, start: Tree, ids: seq<TypeId>)
    requires Whole(ClassOfType(reg, TypeOf(reg, start)))
    requires forall id :: id in ids ==> Exact(ClassOfType(reg, id))
    ensures var c := ClassOfType(reg, TypeOf(reg, Chain(Add, start, ids)));
            Whole(c) || Exact(c)
  {
    if ids != [] {
      var init, last := ids[..|ids| - 1], ids[|ids| - 1];
      ExactChain(reg, start, init);
      BinaryClass(reg, Add, TypeOf(reg, Chain(Add, start, init)), last);
      assert last in ids;
    }
  }

  lemma PartOfBag(ls: multiset<TypeId>, i: TypeId, yes: seq<TypeId>, no: seq<TypeId>)
    requires i in ls && multiset(yes) + multiset(no) == ls - multiset{i}
    ensures multiset{i} + multiset(no) + multiset(yes) == ls
    ensures forall id :: id in yes || id in no ==> id in ls
  {
    assert ls == multiset{i} + (ls - multiset{i});
    forall id | id in yes || id in no ensures id in ls {
      assert id in multiset(yes) || id in multiset(no);
      assert id in ls - multiset{i};
    }
  }

  lemma TypedChain(reg: Registry, i: TypeId, first: seq<TypeId>, last: seq<TypeId>)
    requires Machine(ClassOfType(reg, i))
    requires forall id :: id in first ==> Untyped(ClassOfType(reg, id)) || Machine(ClassOfType(reg, id))
    requires forall id :: id in last ==> Exact(ClassOfType(reg, id))
    requires last != [] ==> Whole(ClassOfType(reg, i)) && forall id :: id in first ==> !ClassOfType(reg, id).FloatC?
    ensures TypeOf(reg, Chain(Add, Chain(Add, Leaf(i), first), last)) != INVALID
  {
    MachineChain(reg, Leaf(i), first, last != []);
    assert ClassOfType(reg, INVALID) == Bad;
    if last != [] { ExactChain(reg, Chain(Add, Leaf(i), first), last); }
  }

  /** Starting at a machine number and leaving arbitrary precision to the end, the
      expression gets a type; beside arbitrary precision there may be no floats. */
  lemma TypedTree(reg: Registry, ls: multiset<TypeId>, i: TypeId) returns (t: Tree)
    requires forall id :: id in ls ==> Proper(ClassLeaf(ClassOfType(reg, id)))
    requires i in ls && Machine(ClassOfType(reg, i))
    requires Has(reg, ls, Exact) ==> forall id :: id in ls ==> !ClassOfType(reg, id).FloatC?
    ensures NoIntDiv(t) && Leaves(t) == ls && TypeOf(reg, t) != INVALID
  {
    var ids := Listed(ls - multiset{i});
    var last, first := Parted(ids, id => Exact(ClassOfType(reg, id)));
    PartOfBag(ls, i, last, first);
    t := Chain(Add, Chain(Add, Leaf(i), first), last);
    ChainLeaves(Add, Leaf(i), first);
    ChainLeaves(Add, Chain(Add, Leaf(i), first), last);
    assert last != [] ==> last[0] in ls;
    assert NoIntDiv(Leaf(i));
    TypedChain(reg, i, first, last);
  }

  /** What a bag that does not fix the type contains. */
  lemma Unfixed(reg: Registry, ls: multiset<TypeId>) returns (a: TypeId, b: TypeId, i: TypeId)
    requires !FixesType(reg, ls)
    ensures multiset{a, b} <= ls && Untyped(ClassOfType(reg, a))
    ensures Untyped(ClassOfType(reg, b)) || Exact(ClassOfType(reg, b))
    ensures i in ls && Machine(ClassOfType(reg, i))
  {
    if Has(reg, ls, Exact) {
      a :| a in ls && Untyped(ClassOfType(reg, a));
      b :| b in ls && Exact(ClassOfType(reg, b));
      i :| i in ls && Whole(ClassOfType(reg, i));
    } else {
      a, b :| a in ls && b in ls && Untyped(ClassOfType(reg, a)) && Untyped(ClassOfType(reg, b)) && !(a == b && ls[a] == 1);
      i :| i in ls && Machine(ClassOfType(reg, i));
    }
  }

  lemma NoFloatsBesideExact(reg: Registry, ls: multiset<TypeId>)
    requires (forall id :: id in ls ==> Operand(reg, id)) && !TraitsOf(reg, ls).Mixed() && Has(reg, ls, Exact)
    ensures forall id :: id in ls ==> !ClassOfType(reg, id).FloatC?
  {
    var e :| e in ls && Exact(ClassOfType(reg, e));
    TraitsOfMember(reg, ls, e);
    forall id | id in ls ensures !ClassOfType(reg, id).FloatC? {
      TraitsOfMember(reg, ls, id);
    }
  }

  lemma TraitsOfMember(reg: Registry, ls: multiset<TypeId>, id: TypeId)
    requires id in ls && Operand(reg, id)
    ensures TraitsOf(reg, ls) == Either(TraitsOfClass(ClassOfType(reg, id)), TraitsOf(reg, ls - multiset{id}))
    ensures ClassOfType(reg, id).FloatC? ==> ClassOfType(reg, id).w in {16, 32, 64}
  {
    TraitsOfLeaf(reg, id);
    assert ls == multiset{id} + (ls - multiset{id});
    TraitsOfUnion(reg, multiset{id}, ls - multiset{id});
  }

  lemma UnfixedShapes(reg: Registry, ls: multiset<TypeId>)
    requires !FixesType(reg, ls) && forall id :: id in ls ==> Proper(ClassLeaf(ClassOfType(reg, id)))
    requires Has(reg, ls, Exact) ==> forall id :: id in ls ==> !ClassOfType(reg, id).FloatC?
    ensures !ShapeFree(reg, ls)
  {
    var a, b, i := Unfixed(reg, ls);
    var s := BrokenTree(reg, ls, a, b);
    var t := TypedTree(reg, ls, i);
  }

  /** The exact condition for the shape of an expression not to matter, untyped
      operands included. */
  lemma ShapeFreeIff(reg: Registry, ls: multiset<TypeId>)
    requires forall id :: id in ls ==> Operand(reg, id)
    ensures ShapeFree(reg, ls) <==> FixesType(reg, ls)
  {
    if FixesType(reg, ls) {
      forall s, t | NoIntDiv(s) && NoIntDiv(t) && Leaves(s) == ls && Leaves(t) == ls
        ensures TypeOf(reg, s) == TypeOf(reg, t)
      {
        FixedIsShapeFree(reg, s, t);
      }
    } else {
      forall id | id in ls ensures Proper(ClassLeaf(ClassOfType(reg, id))) { OperandClass(reg, id); }
      if Has(reg, ls, Exact) { NoFloatsBesideExact(reg, ls); }
      UnfixedShapes(reg, ls);
    }
  }

  /** Bracketings of the same leaves that differ: two untyped operands next to a
      machine number, and a single one next to a machine number and a BigInteger. */
  lemma AnyIsNotAssociative(reg: Registry)
    ensures var a, i := Leaf(GetType(AnyType)), Leaf(GetType(Int8));
            TypeOf(reg, Node(Add, Node(Add, a, a), i)) == INVALID
            && TypeOf(reg, Node(Add, a, Node(Add, a, i))) == GetType(Int32)
    ensures var a, i, big := Leaf(GetType(AnyType)), Leaf(GetType(Int8)), Leaf(GetType(BigInteger));
            TypeOf(reg, Node(Add, Node(Add, a, i), big)) == GetType(BigInteger)
            && TypeOf(reg, Node(Add, a, Node(Add, i, big))) == INVALID
  {
    var a, i, big := GetType(AnyType), GetType(Int8), GetType(BigInteger);
    assert ResultTypeBinary(reg, MathOp, Add, a, a) == INVALID;
    assert ResultTypeBinary(reg, MathOp, Add, a, i) == GetType(Int32);
    assert ResultTypeBinary(reg, MathOp, Add, a, GetType(Int32)) == GetType(Int32);
    assert ResultTypeBinary(reg, MathOp, Add, GetType(Int32), big) == big;
    assert ResultTypeBinary(reg, MathOp, Add, i, big) == big;
    assert ResultTypeBinary(reg, MathOp, Add, a, big) == INVALID;
    assert TypeOf(reg, Node(Add, Leaf(a), Leaf(i))) == GetType(Int32);
    assert TypeOf(reg, Node(Add, Leaf(a), Leaf(a))) == INVALID;
    assert TypeOf(reg, Node(Add, Leaf(i), Leaf(big))) == big;
  }

  // ---- comparisons ---------------------------------------------------------------------------------

  /** Comparisons and logical operators give Bool for all operands. */
  lemma TestsAreBool(reg: Registry, op: BinaryOp, l: TypeId, r: TypeId)
    ensures ResultTypeBinary(reg, CompareOp, op, l, r) == GetType(Bool) == ResultTypeBinary(reg, LogicalOp, op, l, r)
  {
  }

  predicate IsMachineGroup(g: Group) {
    g in {Integers, Unsigned, Numbers}
  }

  /** Arithmetic is refused exactly for an operand without a type, for arbitrary precision
      divided by `//` or met by anything but its like and integers, and otherwise, unless
      the operator is `//`, for operands other than two machine numbers or one machine
      number and an untyped operand. */
  lemma RefusedExactly(reg: Registry, op: BinaryOp, l: TypeId, r: TypeId)
    ensures var f, g := Canonical(reg, l).kind.group, Canonical(reg, r).kind.group;
            var division := op == IntDiv || op == IntDivAssign;
            ResultTypeBinary(reg, MathOp, op, l, r) == INVALID <==>
            || l == INVALID || r == INVALID
            || (if f == ArbitraryPrecision || g == ArbitraryPrecision then
                  division || f !in {ArbitraryPrecision, Integers, Unsigned} || g !in {ArbitraryPrecision, Integers, Unsigned}
                else
                  !division && !(IsMachineGroup(f) && IsMachineGroup(g))
                  && !(f == AnyGroup && IsMachineGroup(g)) && !(g == AnyGroup && IsMachineGroup(f)))
  {
    CanonicalIdempotent(reg, l);
    CanonicalIdempotent(reg, r);
  }

  /** `//` gives Int64 for all other operands. */
  lemma IntDivIsInt64(reg: Registry, op: BinaryOp, l: TypeId, r: TypeId)
    requires op == IntDiv || op == IntDivAssign
    ensures ResultTypeBinary(reg, MathOp, op, l, r) in {GetType(Int64), INVALID}
  {
  }

  /** Arithmetic never does. */
  lemma ArithmeticIsNumeric(reg: Registry, op: BinaryOp, l: TypeId, r: TypeId)
    ensures var t := ResultTypeBinary(reg, MathOp, op, l, r);
            t == INVALID || t.kind.group in {Integers, Unsigned, Numbers, ArbitraryPrecision}
  {
    CanonicalIdempotent(reg, l);
    CanonicalIdempotent(reg, r);
  }
}

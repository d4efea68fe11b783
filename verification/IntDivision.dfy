/** Types of arithmetic expressions with integer division: the place of the operator
    can matter, and exactly when. */
module IntDivision {
  import opened Types
  import opened Promotion

  // ---- counting operators and leaves -------------------------------------------------------

  function Divisions(t: Tree): nat {
    match t
    case Leaf(_) => 0
    case Node(op, l, r) => Divisions(l) + Divisions(r) + (if IsIntDivOp(op) then 1 else 0)
  }

  function Others(t: Tree): nat {
    match t
    case Leaf(_) => 0
    case Node(op, l, r) => Others(l) + Others(r) + (if IsIntDivOp(op) then 0 else 1)
  }

  lemma {:induction false} OneLeafMore(t: Tree)
    ensures |Leaves(t)| == Divisions(t) + Others(t) + 1
  {
    match t
    case Leaf(_) =>
    case Node(_, l, r) =>
      OneLeafMore(l);
      OneLeafMore(r);
  }

  predicate Floating(c: Class) {
    c.FloatC?
  }

  ghost function AnyOf(ls: multiset<TypeId>): (id: TypeId)
    requires ls != multiset{}
    ensures id in ls
  {
    var id :| id in ls; id
  }

  /** Number of operands of arbitrary precision. */
  ghost function ExactCount(reg: Registry, ls: multiset<TypeId>): nat
    decreases |ls|
  {
    if ls == multiset{} then 0
    else
      var id := AnyOf(ls);
      ExactOne(reg, id) + ExactCount(reg, ls - multiset{id})
  }

  function ExactOne(reg: Registry, id: TypeId): nat {
    if Exact(ClassOfType(reg, id)) then 1 else 0
  }

  lemma {:induction false} ExactCountWithout(reg: Registry, ls: multiset<TypeId>, x: TypeId)
    requires x in ls
    ensures ExactCount(reg, ls) == ExactOne(reg, x) + ExactCount(reg, ls - multiset{x})
    decreases |ls|
  {
    var id := AnyOf(ls);
    if id != x {
      var both := ls - multiset{x} - multiset{id};
      assert both == ls - multiset{id} - multiset{x};
      ExactCountWithout(reg, ls - multiset{id}, x);
      ExactCountWithout(reg, ls - multiset{x}, id);
    }
  }

  lemma {:induction false} ExactCountUnion(reg: Registry, a: multiset<TypeId>, b: multiset<TypeId>)
    ensures ExactCount(reg, a + b) == ExactCount(reg, a) + ExactCount(reg, b)
    decreases |a|
  {
    if a == multiset{} {
      assert a + b == b;
    } else {
      var x := AnyOf(a);
      ExactCountWithout(reg, a + b, x);
      assert (a + b) - multiset{x} == (a - multiset{x}) + b;
      ExactCountUnion(reg, a - multiset{x}, b);
    }
  }

  lemma ExactCountSingle(reg: Registry, id: TypeId)
    ensures ExactCount(reg, multiset{id}) == ExactOne(reg, id)
  {
    ExactCountWithout(reg, multiset{id}, id);
    assert multiset{id} - multiset{id} == multiset{};
  }

  lemma {:induction false} ExactCountListed(reg: Registry, ids: seq<TypeId>, exact: bool)
    requires forall id :: id in ids ==> Exact(ClassOfType(reg, id)) == exact
    ensures ExactCount(reg, multiset(ids)) == if exact then |ids| else 0
  {
    if ids != [] {
      var init, last := ids[..|ids| - 1], ids[|ids| - 1];
      assert ids == init + [last] && last in ids;
      ExactCountListed(reg, init, exact);
      assert multiset(ids) == multiset(init) + multiset{last};
      ExactCountUnion(reg, multiset(init), multiset{last});
      ExactCountSingle(reg, last);
      assert ExactCount(reg, multiset{last}) == if exact then 1 else 0;
    }
  }

  /** Some operand is of arbitrary precision exactly when their number is positive. */
  lemma {:induction false} ExactCountPositive(reg: Registry, ls: multiset<TypeId>)
    ensures ExactCount(reg, ls) > 0 <==> Has(reg, ls, Exact)
    decreases |ls|
  {
    if ls != multiset{} {
      var id := AnyOf(ls);
      ExactCountPositive(reg, ls - multiset{id});
      forall x | x in ls ensures x == id || x in ls - multiset{id} {}
      forall x | x in ls - multiset{id} ensures x in ls {}
    }
  }

  // ---- one operator ------------------------------------------------------------------------

  predicate Divisible(c: Class) {
    Untyped(c) || Machine(c)
  }

  /** Integer division gives Int64 for everything but arbitrary precision and operands
      without a type. */
  lemma DivisionType(reg: Registry, op: BinaryOp, l: TypeId, r: TypeId)
    requires IsIntDivOp(op) && ClassOfType(reg, l) != NoClass && ClassOfType(reg, r) != NoClass
    ensures ResultTypeBinary(reg, MathOp, op, l, r) ==
            if Divisible(ClassOfType(reg, l)) && Divisible(ClassOfType(reg, r)) then GetType(Int64) else INVALID
  {
  }

  lemma Int64Class(reg: Registry)
    ensures ClassOfType(reg, GetType(Int64)) == IntC(true) && ClassOfType(reg, INVALID) == Bad
    ensures PromoteSingleNumeric(reg, GetType(Int64)) == GetType(Int64)
  {
  }

  ghost predicate OperandLeaves(reg: Registry, t: Tree) {
    forall id :: id in Leaves(t) ==> Operand(reg, id)
  }

  lemma LeavesOfSides(reg: Registry, t: Tree)
    requires OperandLeaves(reg, t) && t.Node?
    ensures OperandLeaves(reg, t.left) && OperandLeaves(reg, t.right)
  {
    assert forall id :: id in Leaves(t.left) || id in Leaves(t.right) ==> id in Leaves(t);
  }

  function ClassAt(reg: Registry, t: Tree): Class {
    ClassOfType(reg, TypeOf(reg, t))
  }

  /** Class of a node by those of its sides. */
  function NodeClass(div: bool, l: Class, r: Class): Class {
    if !div then Join(l, r) else if Divisible(l) && Divisible(r) then IntC(true) else Bad
  }

  lemma {:induction false} ClassesKnown(reg: Registry, t: Tree)
    requires OperandLeaves(reg, t)
    ensures ClassAt(reg, t) != NoClass && (t.Node? ==> ClassAt(reg, t) != AnyC)
    ensures t.Node? ==> ClassAt(reg, t) == NodeClass(IsIntDivOp(t.op), ClassAt(reg, t.left), ClassAt(reg, t.right))
    ensures t.Leaf? ==> Operand(reg, t.typ) && Leaves(t) == multiset{t.typ} && Proper(ClassLeaf(ClassAt(reg, t)))
  {
    match t
    case Leaf(id) =>
      assert id in Leaves(t);
      OperandClass(reg, id);
    case Node(op, l, r) =>
      LeavesOfSides(reg, t);
      ClassesKnown(reg, l);
      ClassesKnown(reg, r);
      if IsIntDivOp(op) {
        DivisionType(reg, op, TypeOf(reg, l), TypeOf(reg, r));
        Int64Class(reg);
      } else {
        BinaryClass(reg, op, TypeOf(reg, l), TypeOf(reg, r));
        JoinKeepsProper(ClassAt(reg, l), ClassAt(reg, r));
      }
  }

  // ---- bags that fix the type ----------------------------------------------------------------

  /** Type of every expression with divisions whose shape does not matter. */
  ghost function DividedType(reg: Registry, ls: multiset<TypeId>): TypeId {
    if ExactCount(reg, ls) > 0 then INVALID else GetType(Int64)
  }

  lemma DividesWhenPlain(c: Class)
    requires c == Bad || Divisible(c) || Exact(c)
    ensures Divisible(c) <==> c != Bad && !Exact(c)
  {
  }

  lemma DivisionNode(reg: Registry, op: BinaryOp, l: Tree, r: Tree)
    requires OperandLeaves(reg, l) && OperandLeaves(reg, r) && IsIntDivOp(op)
    ensures var both := Divisible(ClassAt(reg, l)) && Divisible(ClassAt(reg, r));
            && TypeOf(reg, Node(op, l, r)) == (if both then GetType(Int64) else INVALID)
            && (Divisible(ClassAt(reg, Node(op, l, r))) <==> both)
  {
    ClassesKnown(reg, l);
    ClassesKnown(reg, r);
    DivisionType(reg, op, TypeOf(reg, l), TypeOf(reg, r));
    Int64Class(reg);
  }

  /** With integer divisions only, arbitrary precision anywhere is refused, and
      everything else is Int64. */
  lemma {:induction false} OnlyDivisions(reg: Registry, t: Tree)
    requires OperandLeaves(reg, t) && Others(t) == 0
    ensures Divisible(ClassAt(reg, t)) <==> ExactCount(reg, Leaves(t)) == 0
    ensures t.Node? ==> TypeOf(reg, t) == DividedType(reg, Leaves(t))
  {
    match t
    case Leaf(id) =>
      ClassesKnown(reg, t);
      ExactCountSingle(reg, id);
      DividesWhenPlain(ClassOfType(reg, id));
    case Node(op, l, r) =>
      LeavesOfSides(reg, t);
      OnlyDivisions(reg, l);
      OnlyDivisions(reg, r);
      ExactCountUnion(reg, Leaves(l), Leaves(r));
      DivisionNode(reg, op, l, r);
  }

  lemma SidesNotBad(div: bool, l: Class, r: Class)
    requires NodeClass(div, l, r) != Bad
    ensures l != Bad && r != Bad
    ensures l != NoClass && r != NoClass ==>
              (Exact(NodeClass(div, l, r)) <==> Exact(l) || Exact(r)) && (div ==> !Exact(l) && !Exact(r))
  {
  }

  /** In an expression with a type, operands of arbitrary precision sit above all integer
      divisions, one below each other operator at most. */
  lemma {:induction false} ExactAbove(reg: Registry, t: Tree)
    requires OperandLeaves(reg, t) && ClassAt(reg, t) != Bad
    ensures ExactCount(reg, Leaves(t)) <= Others(t) + (if Divisions(t) == 0 then 1 else 0)
    ensures ExactCount(reg, Leaves(t)) > 0 <==> Exact(ClassAt(reg, t))
  {
    ClassesKnown(reg, t);
    match t
    case Leaf(id) => ExactCountSingle(reg, id);
    case Node(op, l, r) =>
      LeavesOfSides(reg, t);
      ClassesKnown(reg, l);
      ClassesKnown(reg, r);
      SidesNotBad(IsIntDivOp(op), ClassAt(reg, l), ClassAt(reg, r));
      ExactAbove(reg, l);
      ExactAbove(reg, r);
      ExactCountUnion(reg, Leaves(l), Leaves(r));
  }

  /** Machine integers, and at most one untyped operand. */
  ghost predicate WholeLeaves(reg: Registry, ls: multiset<TypeId>) {
    !Has(reg, ls, Exact) && !Has(reg, ls, Floating) && AtMostOne(reg, ls, Untyped)
  }

  ghost predicate WholeOrAny(reg: Registry, t: Tree) {
    Whole(ClassAt(reg, t)) || (ClassAt(reg, t) == AnyC && t.Leaf? && Has(reg, Leaves(t), Untyped))
  }

  lemma WholeSides(reg: Registry, t: Tree)
    requires t.Node? && WholeLeaves(reg, Leaves(t))
    ensures WholeLeaves(reg, Leaves(t.left)) && WholeLeaves(reg, Leaves(t.right))
    ensures !Has(reg, Leaves(t.left), Untyped) || !Has(reg, Leaves(t.right), Untyped)
  {
    HasInUnion(reg, Leaves(t.left), Leaves(t.right), Untyped);
    HasInUnion(reg, Leaves(t.left), Leaves(t.right), Exact);
    HasInUnion(reg, Leaves(t.left), Leaves(t.right), Floating);
  }

  lemma WholeLeaf(reg: Registry, id: TypeId)
    requires Operand(reg, id) && WholeLeaves(reg, multiset{id})
    ensures WholeOrAny(reg, Leaf(id))
  {
    OperandClass(reg, id);
    assert id in multiset{id};
  }

  lemma WholeJoined(div: bool, l: Class, r: Class)
    requires (Whole(l) || l == AnyC) && (Whole(r) || r == AnyC) && (l != AnyC || r != AnyC)
    ensures Whole(NodeClass(div, l, r))
  {
  }

  lemma {:induction false} WholeClass(reg: Registry, t: Tree)
    requires OperandLeaves(reg, t) && WholeLeaves(reg, Leaves(t))
    ensures WholeOrAny(reg, t)
    decreases t, 1
  {
    match t
    case Leaf(id) =>
      ClassesKnown(reg, t);
      WholeLeaf(reg, id);
    case Node(op, l, r) => WholeClassNode(reg, t);
  }

  lemma {:induction false} WholeClassNode(reg: Registry, t: Tree)
    requires t.Node? && OperandLeaves(reg, t) && WholeLeaves(reg, Leaves(t))
    ensures Whole(ClassAt(reg, t))
    decreases t, 0
  {
    LeavesOfSides(reg, t);
    WholeSides(reg, t);
    WholeClass(reg, t.left);
    WholeClass(reg, t.right);
    ClassesKnown(reg, t);
    WholeJoined(IsIntDivOp(t.op), ClassAt(reg, t.left), ClassAt(reg, t.right));
  }

  /** Around an integer division they give Int64. */
  lemma {:induction false} WholeType(reg: Registry, t: Tree)
    requires OperandLeaves(reg, t) && WholeLeaves(reg, Leaves(t)) && Divisions(t) > 0
    ensures TypeOf(reg, t) == GetType(Int64)
  {
    LeavesOfSides(reg, t);
    WholeSides(reg, t);
    WholeClass(reg, t.left);
    WholeClass(reg, t.right);
    if Divisions(t.left) > 0 { WholeType(reg, t.left); }
    if Divisions(t.right) > 0 { WholeType(reg, t.right); }
    WholeNode(reg, t.op, t.left, t.right);
  }

  lemma WholeNode(reg: Registry, op: BinaryOp, l: Tree, r: Tree)
    requires WholeOrAny(reg, l) && WholeOrAny(reg, r) && (ClassAt(reg, l) != AnyC || ClassAt(reg, r) != AnyC)
    requires Divisions(l) > 0 ==> TypeOf(reg, l) == GetType(Int64)
    requires Divisions(r) > 0 ==> TypeOf(reg, r) == GetType(Int64)
    requires Divisions(Node(op, l, r)) > 0
    ensures TypeOf(reg, Node(op, l, r)) == GetType(Int64)
  {
    var lt, rt := TypeOf(reg, l), TypeOf(reg, r);
    Int64Class(reg);
    if IsIntDivOp(op) {
      DivisionType(reg, op, lt, rt);
    } else if ClassAt(reg, l) == AnyC || ClassAt(reg, r) == AnyC {
      AnyBinary(reg, op, lt, rt);
    } else {
      BinaryJoinsClasses(reg, op, lt, rt);
    }
  }

  /** The type of an expression depends on its leaves and the number of its integer
      divisions only. */
  ghost predicate ShapeFreeWith(reg: Registry, ls: multiset<TypeId>, d: nat) {
    forall s, t | Leaves(s) == ls == Leaves(t) && Divisions(s) == d == Divisions(t) :: TypeOf(reg, s) == TypeOf(reg, t)
  }

  /** There is no other operator; or there are too many operands of arbitrary precision
      to stay clear of the divisions; or none of them, no floats, and at most one
      untyped operand. */
  ghost predicate DivisionsFix(reg: Registry, ls: multiset<TypeId>, d: nat) {
    var others := |ls| - 1 - d;
    || others == 0
    || ExactCount(reg, ls) > others
    || WholeLeaves(reg, ls)
  }

  lemma FixedByDivisions(reg: Registry, t: Tree)
    requires OperandLeaves(reg, t) && Divisions(t) > 0 && DivisionsFix(reg, Leaves(t), Divisions(t))
    ensures TypeOf(reg, t) == DividedType(reg, Leaves(t))
  {
    OneLeafMore(t);
    ExactCountPositive(reg, Leaves(t));
    Int64Class(reg);
    if Others(t) == 0 {
      OnlyDivisions(reg, t);
    } else if ExactCount(reg, Leaves(t)) > Others(t) {
      ClassesKnown(reg, t);
      BadIsInvalid(reg, t);
      if ClassAt(reg, t) != Bad { ExactAbove(reg, t); }
    } else {
      WholeType(reg, t);
    }
  }

  lemma BadIsInvalid(reg: Registry, t: Tree)
    ensures ClassAt(reg, t) == Bad <==> TypeOf(reg, t) == INVALID
  {
  }

  // ---- bags that do not ------------------------------------------------------------------------

  lemma {:induction false} ChainOperators(op: BinaryOp, start: Tree, ids: seq<TypeId>)
    ensures var t := Chain(op, start, ids);
            && Divisions(t) == Divisions(start) + (if IsIntDivOp(op) then |ids| else 0)
            && Others(t) == Others(start) + (if IsIntDivOp(op) then 0 else |ids|)
  {
    if ids != [] {
      ChainOperators(op, start, ids[..|ids| - 1]);
    }
  }

  lemma {:induction false} DivisionChain(reg: Registry, start: Tree, ids: seq<TypeId>)
    requires Divisible(ClassAt(reg, start)) && forall id :: id in ids ==> Divisible(ClassOfType(reg, id))
    ensures Divisible(ClassAt(reg, Chain(IntDiv, start, ids)))
    ensures ids != [] ==> TypeOf(reg, Chain(IntDiv, start, ids)) == GetType(Int64)
  {
    if ids != [] {
      var init, last := ids[..|ids| - 1], ids[|ids| - 1];
      DivisionChain(reg, start, init);
      assert last in ids;
      DivisionType(reg, IntDiv, TypeOf(reg, Chain(IntDiv, start, init)), last);
      assert TypeOf(reg, Chain(IntDiv, start, ids)) == GetType(Int64);
      Int64Class(reg);
    }
  }

  /** First one operator, then another, each over a part of the operands. */
  function TwoChains(first: BinaryOp, second: BinaryOp, start: Tree, ids: seq<TypeId>, n: nat): Tree
    requires n <= |ids|
  {
    Chain(second, Chain(first, start, ids[..n]), ids[n..])
  }

  lemma TwoChainsCount(first: BinaryOp, second: BinaryOp, start: Tree, ids: seq<TypeId>, n: nat)
    requires n <= |ids| && IsIntDivOp(first) != IsIntDivOp(second)
    ensures var t, d := TwoChains(first, second, start, ids, n), if IsIntDivOp(first) then n else |ids| - n;
            Leaves(t) == Leaves(start) + multiset(ids)
            && Divisions(t) == Divisions(start) + d && Others(t) == Others(start) + |ids| - d
  {
    ChainLeaves(first, start, ids[..n]);
    ChainLeaves(second, Chain(first, start, ids[..n]), ids[n..]);
    ChainOperators(first, start, ids[..n]);
    ChainOperators(second, Chain(first, start, ids[..n]), ids[n..]);
    assert ids == ids[..n] + ids[n..];
  }

  lemma TakenOut(ids: seq<TypeId>, j: nat) returns (rest: seq<TypeId>)
    requires j < |ids|
    ensures |rest| == |ids| - 1 && multiset{ids[j]} + multiset(rest) == multiset(ids)
    ensures forall id :: id in rest ==> id in ids
  {
    rest := ids[..j] + ids[j + 1..];
    assert ids == ids[..j] + [ids[j]] + ids[j + 1..];
  }

  /** A machine number first, the divisions last. */
  lemma DivisionsLast(reg: Registry, x: TypeId, rest: seq<TypeId>, d: nat) returns (t: Tree)
    requires 1 <= d <= |rest| && Machine(ClassOfType(reg, x))
    requires forall id :: id in rest ==> Divisible(ClassOfType(reg, id))
    ensures Leaves(t) == multiset{x} + multiset(rest) && Divisions(t) == d && TypeOf(reg, t) == GetType(Int64)
  {
    var n := |rest| - d;
    t := TwoChains(Add, IntDiv, Leaf(x), rest, n);
    TwoChainsCount(Add, IntDiv, Leaf(x), rest, n);
    assert forall id :: id in rest[..n] || id in rest[n..] ==> id in rest;
    MachineChain(reg, Leaf(x), rest[..n], false);
    DivisionChain(reg, Chain(Add, Leaf(x), rest[..n]), rest[n..]);
  }

  /** Untyped operands only: the divisions first. */
  lemma DivisionsFirst(reg: Registry, x: TypeId, rest: seq<TypeId>, d: nat) returns (t: Tree)
    requires 1 <= d <= |rest| && Untyped(ClassOfType(reg, x))
    requires forall id :: id in rest ==> Untyped(ClassOfType(reg, id))
    ensures Leaves(t) == multiset{x} + multiset(rest) && Divisions(t) == d && Whole(ClassAt(reg, t))
  {
    t := TwoChains(IntDiv, Add, Leaf(x), rest, d);
    TwoChainsCount(IntDiv, Add, Leaf(x), rest, d);
    assert forall id :: id in rest[..d] || id in rest[d..] ==> id in rest;
    DivisionChain(reg, Leaf(x), rest[..d]);
    Int64Class(reg);
    MachineChain(reg, Chain(IntDiv, Leaf(x), rest[..d]), rest[d..], true);
  }

  /** Without arbitrary precision the divisions can be placed so that an integer results. */
  lemma WholeTree(reg: Registry, ids: seq<TypeId>, d: nat) returns (t: Tree)
    requires 1 <= d < |ids| && forall id :: id in ids ==> Divisible(ClassOfType(reg, id))
    ensures Leaves(t) == multiset(ids) && Divisions(t) == d && Whole(ClassAt(reg, t))
  {
    if x :| x in ids && Machine(ClassOfType(reg, x)) {
      var j: nat :| j < |ids| && ids[j] == x;
      var rest := TakenOut(ids, j);
      t := DivisionsLast(reg, x, rest, d);
      Int64Class(reg);
    } else {
      var rest := TakenOut(ids, 0);
      t := DivisionsFirst(reg, ids[0], rest, d);
    }
  }

  /** The operands of arbitrary precision and the others. */
  lemma Split(reg: Registry, ls: multiset<TypeId>) returns (exact: seq<TypeId>, rest: seq<TypeId>)
    requires forall id :: id in ls ==> Proper(ClassLeaf(ClassOfType(reg, id)))
    ensures multiset(exact) + multiset(rest) == ls
    ensures |exact| == ExactCount(reg, ls) && |rest| == |ls| - |exact|
    ensures forall id :: id in exact ==> Exact(ClassOfType(reg, id))
    ensures forall id :: id in rest ==> Divisible(ClassOfType(reg, id))
  {
    var ids := Listed(ls);
    exact, rest := Parted(ids, id => Exact(ClassOfType(reg, id)));
    ExactCountUnion(reg, multiset(exact), multiset(rest));
    ExactCountListed(reg, exact, true);
    ExactCountListed(reg, rest, false);
    assert |multiset(exact) + multiset(rest)| == |multiset(exact)| + |multiset(rest)|;
    forall id | id in rest ensures Divisible(ClassOfType(reg, id)) {
      assert id in multiset(rest);
      assert id in ls;
    }
  }

  /** Operands of arbitrary precision go on top of that, if there are operators for
      them. */
  lemma TypedDivision(reg: Registry, ls: multiset<TypeId>, d: nat) returns (t: Tree)
    requires 1 <= d && d + ExactCount(reg, ls) < |ls|
    requires forall id :: id in ls ==> Proper(ClassLeaf(ClassOfType(reg, id)))
    ensures Leaves(t) == ls && Divisions(t) == d && (Whole(ClassAt(reg, t)) || Exact(ClassAt(reg, t)))
    ensures ExactCount(reg, ls) == 0 ==> Whole(ClassAt(reg, t))
  {
    var exact, rest := Split(reg, ls);
    var whole := WholeTree(reg, rest, d);
    t := Chain(Add, whole, exact);
    ChainLeaves(Add, whole, exact);
    ChainOperators(Add, whole, exact);
    ExactChain(reg, whole, exact);
  }

  lemma BrokenChains(reg: Registry, start: Tree, ids: seq<TypeId>, n: nat)
    requires TypeOf(reg, start) == INVALID && n <= |ids|
    ensures TypeOf(reg, TwoChains(IntDiv, Add, start, ids, n)) == INVALID
  {
    BrokenChain(reg, IntDiv, start, ids[..n]);
    BrokenChain(reg, Add, Chain(IntDiv, start, ids[..n]), ids[n..]);
  }

  lemma StartNode(reg: Registry, op: BinaryOp, a: TypeId, b: TypeId)
    ensures var t := Node(op, Leaf(a), Leaf(b));
            && TypeOf(reg, t) == ResultTypeBinary(reg, MathOp, op, a, b) && Leaves(t) == multiset{a, b}
            && Divisions(t) == if IsIntDivOp(op) then 1 else 0
  {
  }

  lemma ListedWithout(ls: multiset<TypeId>, a: TypeId, b: TypeId) returns (ids: seq<TypeId>)
    requires multiset{a, b} <= ls
    ensures |ids| == |ls| - 2 && multiset{a, b} + multiset(ids) == ls
  {
    ids := Listed(ls - multiset{a, b});
    assert |multiset(ids)| == |ids|;
  }

  /** Two operands that break an operator break the whole expression. */
  lemma BrokenDivision(reg: Registry, ls: multiset<TypeId>, op: BinaryOp, a: TypeId, b: TypeId, d: nat)
    returns (t: Tree)
    requires multiset{a, b} <= ls && ResultTypeBinary(reg, MathOp, op, a, b) == INVALID
    requires (if IsIntDivOp(op) then 1 else 0) <= d && d + (if IsIntDivOp(op) then 1 else 2) <= |ls|
    ensures Leaves(t) == ls && Divisions(t) == d && TypeOf(reg, t) == INVALID
  {
    var ids := ListedWithout(ls, a, b);
    var n := if IsIntDivOp(op) then d - 1 else d;
    StartNode(reg, op, a, b);
    t := TwoChains(IntDiv, Add, Node(op, Leaf(a), Leaf(b)), ids, n);
    TwoChainsCount(IntDiv, Add, Node(op, Leaf(a), Leaf(b)), ids, n);
    BrokenChains(reg, Node(op, Leaf(a), Leaf(b)), ids, n);
  }

  lemma FloatOnTop(reg: Registry, init: Tree, f: TypeId)
    requires Whole(ClassAt(reg, init)) && Floating(ClassOfType(reg, f))
    ensures Floating(ClassAt(reg, Node(Add, init, Leaf(f))))
  {
    BinaryClass(reg, Add, TypeOf(reg, init), f);
    assert TypeOf(reg, Node(Add, init, Leaf(f))) == ResultTypeBinary(reg, MathOp, Add, TypeOf(reg, init), f);
  }

  lemma ProperWithout(reg: Registry, ls: multiset<TypeId>, f: TypeId)
    requires f in ls && forall id :: id in ls ==> Proper(ClassLeaf(ClassOfType(reg, id)))
    ensures forall id :: id in ls - multiset{f} ==> Proper(ClassLeaf(ClassOfType(reg, id)))
    ensures ls == (ls - multiset{f}) + multiset{f} && |ls - multiset{f}| == |ls| - 1
  {
    forall id | id in ls - multiset{f} ensures id in ls {}
  }

  /** A float added last decides the type. */
  lemma FloatLast(reg: Registry, ls: multiset<TypeId>, f: TypeId, d: nat) returns (t: Tree)
    requires f in ls && Floating(ClassOfType(reg, f)) && ExactCount(reg, ls) == 0
    requires 1 <= d < |ls| - 1 && forall id :: id in ls ==> Proper(ClassLeaf(ClassOfType(reg, id)))
    ensures Leaves(t) == ls && Divisions(t) == d && Floating(ClassAt(reg, t))
  {
    ExactCountWithout(reg, ls, f);
    ProperWithout(reg, ls, f);
    var init := TypedDivision(reg, ls - multiset{f}, d);
    FloatOnTop(reg, init, f);
    t := Node(Add, init, Leaf(f));
  }

  lemma ExactDivided(reg: Registry, a: TypeId, b: TypeId)
    requires Exact(ClassOfType(reg, a)) && ClassOfType(reg, b) != NoClass
    ensures ResultTypeBinary(reg, MathOp, IntDiv, a, b) == INVALID
  {
    DivisionType(reg, IntDiv, a, b);
  }

  lemma TwoUntyped(reg: Registry, a: TypeId, b: TypeId)
    requires Untyped(ClassOfType(reg, a)) && Untyped(ClassOfType(reg, b))
    ensures ResultTypeBinary(reg, MathOp, Add, a, b) == INVALID
  {
    AnyBinary(reg, Add, a, b);
  }

  lemma AnotherLeaf(ls: multiset<TypeId>, a: TypeId) returns (b: TypeId)
    requires a in ls && |ls| >= 2
    ensures multiset{a, b} <= ls
  {
    assert |ls - multiset{a}| == |ls| - 1;
    b := AnyOf(ls - multiset{a});
  }

  lemma ExactBreaks(reg: Registry, ls: multiset<TypeId>, d: nat) returns (t: Tree)
    requires 1 <= d < |ls| && Has(reg, ls, Exact)
    requires forall id :: id in ls ==> Proper(ClassLeaf(ClassOfType(reg, id)))
    ensures Leaves(t) == ls && Divisions(t) == d && TypeOf(reg, t) == INVALID
  {
    var a :| a in ls && Exact(ClassOfType(reg, a));
    var b := AnotherLeaf(ls, a);
    assert b in ls;
    ExactDivided(reg, a, b);
    t := BrokenDivision(reg, ls, IntDiv, a, b, d);
  }

  lemma UntypedBreak(reg: Registry, ls: multiset<TypeId>, d: nat) returns (t: Tree)
    requires d + 2 <= |ls| && !AtMostOne(reg, ls, Untyped)
    ensures Leaves(t) == ls && Divisions(t) == d && TypeOf(reg, t) == INVALID
  {
    var a, b :| a in ls && b in ls && Untyped(ClassOfType(reg, a)) && Untyped(ClassOfType(reg, b)) && !(a == b && ls[a] == 1);
    TwoUntyped(reg, a, b);
    t := BrokenDivision(reg, ls, Add, a, b, d);
  }

  lemma OtherClass(reg: Registry, s: Tree, t: Tree)
    requires ClassAt(reg, s) != ClassAt(reg, t)
    ensures TypeOf(reg, s) != TypeOf(reg, t)
  {
  }

  /** In every other bag some expression has no type, or another one. */
  lemma UnfixedByDivisions(reg: Registry, ls: multiset<TypeId>, d: nat) returns (s: Tree, t: Tree)
    requires 1 <= d < |ls| && !DivisionsFix(reg, ls, d)
    requires forall id :: id in ls ==> Proper(ClassLeaf(ClassOfType(reg, id)))
    ensures Leaves(s) == ls == Leaves(t) && Divisions(s) == d == Divisions(t) && TypeOf(reg, s) != TypeOf(reg, t)
  {
    t := TypedDivision(reg, ls, d);
    ExactCountPositive(reg, ls);
    Int64Class(reg);
    if Has(reg, ls, Exact) {
      s := ExactBreaks(reg, ls, d);
    } else if Has(reg, ls, Floating) {
      var f :| f in ls && Floating(ClassOfType(reg, f));
      s := FloatLast(reg, ls, f, d);
    } else {
      s := UntypedBreak(reg, ls, d);
    }
    OtherClass(reg, s, t);
  }

  // ---- main results -----------------------------------------------------------------------------

  /** The exact condition for the shape of an expression with integer divisions not to
      matter: over all expressions with these leaves and `d` divisions. */
  lemma DividedShapeIff(reg: Registry, ls: multiset<TypeId>, d: nat)
    requires 1 <= d < |ls| && forall id :: id in ls ==> Operand(reg, id)
    ensures ShapeFreeWith(reg, ls, d) <==> DivisionsFix(reg, ls, d)
  {
    if DivisionsFix(reg, ls, d) {
      forall s, t | Leaves(s) == ls == Leaves(t) && Divisions(s) == d == Divisions(t)
        ensures TypeOf(reg, s) == TypeOf(reg, t)
      {
        FixedByDivisions(reg, s);
        FixedByDivisions(reg, t);
      }
    } else {
      forall id | id in ls ensures Proper(ClassLeaf(ClassOfType(reg, id))) { OperandClass(reg, id); }
      var s, t := UnfixedByDivisions(reg, ls, d);
    }
  }

  /** The place of the division matters next to arbitrary precision: it is refused
      there, further inside it gives Int64. */
  lemma IntDivShape(reg: Registry)
    ensures var big, i := Leaf(GetType(BigInteger)), Leaf(GetType(Int8));
            var inner, outer := Node(Mul, big, Node(IntDiv, i, i)), Node(IntDiv, Node(Mul, big, i), i);
            Leaves(inner) == Leaves(outer) && TypeOf(reg, inner) == GetType(BigInteger) && TypeOf(reg, outer) == INVALID
  {
    var big, i := GetType(BigInteger), GetType(Int8);
    BuiltinCanonical(reg, BigInteger);
    BuiltinCanonical(reg, Int8);
    BuiltinCanonical(reg, Int64);
    assert ResultTypeBinary(reg, MathOp, IntDiv, i, i) == GetType(Int64);
    assert ResultTypeBinary(reg, MathOp, Mul, big, GetType(Int64)) == big;
    assert ResultTypeBinary(reg, MathOp, Mul, big, i) == big;
    assert ResultTypeBinary(reg, MathOp, IntDiv, big, i) == INVALID;
    assert TypeOf(reg, Node(IntDiv, Leaf(i), Leaf(i))) == GetType(Int64);
    assert TypeOf(reg, Node(Mul, Leaf(big), Leaf(i))) == big;
  }
}

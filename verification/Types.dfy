/** Type identifiers and the type registry.

    A TypeId is a container: the structural part (kind and registry index) plus the
    behavioural flags of one occurrence.  Built-in types occupy the low registry
    indices and are never aliases; user types follow them. */
module Types {

  datatype Option<+T> = None | Some(value: T)

  type Byte = n: nat | n < 256

  /** Only the groups the modelled code branches on are named. */
  datatype Group =
    | AnyGroup | VoidGroup | Logical | Integers | Unsigned | Numbers
    | ArbitraryPrecision | StrCharGroup | Structs | ClassDefs | OtherGroup(code: nat)

  /** `rest` stands for the bit fields (reference kind, trust and attribute flags)
      that take part in identity but in no branch modelled here. */
  datatype TypeKind = TypeKind(group: Group, data: Byte, rest: nat)

  datatype TypeId = TypeId(kind: TypeKind, index: nat, flags: nat)

  const INVALID: TypeId := TypeId(TypeKind(AnyGroup, 0, 0), 0, 0)

  predicate IsArithmeticGroup(g: Group) {
    g == Integers || g == Unsigned || g == Numbers
  }

  function Structural(id: TypeId): TypeId {
    id.(flags := 0)
  }

  // ---- built-in types -------------------------------------------------------

  datatype Builtin =
    | Bool | Int8 | Int16 | Int32 | Int64 | UInt8 | UInt16 | UInt32 | UInt64
    | Float16 | Float32 | Float64 | Rational | BigInteger | AnyType | StrChar

  const BUILTIN_COUNT: nat := 16

  function KindOf(b: Builtin): TypeKind {
    match b
    case Bool => TypeKind(Logical, 1, 0)
    case Int8 => TypeKind(Integers, 8, 0)
    case Int16 => TypeKind(Integers, 16, 0)
    case Int32 => TypeKind(Integers, 32, 0)
    case Int64 => TypeKind(Integers, 64, 0)
    case UInt8 => TypeKind(Unsigned, 8, 0)
    case UInt16 => TypeKind(Unsigned, 16, 0)
    case UInt32 => TypeKind(Unsigned, 32, 0)
    case UInt64 => TypeKind(Unsigned, 64, 0)
    case Float16 => TypeKind(Numbers, 16, 0)
    case Float32 => TypeKind(Numbers, 32, 0)
    case Float64 => TypeKind(Numbers, 64, 0)
    case Rational => TypeKind(ArbitraryPrecision, 1, 0)
    case BigInteger => TypeKind(ArbitraryPrecision, 2, 0)
    case AnyType => TypeKind(AnyGroup, 0, 0)
    case StrChar => TypeKind(StrCharGroup, 1, 0)
  }

  function IndexOf(b: Builtin): nat {
    match b
    case Bool => 1 case Int8 => 2 case Int16 => 3 case Int32 => 4 case Int64 => 5
    case UInt8 => 6 case UInt16 => 7 case UInt32 => 8 case UInt64 => 9
    case Float16 => 10 case Float32 => 11 case Float64 => 12
    case Rational => 13 case BigInteger => 14 case AnyType => 15 case StrChar => 16
  }

  /** The registry's lookup of a built-in type by name. */
  function GetType(b: Builtin): TypeId {
    TypeId(KindOf(b), IndexOf(b), 0)
  }

  // ---- registry -------------------------------------------------------------

  datatype FunctionType = FunctionType(params: seq<TypeId>, variadic: TypeId) {
    predicate IsVariadic() { variadic != INVALID }
  }

  /** `baseType` is the alias target (INVALID when the type is no alias);
      `bases` are the base classes of a record. */
  datatype Descriptor = Descriptor(baseType: TypeId, bases: seq<TypeId>, fn: Option<FunctionType>)

  const PLAIN: Descriptor := Descriptor(INVALID, [], None)

  datatype RegistryData = RegistryData(user: seq<Descriptor>) {
    /** An alias is registered after its target, so alias chains descend. */
    ghost predicate Valid() {
      forall i :: 0 <= i < |user| ==>
        user[i].baseType.flags == 0 && user[i].baseType.index < i + 1 + BUILTIN_COUNT
    }
  }

  type Registry = r: RegistryData | r.Valid() witness RegistryData([])

  function DescriptorOf(reg: Registry, id: TypeId): Option<Descriptor> {
    if id.index == 0 then None
    else if id.index <= BUILTIN_COUNT then Some(PLAIN)
    else
      var u := id.index - 1 - BUILTIN_COUNT;
      if u < |reg.user| then Some(reg.user[u]) else None
  }

  function FollowAliases(reg: Registry, id: TypeId): (c: TypeId)
    decreases id.index
  {
    match DescriptorOf(reg, id)
    case None => id
    case Some(d) => if d.baseType == INVALID then id else FollowAliases(reg, d.baseType)
  }

  function Canonical(reg: Registry, id: TypeId): TypeId {
    FollowAliases(reg, Structural(id))
  }

  function BaseClasses(reg: Registry, id: TypeId): seq<TypeId> {
    match DescriptorOf(reg, Canonical(reg, id))
    case None => []
    case Some(d) => d.bases
  }

  function FunctionOf(reg: Registry, sig: TypeId): Option<FunctionType> {
    match DescriptorOf(reg, sig)
    case None => None
    case Some(d) => d.fn
  }

  predicate IsRecordType(reg: Registry, id: TypeId) {
    var g := Canonical(reg, id).kind.group;
    g == Structs || g == ClassDefs
  }

  lemma {:induction false} FollowAliasesFixed(reg: Registry, id: TypeId)
    requires id.flags == 0
    ensures var c := FollowAliases(reg, id);
            c.flags == 0 && FollowAliases(reg, c) == c
    decreases id.index
  {
    match DescriptorOf(reg, id)
    case None =>
    case Some(d) => if d.baseType != INVALID { FollowAliasesFixed(reg, d.baseType); }
  }

  lemma BuiltinCanonical(reg: Registry, b: Builtin)
    ensures Canonical(reg, GetType(b)) == GetType(b)
  {
  }

  /** Canonical ids carry no flags and are their own canonical ids. */
  lemma CanonicalIdempotent(reg: Registry, id: TypeId)
    ensures Canonical(reg, id).flags == 0
    ensures Canonical(reg, Canonical(reg, id)) == Canonical(reg, id)
  {
    FollowAliasesFixed(reg, Structural(id));
  }

  // ---- laws of the registry ---------------------------------------------------------

  /** User type `i` occupies the registry index 17 + i. */
  predicate IsUser(reg: Registry, id: TypeId, i: nat) {
    id.index == 17 + i && i < |reg.user|
  }

  predicate AliasFor(reg: Registry, id: TypeId, target: TypeId) {
    17 <= id.index < 17 + |reg.user| && target != INVALID && reg.user[id.index - 17].baseType == target
  }

  /** One alias leads to the next. */
  ghost predicate AliasChain(reg: Registry, chain: seq<TypeId>) {
    chain != [] && forall k :: 0 <= k < |chain| - 1 ==> AliasFor(reg, chain[k], chain[k + 1])
  }

  lemma {:induction false} FollowedChain(reg: Registry, id: TypeId) returns (chain: seq<TypeId>)
    ensures AliasChain(reg, chain) && chain[0] == id && chain[|chain| - 1] == FollowAliases(reg, id)
    ensures forall t :: !AliasFor(reg, FollowAliases(reg, id), t)
    decreases id.index
  {
    if 17 <= id.index < 17 + |reg.user| && reg.user[id.index - 17].baseType != INVALID {
      var rest := FollowedChain(reg, reg.user[id.index - 17].baseType);
      chain := [id] + rest;
    } else {
      chain := [id];
    }
  }

  /** The canonical id is the end of the chain of aliases that starts at the id without
      its flags; it is no alias itself. */
  lemma CanonicalEndsAliases(reg: Registry, id: TypeId)
    ensures exists chain: seq<TypeId> :: AliasChain(reg, chain)
              && chain[0] == TypeId(id.kind, id.index, 0) && chain[|chain| - 1] == Canonical(reg, id)
    ensures forall t :: !AliasFor(reg, Canonical(reg, id), t)
  {
    var chain := FollowedChain(reg, Structural(id));
  }

  /** Bases and signature of a user type that is no alias are those it was registered
      with; other ids have none. */
  lemma EntryOfUser(reg: Registry, id: TypeId)
    requires forall t :: !AliasFor(reg, id, t)
    ensures forall i: nat :: IsUser(reg, id, i) ==>
              BaseClasses(reg, id) == reg.user[i].bases && FunctionOf(reg, id) == reg.user[i].fn
    ensures (forall i: nat :: !IsUser(reg, id, i)) ==> BaseClasses(reg, id) == [] && FunctionOf(reg, id) == None
  {
    if 17 <= id.index < 17 + |reg.user| {
      assert IsUser(reg, id, id.index - 17);
      assert !AliasFor(reg, id, reg.user[id.index - 17].baseType);
      assert Canonical(reg, id) == Structural(id);
    }
  }

  /** The sixteen built-in types differ in index and id, and their kinds carry group and
      width as their names say. */
  lemma BuiltinIds(b: Builtin, c: Builtin)
    ensures 1 <= GetType(b).index <= 16 && GetType(b).flags == 0
    ensures b != c ==> GetType(b).index != GetType(c).index && GetType(b) != GetType(c)
    ensures GetType(b).kind.group == Integers <==> b in {Int8, Int16, Int32, Int64}
    ensures GetType(b).kind.group == Unsigned <==> b in {UInt8, UInt16, UInt32, UInt64}
    ensures GetType(b).kind.group == Numbers <==> b in {Float16, Float32, Float64}
    ensures GetType(b).kind.group == ArbitraryPrecision <==> b in {Rational, BigInteger}
    ensures GetType(b).kind.group == AnyGroup <==> b == AnyType
    ensures GetType(b).kind.group == Logical <==> b == Bool
    ensures b in {Int8, UInt8} ==> GetType(b).kind.data == 8
    ensures b in {Int16, UInt16, Float16} ==> GetType(b).kind.data == 16
    ensures b in {Int32, UInt32, Float32} ==> GetType(b).kind.data == 32
    ensures b in {Int64, UInt64, Float64} ==> GetType(b).kind.data == 64
    ensures b in {Bool, StrChar, Rational} ==> GetType(b).kind.data == 1
    ensures GetType(BigInteger).kind.data == 2 && GetType(AnyType).kind.data == 0 && GetType(b).kind.rest == 0
    ensures INVALID.index == 0 && INVALID.flags == 0 && INVALID.kind == GetType(AnyType).kind
  {
  }
}

/** Overload resolution: conversion ranks and the choice of a signature. */
module Overload {
  import opened Types
  import opened BaseSearch

  // ---- conversion ranks -------------------------------------------------------

  /** Untyped parameters and arguments of unknown type count as Any. */
  predicate AnyLike(reg: Registry, raw: TypeId) {
    raw == INVALID || Canonical(reg, Structural(raw)) == Canonical(reg, GetType(AnyType))
  }

  /** The part of the ranking that looks at groups and widths only; None when no
      numeric rule applies and the base classes decide. */
  function NumericRank(fc: TypeId, tc: TypeId): Option<int> {
    var fg, tg := fc.kind.group, tc.kind.group;
    var fw, tw := fc.kind.data, tc.kind.data;
    var fInt := fg == Integers || fg == Unsigned;
    var tInt := tg == Integers || tg == Unsigned;
    var rational := GetType(Rational);
    if tg == ArbitraryPrecision then
      if fg == ArbitraryPrecision then
        if fc == rational && tc != rational then Some(4001)
        else if fc != rational && tc == rational then Some(1001)
        else Some(2000)
      else if fInt || fg == Numbers || fg == Logical then Some(3000 + fw)
      else Some(-1)
    else if fg == ArbitraryPrecision then Some(-1)
    else if fInt && tInt then
      if fg == tg && tw > fw then
        Some((if fw < 32 && tw >= 32 then 1 else 2) * 1000 + tw)
      else if fg != tg && tw > fw then Some(2000 + tw)
      else Some(4000 + fw)
    else if fg == Numbers && tg == Numbers then
      if tw > fw then Some(1000 + tw) else Some(4000 + fw)
    else if fInt && tg == Numbers then
      if tw >= fw then Some(3000 + tw) else Some(4000 + fw)
    else if fg == Numbers && tInt then Some(4000 + fw)
    else None
  }

  ghost function Rank(reg: Registry, from: TypeId, to: TypeId): int {
    var fc, tc := Canonical(reg, Structural(from)), Canonical(reg, Structural(to));
    if AnyLike(reg, to) || AnyLike(reg, from) then 5000
    else if fc == tc then 0
    else
      match NumericRank(fc, tc)
      case Some(k) => k
      case None => if IsRecordType(reg, fc) && DerivesFrom(reg, fc, tc) then 2000 else -1
  }

  /** The ranking gets as far as the base classes. */
  predicate ReachesBases(reg: Registry, from: TypeId, to: TypeId) {
    var fc, tc := Canonical(reg, Structural(from)), Canonical(reg, Structural(to));
    !AnyLike(reg, to) && !AnyLike(reg, from) && fc != tc && NumericRank(fc, tc).None? && IsRecordType(reg, fc)
  }

  /** The ranking ends: the search through the base classes does, if it is begun. */
  ghost predicate RankEnds(reg: Registry, from: TypeId, to: TypeId) {
    ReachesBases(reg, from, to) ==>
      SearchEnds(reg, Canonical(reg, Structural(from)), Canonical(reg, Structural(to)))
  }

  /** An argument type with no cycle above it can be converted to anything. */
  lemma RankEndsOnAcyclic(reg: Registry, from: TypeId, to: TypeId)
    requires AcyclicBelow(reg, Canonical(reg, Structural(from)))
    ensures RankEnds(reg, from, to)
  {
    SearchEndsIff(reg, Canonical(reg, Structural(from)), Canonical(reg, Structural(to)));
  }

  /** Rank of converting an argument of type `from` to a parameter of type `to`;
      negative when there is no conversion, smaller is better. */
  method OverloadConversionRank(reg: Registry, from: TypeId, to: TypeId) returns (k: int)
    requires RankEnds(reg, from, to)
    ensures k == Rank(reg, from, to)
  {
    if AnyLike(reg, to) || AnyLike(reg, from) {
      return 5000;
    }
    var fc := Canonical(reg, Structural(from));
    var tc := Canonical(reg, Structural(to));
    if fc == tc {
      return 0;
    }
    var numeric := NumericRank(fc, tc);
    if numeric.Some? {
      return numeric.value;
    }
    if IsRecordType(reg, fc) {
      var found := SearchBases(reg, fc, tc);
      if found {
        return 2000;
      }
    }
    return -1;
  }

  /** Argument and parameter have the same canonical type and neither is Any-like. */
  predicate Exact(reg: Registry, from: TypeId, to: TypeId) {
    !AnyLike(reg, from) && !AnyLike(reg, to) && Canonical(reg, from) == Canonical(reg, to)
  }

  /** Rank 0 means the same canonical type, 5000 means Any or an unknown type on either
      side, and every other conversion ranks strictly between the two. */
  lemma RankBands(reg: Registry, from: TypeId, to: TypeId)
    ensures var r, fc, tc, any := Rank(reg, from, to), Canonical(reg, from), Canonical(reg, to), GetType(AnyType);
            && (r == 5000 <==> from == INVALID || to == INVALID || fc == any || tc == any)
            && (r == 0 <==> from != INVALID && to != INVALID && fc == tc != any)
            && (r == -1 || 0 <= r <= 4255 || r == 5000)
  {
    BuiltinCanonical(reg, AnyType);
  }

  predicate IsInt(k: TypeKind) {
    k.group == Integers || k.group == Unsigned
  }

  /** Both integers or both floats, and the target strictly wider. */
  predicate Widens(f: TypeKind, t: TypeKind) {
    ((IsInt(f) && IsInt(t)) || (f.group == Numbers && t.group == Numbers)) && t.data > f.data
  }

  /** Machine number to machine number with no wider target of the same sort: float
      to integer, integer to a narrower float, or a target that is not wider. */
  predicate Narrows(f: TypeKind, t: TypeKind) {
    IsArithmeticGroup(f.group) && IsArithmeticGroup(t.group) && !Widens(f, t)
    && !(IsInt(f) && t.group == Numbers && t.data >= f.data)
  }

  /** An integer below 32 bits to 32 bits or more, keeping the signedness. */
  predicate Promotes(f: TypeKind, t: TypeKind) {
    IsInt(f) && f.group == t.group && f.data < 32 <= t.data
  }

  /** The nearer of two widening targets: promotions of integers come first, then the
      smaller width; a change of sign alone is no disadvantage. */
  predicate Nearer(f: TypeKind, k: TypeKind, m: TypeKind) {
    (Promotes(f, k) && !Promotes(f, m)) || (Promotes(f, k) == Promotes(f, m) && k.data < m.data)
  }

  /** Integer to a float at least as wide. */
  predicate Crosses(f: TypeKind, t: TypeKind) {
    IsInt(f) && t.group == Numbers && t.data >= f.data
  }

  /** Of two machine types, the one a machine number converts to more readily: the
      nearer of two widenings, any widening before a float at least as wide, the
      narrower of two such floats, and these before every narrowing. */
  predicate Closer(f: TypeKind, k: TypeKind, m: TypeKind) {
    || (Widens(f, k) && (!Widens(f, m) || Nearer(f, k, m)))
    || (Crosses(f, k) && (Narrows(f, m) || (Crosses(f, m) && k.data < m.data)))
  }

  predicate MachineConversion(reg: Registry, from: TypeId, to: TypeId) {
    && from != INVALID && to != INVALID && Canonical(reg, from) != Canonical(reg, to)
    && Canonical(reg, from).kind.group in {Integers, Unsigned, Numbers}
    && Canonical(reg, to).kind.group in {Integers, Unsigned, Numbers}
  }

  /** The ranks order the conversions between machine types; in particular all narrowing
      conversions of one type rank alike. */
  lemma MachineOrder(reg: Registry, from: TypeId, a: TypeId, b: TypeId)
    requires MachineConversion(reg, from, a) && MachineConversion(reg, from, b)
    ensures Rank(reg, from, a) >= 0
    ensures Rank(reg, from, a) < Rank(reg, from, b) <==>
            Closer(Canonical(reg, from).kind, Canonical(reg, a).kind, Canonical(reg, b).kind)
  {
    BuiltinCanonical(reg, AnyType);
  }

  /** The ranks by number: a thousand for each kind of conversion, and within it the
      width of the target, or of the source where that is what gets lost. */
  lemma RankTable(reg: Registry, from: TypeId, to: TypeId)
    requires from != INVALID && to != INVALID && Canonical(reg, from) != Canonical(reg, to)
    ensures MachineConversion(reg, from, to) ==>
              var f, t, r := Canonical(reg, from).kind, Canonical(reg, to).kind, Rank(reg, from, to);
              && (Widens(f, t) ==> r == t.data + if t.group == Numbers || Promotes(f, t) then 1000 else 2000)
              && (Crosses(f, t) ==> r == 3000 + t.data)
              && (Narrows(f, t) ==> r == 4000 + f.data)
    ensures Canonical(reg, to).kind.group == ArbitraryPrecision && Canonical(reg, from) != GetType(AnyType) ==>
              var fc, tc, r := Canonical(reg, from), Canonical(reg, to), Rank(reg, from, to);
              && (fc.kind.group in {Integers, Unsigned, Numbers, Logical} ==> r == 3000 + fc.kind.data)
              && (fc == GetType(Rational) ==> r == 4001)
              && (fc.kind.group == ArbitraryPrecision && fc != GetType(Rational) ==>
                    r == if tc == GetType(Rational) then 1001 else 2000)
  {
    BuiltinCanonical(reg, AnyType);
  }

  /** Arbitrary precision as the target: all its types rank alike for machine numbers
      and Bool, behind every widening and the float of the same width, before wider
      floats and every narrowing. */
  lemma ExactOrder(reg: Registry, from: TypeId, e: TypeId)
    requires from != INVALID && e != INVALID && Canonical(reg, e).kind.group == ArbitraryPrecision
    requires Canonical(reg, from).kind.group in {Integers, Unsigned, Numbers, Logical}
    ensures forall e2 :: e2 != INVALID && Canonical(reg, e2).kind.group == ArbitraryPrecision ==>
              Rank(reg, from, e2) == Rank(reg, from, e) > 0
    ensures forall m :: MachineConversion(reg, from, m) ==>
              var f, k := Canonical(reg, from).kind, Canonical(reg, m).kind;
              && (Rank(reg, from, m) < Rank(reg, from, e) <==> Widens(f, k))
              && (Rank(reg, from, e) < Rank(reg, from, m) <==> Narrows(f, k) || (Crosses(f, k) && f.data < k.data))
  {
    BuiltinCanonical(reg, AnyType);
  }

  /** An alias ranks as its target, as argument and as parameter. */
  lemma AliasRanks(reg: Registry, alias: TypeId, target: TypeId, other: TypeId)
    requires alias != INVALID && AliasFor(reg, alias, target)
    ensures Rank(reg, alias, other) == Rank(reg, target, other)
    ensures Rank(reg, other, alias) == Rank(reg, other, target)
  {
    assert Canonical(reg, alias) == Canonical(reg, target);
  }

  /** What converts at all: to an unknown or the same type; machine numbers among each
      other; these, Bool and arbitrary precision to arbitrary precision; and a record to
      its bases. */
  lemma Convertible(reg: Registry, from: TypeId, to: TypeId)
    ensures var fc, tc, any := Canonical(reg, from), Canonical(reg, to), GetType(AnyType);
            var f, t := fc.kind.group, tc.kind.group;
            Rank(reg, from, to) >= 0 <==>
            || from == INVALID || to == INVALID || fc == any || tc == any || fc == tc
            || (f in {Integers, Unsigned, Numbers} && t in {Integers, Unsigned, Numbers})
            || (f in {Integers, Unsigned, Numbers, Logical, ArbitraryPrecision} && t == ArbitraryPrecision)
            || (f in {Structs, ClassDefs} && t != ArbitraryPrecision && DerivesFrom(reg, fc, tc))
  {
    BuiltinCanonical(reg, AnyType);
    CanonicalIdempotent(reg, from);
    CanonicalIdempotent(reg, to);
    assert Structural(Structural(from)) == Structural(from);
    assert Structural(Structural(to)) == Structural(to);
  }

  /** For a record argument and a target outside the numeric groups, the search
      decides: rank 2000 exactly for a proper base, otherwise no conversion. */
  lemma RecordRank(reg: Registry, from: TypeId, to: TypeId)
    requires IsRecordType(reg, from) && !Exact(reg, from, to)
    requires !AnyLike(reg, from) && !AnyLike(reg, to)
    ensures Rank(reg, from, to) ==
            if Canonical(reg, to).kind.group != ArbitraryPrecision
               && DerivesFrom(reg, Canonical(reg, from), Canonical(reg, to))
            then 2000 else -1
  {
    assert Structural(Structural(from)) == Structural(from);
    assert Structural(Structural(to)) == Structural(to);
    CanonicalIdempotent(reg, from);
  }

  // ---- candidates -------------------------------------------------------------

  datatype Candidate = Candidate(sig: TypeId, ranks: seq<int>)

  predicate ArityFits(fd: FunctionType, nargs: nat) {
    if fd.IsVariadic() then nargs >= |fd.params| else nargs == |fd.params|
  }

  function ParamType(fd: FunctionType, i: nat): TypeId {
    if i < |fd.params| then fd.params[i] else fd.variadic
  }

  ghost function RankVector(reg: Registry, args: seq<TypeId>, fd: FunctionType): seq<int> {
    seq(|args|, i requires 0 <= i < |args| => Rank(reg, args[i], ParamType(fd, i)))
  }

  ghost predicate Viable(reg: Registry, args: seq<TypeId>, fd: FunctionType) {
    ArityFits(fd, |args|) && forall k :: k in RankVector(reg, args, fd) ==> k >= 0
  }

  ghost function CandidateOf(reg: Registry, args: seq<TypeId>, raw: TypeId): Option<Candidate> {
    match FunctionOf(reg, Structural(raw))
    case None => None
    case Some(fd) =>
      if Viable(reg, args, fd) then Some(Candidate(Structural(raw), RankVector(reg, args, fd))) else None
  }

  /** A signature is viable exactly when it has no more parameters than there are
      arguments, takes surplus arguments only if variadic, and every argument
      converts: a fixed one to its parameter, a surplus one to the variadic type. */
  lemma ViableIff(reg: Registry, args: seq<TypeId>, fd: FunctionType)
    ensures Viable(reg, args, fd) <==>
            && |fd.params| <= |args| && (fd.variadic == INVALID ==> |args| == |fd.params|)
            && (forall i :: 0 <= i < |fd.params| ==> Rank(reg, args[i], fd.params[i]) >= 0)
            && (forall i :: |fd.params| <= i < |args| ==> Rank(reg, args[i], fd.variadic) >= 0)
  {
    var r := RankVector(reg, args, fd);
    if Viable(reg, args, fd) {
      forall i | 0 <= i < |args| ensures Rank(reg, args[i], ParamType(fd, i)) >= 0 {
        assert r[i] in r;
      }
    } else if ArityFits(fd, |args|) {
      var k :| k in r && k < 0;
      var i :| 0 <= i < |r| && r[i] == k;
      assert Rank(reg, args[i], ParamType(fd, i)) < 0;
    }
  }

  // ---- filtering a sequence ---------------------------------------------------

  ghost function Selected<A, B>(f: A -> Option<B>, s: seq<A>): seq<B> {
    if s == [] then []
    else
      var head := Selected(f, s[..|s| - 1]);
      match f(s[|s| - 1]) case None => head case Some(b) => head + [b]
  }

  lemma {:induction false} SelectedMember<A, B>(f: A -> Option<B>, s: seq<A>, b: B)
    ensures b in Selected(f, s) <==> exists a :: a in s && f(a) == Some(b)
  {
    if s != [] {
      var init, a := s[..|s| - 1], s[|s| - 1];
      SelectedMember(f, init, b);
      assert s == init + [a];
    }
  }

  lemma {:induction false} SelectedAppend<A, B>(f: A -> Option<B>, s: seq<A>, t: seq<A>)
    ensures Selected(f, s + t) == Selected(f, s) + Selected(f, t)
  {
    if t == [] {
      assert s + t == s;
    } else {
      SelectedAppend(f, s, t[..|t| - 1]);
      assert (s + t)[..|s + t| - 1] == s + t[..|t| - 1];
    }
  }

  lemma SameBagWithout<A>(init: seq<A>, a: A, left: seq<A>, right: seq<A>)
    requires multiset(init + [a]) == multiset(left + [a] + right)
    ensures multiset(init) == multiset(left + right)
  {
    assert multiset(init) == multiset(init + [a]) - multiset{a};
    assert multiset(left + right) == multiset(left + [a] + right) - multiset{a};
  }

  lemma SelectedMiddle<A, B>(f: A -> Option<B>, left: seq<A>, a: A, right: seq<A>)
    ensures Selected(f, left + [a] + right) == Selected(f, left) + Selected(f, [a]) + Selected(f, right)
    ensures multiset(Selected(f, left + [a] + right)) ==
            multiset(Selected(f, left + right)) + multiset(Selected(f, [a]))
  {
    SelectedAppend(f, left + [a], right);
    SelectedAppend(f, left, [a]);
    SelectedAppend(f, left, right);
  }

  /** Any reordering selects the same bag. */
  lemma {:induction false} SelectedPermuted<A, B>(f: A -> Option<B>, s: seq<A>, t: seq<A>)
    requires multiset(s) == multiset(t)
    ensures multiset(Selected(f, s)) == multiset(Selected(f, t))
    decreases |s|
  {
    if s == [] {
      assert |multiset(t)| == 0;
    } else {
      var init, a := s[..|s| - 1], s[|s| - 1];
      assert s == init + [a];
      assert a in multiset(t);
      var k :| 0 <= k < |t| && t[k] == a;
      var left, right := t[..k], t[k + 1..];
      assert t == left + [a] + right;
      SameBagWithout(init, a, left, right);
      SelectedPermuted(f, init, left + right);
      SelectedMiddle(f, left, a, right);
      SelectedAppend(f, init, [a]);
    }
  }

  /** Functions that agree on the elements select the same. */
  lemma {:induction false} SelectedAgree<A, B>(f: A -> Option<B>, g: A -> Option<B>, s: seq<A>)
    requires forall a :: a in s ==> f(a) == g(a)
    ensures Selected(f, s) == Selected(g, s)
  {
    if s != [] {
      SelectedAgree(f, g, s[..|s| - 1]);
    }
  }

  // ---- the partial order ------------------------------------------------------

  predicate NotWorse(a: seq<int>, b: seq<int>)
    requires |a| == |b|
  {
    forall i :: 0 <= i < |a| ==> a[i] <= b[i]
  }

  /** Nowhere worse and somewhere strictly better. */
  predicate Better(a: seq<int>, b: seq<int>) {
    |a| == |b| && NotWorse(a, b) && !NotWorse(b, a)
  }

  ghost predicate Dominated(pool: seq<Candidate>, c: Candidate) {
    exists d :: d in pool && Better(d.ranks, c.ranks)
  }

  ghost function KeepUndominated(pool: seq<Candidate>): Candidate -> Option<TypeId> {
    c => if Dominated(pool, c) then None else Some(c.sig)
  }

  ghost function Viewer(reg: Registry, args: seq<TypeId>): TypeId -> Option<Candidate> {
    raw => CandidateOf(reg, args, raw)
  }

  ghost function Candidates(reg: Registry, args: seq<TypeId>, sigs: seq<TypeId>): seq<Candidate> {
    Selected(Viewer(reg, args), sigs)
  }

  ghost function Best(pool: seq<Candidate>): seq<TypeId> {
    Selected(KeepUndominated(pool), pool)
  }

  datatype Resolution = Resolution(chosen: TypeId, ambiguous: seq<TypeId>)

  function Verdict(best: seq<TypeId>): Resolution {
    if |best| == 1 then Resolution(best[0], []) else Resolution(INVALID, best)
  }

  ghost function Resolve(reg: Registry, sigs: seq<TypeId>, args: seq<TypeId>): Resolution {
    Verdict(Best(Candidates(reg, args, sigs)))
  }

  lemma CandidateShape(reg: Registry, args: seq<TypeId>, sigs: seq<TypeId>)
    ensures forall c :: c in Candidates(reg, args, sigs) ==>
              |c.ranks| == |args| && c.sig != INVALID && forall k :: k in c.ranks ==> k >= 0
  {
    forall c | c in Candidates(reg, args, sigs)
      ensures |c.ranks| == |args| && c.sig != INVALID && forall k :: k in c.ranks ==> k >= 0
    {
      SelectedMember(Viewer(reg, args), sigs, c);
    }
  }

  // ---- the algorithm ----------------------------------------------------------

  /** The ranking of argument `i` ends, if all arguments before it convert. */
  ghost predicate ArgumentEnds(reg: Registry, args: seq<TypeId>, fd: FunctionType, i: nat) {
    i < |args| && (forall k :: k in RankVector(reg, args, fd)[..i] ==> k >= 0) ==> RankEnds(reg, args[i], ParamType(fd, i))
  }

  /** Every ranking that is begun for the signature ends; none is begun behind an
      argument without conversion. */
  ghost predicate SignatureEnds(reg: Registry, args: seq<TypeId>, fd: FunctionType) {
    forall i: nat :: ArgumentEnds(reg, args, fd, i)
  }

  ghost predicate ResolutionEnds(reg: Registry, sigs: seq<TypeId>, args: seq<TypeId>) {
    forall raw, fd ::
      raw in sigs && FunctionOf(reg, Structural(raw)) == Some(fd) && ArityFits(fd, |args|) ==> SignatureEnds(reg, args, fd)
  }

  /** Resolution ends whatever the signatures and whatever cycles lie elsewhere, if no
      argument type has one above it. */
  lemma ResolutionEndsOnAcyclic(reg: Registry, sigs: seq<TypeId>, args: seq<TypeId>)
    requires forall a :: a in args ==> AcyclicBelow(reg, Canonical(reg, Structural(a)))
    ensures ResolutionEnds(reg, sigs, args)
  {
    forall a, to | a in args ensures RankEnds(reg, a, to) { RankEndsOnAcyclic(reg, a, to); }
  }

  /** Ranks of one signature, or None as soon as some argument has no conversion. */
  method RankSignature(reg: Registry, args: seq<TypeId>, fd: FunctionType) returns (r: Option<seq<int>>)
    requires ArityFits(fd, |args|) && SignatureEnds(reg, args, fd)
    ensures r == if Viable(reg, args, fd) then Some(RankVector(reg, args, fd)) else None
  {
    var ranks: seq<int> := [];
    ghost var all := RankVector(reg, args, fd);
    var i := 0;
    while i < |args|
      invariant 0 <= i <= |args|
      invariant ranks == all[..i] && forall k :: k in ranks ==> k >= 0
    {
      assert ArgumentEnds(reg, args, fd, i);
      var k := OverloadConversionRank(reg, args[i], ParamType(fd, i));
      assert all[i] == k;
      if k < 0 {
        assert k in all;
        return None;
      }
      ranks := ranks + [k];
      i := i + 1;
    }
    assert ranks == all;
    return Some(ranks);
  }

  method CollectCandidates(reg: Registry, sigs: seq<TypeId>, args: seq<TypeId>) returns (cands: seq<Candidate>)
    requires ResolutionEnds(reg, sigs, args)
    ensures cands == Candidates(reg, args, sigs)
  {
    cands := [];
    var i := 0;
    while i < |sigs|
      invariant 0 <= i <= |sigs|
      invariant cands == Candidates(reg, args, sigs[..i])
    {
      assert sigs[..i + 1][..i] == sigs[..i];
      var sig := Structural(sigs[i]);
      var fd := FunctionOf(reg, sig);
      if fd.Some? && ArityFits(fd.value, |args|) {
        var r := RankSignature(reg, args, fd.value);
        if r.Some? {
          cands := cands + [Candidate(sig, r.value)];
        }
      }
      i := i + 1;
    }
    assert sigs[..i] == sigs;
  }

  method IsDominated(cands: seq<Candidate>, i: nat) returns (dominated: bool)
    requires i < |cands|
    requires forall c, d :: c in cands && d in cands ==> |c.ranks| == |d.ranks|
    ensures dominated <==> Dominated(cands, cands[i])
  {
    dominated := false;
    var j := 0;
    while j < |cands| && !dominated
      invariant 0 <= j <= |cands|
      invariant !dominated ==> forall m :: 0 <= m < j ==> !Better(cands[m].ranks, cands[i].ranks)
      invariant dominated ==> Dominated(cands, cands[i])
    {
      if i != j {
        var jNum := NotWorse(cands[j].ranks, cands[i].ranks);
        var iNum := NotWorse(cands[i].ranks, cands[j].ranks);
        if jNum && !iNum {
          dominated := true;
          assert cands[j] in cands;
        }
      }
      j := j + 1;
    }
  }

  method ResolveOverload(reg: Registry, sigs: seq<TypeId>, args: seq<TypeId>) returns (res: Resolution)
    requires ResolutionEnds(reg, sigs, args)
    ensures res == Resolve(reg, sigs, args)
  {
    var cands := CollectCandidates(reg, sigs, args);
    res := Resolution(INVALID, []);
    if cands == [] {
      return;
    }
    CandidateShape(reg, args, sigs);
    var i := 0;
    while i < |cands|
      invariant 0 <= i <= |cands|
      invariant res == Resolution(INVALID, Selected(KeepUndominated(cands), cands[..i]))
    {
      assert cands[..i + 1][..i] == cands[..i];
      var dominated := IsDominated(cands, i);
      if !dominated {
        res := res.(ambiguous := res.ambiguous + [cands[i].sig]);
      }
      i := i + 1;
    }
    assert cands[..i] == cands;
    if |res.ambiguous| == 1 {
      res := Resolution(res.ambiguous[0], []);
    }
  }
}

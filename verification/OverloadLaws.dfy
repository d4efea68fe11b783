/** What overload resolution promises, for every registry, candidate set and
    argument list. */
module OverloadLaws {
  import opened Types
  import opened BaseSearch
  import opened Overload

  // ---- the strict order is finite ---------------------------------------------

  function Total(r: seq<int>): int {
    if r == [] then 0 else r[0] + Total(r[1..])
  }

  lemma {:induction false} TotalGrows(a: seq<int>, b: seq<int>)
    requires |a| == |b| && NotWorse(a, b)
    ensures Total(a) <= Total(b)
    ensures !NotWorse(b, a) ==> Total(a) < Total(b)
  {
    if a != [] {
      TotalGrows(a[1..], b[1..]);
      if !NotWorse(b, a) {
        var i :| 0 <= i < |b| && b[i] > a[i];
        if i > 0 {
          assert b[1..][i - 1] > a[1..][i - 1];
        }
      }
    }
  }

  lemma {:induction false} TotalNonNegative(a: seq<int>)
    requires forall k :: k in a ==> k >= 0
    ensures Total(a) >= 0
  {
    if a != [] {
      assert a[0] in a && forall k :: k in a[1..] ==> k in a;
      TotalNonNegative(a[1..]);
    }
  }

  lemma BetterTransitive(a: seq<int>, b: seq<int>, c: seq<int>)
    requires Better(a, b) && Better(b, c)
    ensures Better(a, c)
  {
  }

  ghost predicate RankPool(pool: seq<Candidate>) {
    forall c :: c in pool ==> forall k :: k in c.ranks ==> k >= 0
  }

  /** Below every dominated candidate lies an undominated one. */
  lemma {:induction false} UndominatedBelow(pool: seq<Candidate>, c: Candidate) returns (u: Candidate)
    requires RankPool(pool) && c in pool && Dominated(pool, c)
    ensures u in pool && !Dominated(pool, u) && Better(u.ranks, c.ranks)
    decreases Total(c.ranks)
  {
    var d :| d in pool && Better(d.ranks, c.ranks);
    TotalGrows(d.ranks, c.ranks);
    TotalNonNegative(d.ranks);
    TotalNonNegative(c.ranks);
    if Dominated(pool, d) {
      u := UndominatedBelow(pool, d);
      BetterTransitive(u.ranks, d.ranks, c.ranks);
    } else {
      u := d;
    }
  }

  lemma BestMember(pool: seq<Candidate>, sig: TypeId)
    ensures sig in Best(pool) <==> exists c :: c in pool && c.sig == sig && !Dominated(pool, c)
  {
    SelectedMember(KeepUndominated(pool), pool, sig);
    forall c | c in pool && c.sig == sig && !Dominated(pool, c)
      ensures KeepUndominated(pool)(c) == Some(sig)
    {}
  }

  /** Two undominated candidates at different positions give two entries. */
  lemma {:induction false} SelectedTwo<A, B>(f: A -> Option<B>, s: seq<A>, i: nat, j: nat)
    requires i < j < |s| && f(s[i]).Some? && f(s[j]).Some?
    ensures |Selected(f, s)| >= 2
  {
    var init := s[..|s| - 1];
    if j < |init| {
      SelectedTwo(f, init, i, j);
    } else {
      SelectedMember(f, init, f(s[i]).value);
      assert init[i] == s[i];
    }
  }

  /** Position `m` holds a candidate strictly better than every other one. */
  ghost predicate StrictBest(pool: seq<Candidate>, m: nat) {
    m < |pool| && forall j :: 0 <= j < |pool| && j != m ==> Better(pool[m].ranks, pool[j].ranks)
  }

  lemma StrictBestIsOnlyBest(pool: seq<Candidate>, m: nat)
    requires StrictBest(pool, m)
    ensures Best(pool) == [pool[m].sig]
  {
    var f := KeepUndominated(pool);
    assert f(pool[m]) == Some(pool[m].sig);
    forall j | 0 <= j < |pool| && j != m ensures f(pool[j]) == None {
      assert pool[m] in pool;
    }
    SelectedSingle(f, pool, m, pool[m].sig);
  }

  lemma SelectedSingle<A, B>(f: A -> Option<B>, s: seq<A>, m: nat, b: B)
    requires m < |s| && f(s[m]) == Some(b)
    requires forall j :: 0 <= j < |s| && j != m ==> f(s[j]) == None
    ensures Selected(f, s) == [b]
  {
    SelectedAllNone(f, s[..m]);
    SelectedAllNone(f, s[m + 1..]);
    SelectedMiddle(f, s[..m], s[m], s[m + 1..]);
    assert [s[m]][..0] == [];
    assert s == s[..m] + [s[m]] + s[m + 1..];
  }

  lemma {:induction false} SelectedAllNone<A, B>(f: A -> Option<B>, s: seq<A>)
    requires forall i :: 0 <= i < |s| ==> f(s[i]) == None
    ensures Selected(f, s) == []
  {
    if s != [] { SelectedAllNone(f, s[..|s| - 1]); }
  }

  lemma OnlyBestIsStrictBest(pool: seq<Candidate>) returns (m: nat)
    requires RankPool(pool) && |Best(pool)| == 1
    ensures StrictBest(pool, m) && Best(pool)[0] == pool[m].sig
  {
    var f := KeepUndominated(pool);
    assert Best(pool)[0] in Best(pool);
    BestMember(pool, Best(pool)[0]);
    var c :| c in pool && c.sig == Best(pool)[0] && !Dominated(pool, c);
    m :| 0 <= m < |pool| && pool[m] == c;
    forall j | 0 <= j < |pool| && j != m ensures Better(pool[m].ranks, pool[j].ranks) {
      if !Dominated(pool, pool[j]) {
        SelectedTwo(f, pool, if j < m then j else m, if j < m then m else j);
        assert false;
      }
      var u := UndominatedBelow(pool, pool[j]);
      var k :| 0 <= k < |pool| && pool[k] == u;
      if k != m {
        SelectedTwo(f, pool, if k < m then k else m, if k < m then m else k);
        assert false;
      }
    }
  }

  // ---- main results -----------------------------------------------------------

  lemma PoolIsRanked(reg: Registry, sigs: seq<TypeId>, args: seq<TypeId>)
    ensures RankPool(Candidates(reg, args, sigs))
    ensures forall c :: c in Candidates(reg, args, sigs) ==> c.sig != INVALID
  {
    CandidateShape(reg, args, sigs);
  }

  /** A signature is chosen exactly when it is strictly better than every other
      viable candidate, position by position. */
  lemma ChosenIffStrictBest(reg: Registry, sigs: seq<TypeId>, args: seq<TypeId>, sig: TypeId)
    ensures var pool := Candidates(reg, args, sigs);
            Resolve(reg, sigs, args).chosen == sig && sig != INVALID
            <==> exists m: nat :: StrictBest(pool, m) && pool[m].sig == sig
  {
    var pool := Candidates(reg, args, sigs);
    PoolIsRanked(reg, sigs, args);
    if |Best(pool)| == 1 {
      var m := OnlyBestIsStrictBest(pool);
    }
    forall m: nat | StrictBest(pool, m) ensures Best(pool) == [pool[m].sig] && pool[m] in pool {
      StrictBestIsOnlyBest(pool, m);
    }
  }

  /** Some viable candidate is always undominated. */
  lemma SomethingIsBest(pool: seq<Candidate>)
    requires RankPool(pool) && pool != []
    ensures Best(pool) != []
  {
    var c := pool[0];
    if Dominated(pool, c) { c := UndominatedBelow(pool, c); }
    BestMember(pool, c.sig);
  }

  /** No viable candidate: neither a choice nor an ambiguity.  Otherwise exactly
      one of: a choice, or at least two ambiguous entries. */
  lemma ChoiceOrAmbiguity(reg: Registry, sigs: seq<TypeId>, args: seq<TypeId>)
    ensures var r := Resolve(reg, sigs, args);
            if Candidates(reg, args, sigs) == [] then r == Resolution(INVALID, [])
            else (r.chosen != INVALID && r.ambiguous == []) || (r.chosen == INVALID && |r.ambiguous| >= 2)
  {
    var pool := Candidates(reg, args, sigs);
    if pool != [] {
      PoolIsRanked(reg, sigs, args);
      SomethingIsBest(pool);
      BestMember(pool, Best(pool)[0]);
    }
  }

  // ---- order and irrelevant alternatives --------------------------------------

  ghost predicate SameOutcome(a: Resolution, b: Resolution) {
    a.chosen == b.chosen && multiset(a.ambiguous) == multiset(b.ambiguous)
  }

  lemma VerdictOfBag(a: seq<TypeId>, b: seq<TypeId>)
    requires multiset(a) == multiset(b)
    ensures SameOutcome(Verdict(a), Verdict(b))
  {
  }

  /** The order in which the signatures are listed is irrelevant. */
  lemma OrderIrrelevant(reg: Registry, sigs: seq<TypeId>, sigs': seq<TypeId>, args: seq<TypeId>)
    requires multiset(sigs) == multiset(sigs')
    ensures SameOutcome(Resolve(reg, sigs, args), Resolve(reg, sigs', args))
  {
    var pool, pool' := Candidates(reg, args, sigs), Candidates(reg, args, sigs');
    SelectedPermuted(Viewer(reg, args), sigs, sigs');
    forall c ensures c in pool <==> c in pool' {
      assert c in pool <==> c in multiset(pool);
      assert c in pool' <==> c in multiset(pool');
    }
    SelectedAgree(KeepUndominated(pool), KeepUndominated(pool'), pool);
    SelectedPermuted(KeepUndominated(pool'), pool, pool');
    VerdictOfBag(Best(pool), Best(pool'));
  }

  /** `extra` is not viable, or some viable signature of `sigs` is strictly better. */
  ghost predicate Irrelevant(reg: Registry, sigs: seq<TypeId>, args: seq<TypeId>, extra: TypeId) {
    match CandidateOf(reg, args, extra)
    case None => true
    case Some(c) => Dominated(Candidates(reg, args, sigs), c)
  }

  lemma DominatedAddsNothing(pool: seq<Candidate>, c: Candidate)
    requires Dominated(pool, c)
    ensures Best(pool + [c]) == Best(pool)
  {
    var wide := pool + [c];
    var f, g := KeepUndominated(wide), KeepUndominated(pool);
    var d :| d in pool && Better(d.ranks, c.ranks);
    forall e ensures Dominated(wide, e) <==> Dominated(pool, e) {
      if Dominated(pool, e) {
        var x :| x in pool && Better(x.ranks, e.ranks);
        assert x in wide;
      }
      if Dominated(wide, e) {
        var x :| x in wide && Better(x.ranks, e.ranks);
        if x == c {
          BetterTransitive(d.ranks, c.ranks, e.ranks);
        }
      }
    }
    SelectedAgree(f, g, pool);
    assert wide[..|wide| - 1] == pool;
  }

  /** Adding or removing an irrelevant signature, at any position, changes nothing. */
  lemma IrrelevantAlternative(reg: Registry, sigs: seq<TypeId>, wider: seq<TypeId>, args: seq<TypeId>, extra: TypeId)
    requires multiset(wider) == multiset(sigs) + multiset{extra}
    requires Irrelevant(reg, sigs, args, extra)
    ensures SameOutcome(Resolve(reg, wider, args), Resolve(reg, sigs, args))
  {
    var appended := sigs + [extra];
    OrderIrrelevant(reg, wider, appended, args);
    assert appended[..|appended| - 1] == sigs;
    match CandidateOf(reg, args, extra)
    case None =>
    case Some(c) => DominatedAddsNothing(Candidates(reg, args, sigs), c);
  }

  // ---- exact matches ----------------------------------------------------------

  /** Every argument meets its parameter with the same canonical type. */
  ghost predicate MatchesExactly(reg: Registry, args: seq<TypeId>, raw: TypeId) {
    match FunctionOf(reg, Structural(raw))
    case None => false
    case Some(fd) =>
      ArityFits(fd, |args|) && forall i :: 0 <= i < |args| ==> Exact(reg, args[i], ParamType(fd, i))
  }

  ghost function KeepExact(reg: Registry, args: seq<TypeId>): TypeId -> Option<TypeId> {
    raw => if MatchesExactly(reg, args, raw) then Some(Structural(raw)) else None
  }

  ghost function ExactMatches(reg: Registry, sigs: seq<TypeId>, args: seq<TypeId>): seq<TypeId> {
    Selected(KeepExact(reg, args), sigs)
  }

  predicate AllZero(r: seq<int>) {
    forall i :: 0 <= i < |r| ==> r[i] == 0
  }

  /** Zero vectors come from exact matches and from nothing else. */
  lemma ExactIsZero(reg: Registry, args: seq<TypeId>, raw: TypeId)
    ensures MatchesExactly(reg, args, raw)
            <==> CandidateOf(reg, args, raw).Some? && AllZero(CandidateOf(reg, args, raw).value.ranks)
  {
    match FunctionOf(reg, Structural(raw))
    case None =>
    case Some(fd) =>
      var r := RankVector(reg, args, fd);
      forall i | 0 <= i < |args| ensures r[i] == 0 <==> Exact(reg, args[i], ParamType(fd, i)) {
        RankBands(reg, args[i], ParamType(fd, i));
      }
      if MatchesExactly(reg, args, raw) {
        forall k | k in r ensures k >= 0 {}
      }
  }

  lemma {:induction false} SelectedThrough(reg: Registry, args: seq<TypeId>, pool: seq<Candidate>, sigs: seq<TypeId>)
    requires forall c :: c in Candidates(reg, args, sigs) ==> (Dominated(pool, c) <==> !AllZero(c.ranks))
    ensures Selected(KeepUndominated(pool), Candidates(reg, args, sigs)) == ExactMatches(reg, sigs, args)
  {
    if sigs != [] {
      var init, raw := sigs[..|sigs| - 1], sigs[|sigs| - 1];
      var cs := Candidates(reg, args, init);
      ExactIsZero(reg, args, raw);
      match CandidateOf(reg, args, raw)
      case None =>
        SelectedThrough(reg, args, pool, init);
      case Some(c) =>
        assert Candidates(reg, args, sigs) == cs + [c];
        assert forall d :: d in cs ==> d in cs + [c];
        assert c in cs + [c];
        SelectedThrough(reg, args, pool, init);
        assert (cs + [c])[..|cs|] == cs;
    }
  }

  /** As soon as one signature matches every argument exactly, the exact matches
      alone decide: a single one is chosen, several are ambiguous. */
  lemma ExactMatchWins(reg: Registry, sigs: seq<TypeId>, args: seq<TypeId>)
    requires ExactMatches(reg, sigs, args) != []
    ensures Resolve(reg, sigs, args) == Verdict(ExactMatches(reg, sigs, args))
  {
    var pool := Candidates(reg, args, sigs);
    CandidateShape(reg, args, sigs);
    var m := ExactMatches(reg, sigs, args)[0];
    SelectedMember(KeepExact(reg, args), sigs, m);
    var raw :| raw in sigs && KeepExact(reg, args)(raw) == Some(m);
    ExactIsZero(reg, args, raw);
    var z := CandidateOf(reg, args, raw).value;
    SelectedMember(Viewer(reg, args), sigs, z);
    assert z in pool && AllZero(z.ranks);
    forall c | c in pool ensures Dominated(pool, c) <==> !AllZero(c.ranks) {
      assert forall i :: 0 <= i < |c.ranks| ==> c.ranks[i] in c.ranks;
      if !AllZero(c.ranks) {
        assert Better(z.ranks, c.ranks);
      } else {
        forall d | d in pool ensures !Better(d.ranks, c.ranks) {
          assert forall i :: 0 <= i < |d.ranks| ==> d.ranks[i] in d.ranks;
        }
      }
    }
    SelectedThrough(reg, args, pool, sigs);
  }

  // ---- one argument, two widenings ------------------------------------------------------------

  lemma CandidateOfOne(reg: Registry, arg: TypeId, sig: TypeId, param: TypeId)
    requires FunctionOf(reg, Structural(sig)) == Some(FunctionType([param], INVALID)) && Rank(reg, arg, param) >= 0
    ensures CandidateOf(reg, [arg], sig) == Some(Candidate(Structural(sig), [Rank(reg, arg, param)]))
  {
    var fd := FunctionType([param], INVALID);
    assert RankVector(reg, [arg], fd) == [Rank(reg, arg, param)];
  }

  lemma SelectedPair<A, B>(f: A -> Option<B>, a: A, b: A)
    ensures Selected(f, [a, b]) == Selected(f, [a]) + Selected(f, [b])
  {
    assert [a, b] == [a] + [b];
    SelectedAppend(f, [a], [b]);
  }

  lemma BetterOne(x: int, y: int)
    ensures Better([x], [y]) <==> x < y
  {
    assert [x][0] == x && [y][0] == y;
    assert NotWorse([x], [y]) <==> x <= y;
    assert NotWorse([y], [x]) <==> y <= x;
  }

  lemma BestOfTwo(s: TypeId, t: TypeId, x: int, y: int)
    ensures var pool := [Candidate(s, [x]), Candidate(t, [y])];
            Best(pool) == if x < y then [s] else if y < x then [t] else [s, t]
  {
    var a, b := Candidate(s, [x]), Candidate(t, [y]);
    var pool := [a, b];
    BetterOne(x, y);
    BetterOne(y, x);
    assert forall c :: c in pool <==> c == a || c == b;
    assert Dominated(pool, a) <==> y < x by { assert b in pool; }
    assert Dominated(pool, b) <==> x < y by { assert a in pool; }
    SelectedPair(KeepUndominated(pool), a, b);
  }

  /** The signature of an overload with the one parameter `p`. */
  predicate Takes(reg: Registry, sig: TypeId, p: TypeId) {
    FunctionOf(reg, Structural(sig)) == Some(FunctionType([p], INVALID))
  }

  /** Of two overloads of one argument the conversion of lower rank is chosen; equal
      ranks are ambiguous. */
  lemma LowerRankWins(reg: Registry, arg: TypeId, a: TypeId, p: TypeId, b: TypeId, q: TypeId)
    requires Takes(reg, a, p) && Takes(reg, b, q) && Rank(reg, arg, p) >= 0 && Rank(reg, arg, q) >= 0
    ensures var x, y := Rank(reg, arg, p), Rank(reg, arg, q);
            Resolve(reg, [a, b], [arg]) ==
            if x < y then Resolution(Structural(a), [])
            else if y < x then Resolution(Structural(b), [])
            else Resolution(INVALID, [Structural(a), Structural(b)])
  {
    CandidateOfOne(reg, arg, a, p);
    CandidateOfOne(reg, arg, b, q);
    SelectedPair(Viewer(reg, [arg]), a, b);
    var x, y := Rank(reg, arg, p), Rank(reg, arg, q);
    assert Candidates(reg, [arg], [a, b]) == [Candidate(Structural(a), [x]), Candidate(Structural(b), [y])];
    BestOfTwo(Structural(a), Structural(b), x, y);
  }

  /** Of two overloads that convert their one argument between machine types the closer
      is chosen; equally close ones are ambiguous. */
  lemma CloserWins(reg: Registry, arg: TypeId, a: TypeId, p: TypeId, b: TypeId, q: TypeId)
    requires Takes(reg, a, p) && Takes(reg, b, q)
    requires MachineConversion(reg, arg, p) && MachineConversion(reg, arg, q)
    ensures var f, k, m := Canonical(reg, arg).kind, Canonical(reg, p).kind, Canonical(reg, q).kind;
            Resolve(reg, [a, b], [arg]) ==
            if Closer(f, k, m) then Resolution(Structural(a), [])
            else if Closer(f, m, k) then Resolution(Structural(b), [])
            else Resolution(INVALID, [Structural(a), Structural(b)])
  {
    MachineOrder(reg, arg, p, q);
    MachineOrder(reg, arg, q, p);
    LowerRankWins(reg, arg, a, p, b, q);
  }

  /** An integer given to overloads on two floats at least as wide: the narrower float. */
  lemma NarrowerFloatWins(reg: Registry, arg: TypeId, a: TypeId, p: TypeId, b: TypeId, q: TypeId)
    requires Takes(reg, a, p) && Takes(reg, b, q) && arg != INVALID && p != INVALID && q != INVALID
    requires Canonical(reg, arg).kind.group in {Integers, Unsigned}
    requires Canonical(reg, p).kind.group == Numbers && Canonical(reg, q).kind.group == Numbers
    requires Canonical(reg, arg).kind.data <= Canonical(reg, p).kind.data < Canonical(reg, q).kind.data
    ensures Resolve(reg, [a, b], [arg]) == Resolution(Structural(a), [])
  {
    CloserWins(reg, arg, a, p, b, q);
  }

  /** Two narrowing conversions of one argument stay ambiguous. */
  lemma NarrowingsAmbiguous(reg: Registry, arg: TypeId, a: TypeId, p: TypeId, b: TypeId, q: TypeId)
    requires Takes(reg, a, p) && Takes(reg, b, q)
    requires MachineConversion(reg, arg, p) && MachineConversion(reg, arg, q)
    requires Canonical(reg, p).kind.data < Canonical(reg, arg).kind.data
    requires Canonical(reg, q).kind.data < Canonical(reg, arg).kind.data
    ensures Resolve(reg, [a, b], [arg]) == Resolution(INVALID, [Structural(a), Structural(b)])
  {
    CloserWins(reg, arg, a, p, b, q);
  }
}

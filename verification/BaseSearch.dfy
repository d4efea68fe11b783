/** The search through base classes at the end of the conversion ranking:
    a worklist over the inheritance graph. */
module BaseSearch {
  import opened Types

  // ---- the inheritance graph --------------------------------------------------

  /** Direct bases, each replaced by its canonical id. */
  function DirectBases(reg: Registry, t: TypeId): seq<TypeId> {
    CanonicalAll(reg, BaseClasses(reg, t))
  }

  function CanonicalAll(reg: Registry, ids: seq<TypeId>): seq<TypeId> {
    seq(|ids|, i requires 0 <= i < |ids| => Canonical(reg, ids[i]))
  }

  /** `via` lists the types strictly between `s` and its base `t`. */
  ghost predicate BasePath(reg: Registry, s: TypeId, via: seq<TypeId>, t: TypeId)
    decreases |via|
  {
    if via == [] then t in DirectBases(reg, s)
    else via[0] in DirectBases(reg, s) && BasePath(reg, via[0], via[1..], t)
  }

  /** `t` lies in the transitive closure of the canonicalised bases of `s`. */
  ghost predicate DerivesFrom(reg: Registry, s: TypeId, t: TypeId) {
    exists via :: BasePath(reg, s, via, t)
  }

  /** The type inherits, directly or not, from its own registry entry. */
  ghost predicate OnCycle(reg: Registry, x: TypeId) {
    exists y :: DerivesFrom(reg, x, y) && y.index == x.index
  }

  /** Nothing that `from` inherits from lies on a cycle; cycles elsewhere in the
      registry do not matter. */
  ghost predicate AcyclicBelow(reg: Registry, from: TypeId) {
    forall x :: DerivesFrom(reg, from, x) ==> !OnCycle(reg, x)
  }

  lemma DerivesDirect(reg: Registry, s: TypeId, b: TypeId)
    requires b in DirectBases(reg, s)
    ensures DerivesFrom(reg, s, b)
  {
    assert BasePath(reg, s, [], b);
  }

  lemma {:induction false} BasePathExtend(reg: Registry, s: TypeId, via: seq<TypeId>, b: TypeId, c: TypeId)
    requires BasePath(reg, s, via, b) && c in DirectBases(reg, b)
    ensures BasePath(reg, s, via + [b], c)
    decreases |via|
  {
    if via == [] {
      assert [b][1..] == [];
    } else {
      BasePathExtend(reg, via[0], via[1..], b, c);
      assert (via + [b])[1..] == via[1..] + [b];
    }
  }

  lemma DerivesThen(reg: Registry, s: TypeId, b: TypeId, c: TypeId)
    requires DerivesFrom(reg, s, b) && c in DirectBases(reg, b)
    ensures DerivesFrom(reg, s, c)
  {
    var via :| BasePath(reg, s, via, b);
    BasePathExtend(reg, s, via, b, c);
  }

  /** A derivation starts with one direct base. */
  lemma DerivesFirstStep(reg: Registry, s: TypeId, t: TypeId) returns (b: TypeId)
    requires DerivesFrom(reg, s, t)
    ensures b in DirectBases(reg, s) && OnTheWay(reg, b, t)
  {
    var via :| BasePath(reg, s, via, t);
    b := if via == [] then t else via[0];
    assert via != [] ==> BasePath(reg, b, via[1..], t);
  }

  lemma DerivesPrepend(reg: Registry, s: TypeId, b: TypeId, t: TypeId)
    requires b in DirectBases(reg, s) && DerivesFrom(reg, b, t)
    ensures DerivesFrom(reg, s, t)
  {
    var via :| BasePath(reg, b, via, t);
    assert ([b] + via)[1..] == via;
    assert BasePath(reg, s, [b] + via, t);
  }

  // ---- termination measure ----------------------------------------------------

  ghost predicate IsEntry(reg: Registry, i: nat) {
    i < 1 + BUILTIN_COUNT + |reg.user|
  }

  /** Registry entries, as indices. */
  ghost function Entries(reg: Registry): set<nat> {
    set i | 0 <= i < 1 + BUILTIN_COUNT + |reg.user| && IsEntry(reg, i)
  }

  /** Number of base paths leaving `t` that stay inside `avail`. */
  ghost function PathCount(reg: Registry, t: TypeId, avail: set<nat>): nat
    decreases |avail|, 0
  {
    if t.index !in avail then 1
    else 1 + PathSum(reg, DirectBases(reg, t), avail - {t.index})
  }

  ghost function PathSum(reg: Registry, ts: seq<TypeId>, avail: set<nat>): nat
    decreases |avail|, |ts|
  {
    if ts == [] then 0 else PathCount(reg, ts[0], avail) + PathSum(reg, ts[1..], avail)
  }

  ghost predicate Avoids(reg: Registry, t: TypeId, i: nat) {
    t.index != i && forall x :: DerivesFrom(reg, t, x) ==> x.index != i
  }

  /** An entry that is never reached does not influence the count. */
  lemma {:induction false} PathCountIgnores(reg: Registry, t: TypeId, i: nat, avail: set<nat>)
    requires Avoids(reg, t, i)
    ensures PathCount(reg, t, avail) == PathCount(reg, t, avail - {i})
    decreases |avail|, 0
  {
    if t.index in avail {
      var rest := avail - {t.index};
      assert rest - {i} == avail - {i} - {t.index};
      forall b | b in DirectBases(reg, t) ensures Avoids(reg, b, i) {
        DerivesDirect(reg, t, b);
        forall x | DerivesFrom(reg, b, x) ensures x.index != i { DerivesPrepend(reg, t, b, x); }
      }
      PathSumIgnores(reg, DirectBases(reg, t), i, rest);
    }
  }

  lemma {:induction false} PathSumIgnores(reg: Registry, ts: seq<TypeId>, i: nat, avail: set<nat>)
    requires forall b :: b in ts ==> Avoids(reg, b, i)
    ensures PathSum(reg, ts, avail) == PathSum(reg, ts, avail - {i})
    decreases |avail|, |ts|
  {
    if ts != [] {
      PathCountIgnores(reg, ts[0], i, avail);
      PathSumIgnores(reg, ts[1..], i, avail);
    }
  }

  lemma {:induction false} PathSumAppend(reg: Registry, a: seq<TypeId>, b: seq<TypeId>, avail: set<nat>)
    ensures PathSum(reg, a + b, avail) == PathSum(reg, a, avail) + PathSum(reg, b, avail)
    decreases |a|
  {
    if a == [] {
      assert a + b == b;
    } else {
      PathSumAppend(reg, a[1..], b, avail);
      assert (a + b)[1..] == a[1..] + b;
    }
  }

  /** A type that is on no cycle outweighs all its bases together: replacing it by
      its bases makes the worklist lighter, diamonds included. */
  lemma BasesWeighLess(reg: Registry, t: TypeId)
    requires !OnCycle(reg, t)
    ensures PathSum(reg, DirectBases(reg, t), Entries(reg)) < PathCount(reg, t, Entries(reg))
  {
    if t.index in Entries(reg) {
      forall b | b in DirectBases(reg, t) ensures Avoids(reg, b, t.index) {
        DerivesDirect(reg, t, b);
        forall x | DerivesFrom(reg, b, x) ensures x.index != t.index { DerivesPrepend(reg, t, b, x); }
      }
      PathSumIgnores(reg, DirectBases(reg, t), t.index, Entries(reg));
    } else {
      CanonicalStaysOutside(reg, t);
    }
  }

  lemma CanonicalStaysOutside(reg: Registry, t: TypeId)
    requires t.index !in Entries(reg)
    ensures BaseClasses(reg, t) == []
  {
  }

  // ---- the worklist -----------------------------------------------------------

  ghost predicate OnTheWay(reg: Registry, b: TypeId, target: TypeId) {
    b == target || DerivesFrom(reg, b, target)
  }

  /** Everything pending is a base of `from`, and if `to` is one, some pending
      type is on the way to it. */
  ghost predicate Frontier(reg: Registry, from: TypeId, to: TypeId, canon: seq<TypeId>) {
    && (forall b :: b in canon ==> DerivesFrom(reg, from, b))
    && (DerivesFrom(reg, from, to) ==> exists b :: b in canon && OnTheWay(reg, b, to))
  }

  lemma FrontierStart(reg: Registry, from: TypeId, to: TypeId)
    ensures Frontier(reg, from, to, DirectBases(reg, from))
  {
    if DerivesFrom(reg, from, to) { var b := DerivesFirstStep(reg, from, to); }
    forall b | b in DirectBases(reg, from) ensures DerivesFrom(reg, from, b) {
      DerivesDirect(reg, from, b);
    }
  }

  lemma FrontierEmpty(reg: Registry, from: TypeId, to: TypeId)
    requires Frontier(reg, from, to, CanonicalAll(reg, []))
    ensures !DerivesFrom(reg, from, to)
  {
  }

  lemma FrontierMember(reg: Registry, from: TypeId, to: TypeId, kept: seq<TypeId>, b: TypeId)
    requires Frontier(reg, from, to, kept + [b])
    ensures DerivesFrom(reg, from, b)
  {
  }

  lemma CanonicalAllSplit(reg: Registry, a: seq<TypeId>, b: seq<TypeId>)
    ensures CanonicalAll(reg, a + b) == CanonicalAll(reg, a) + CanonicalAll(reg, b)
  {
  }

  /** Expanding the popped type keeps the frontier, cycles or not. */
  lemma FrontierStep(reg: Registry, from: TypeId, to: TypeId, kept: seq<TypeId>, b: TypeId)
    requires Frontier(reg, from, to, kept + [b]) && b != to
    ensures Frontier(reg, from, to, kept + DirectBases(reg, b))
  {
    var bases := DirectBases(reg, b);
    assert b in kept + [b];
    forall c | c in bases ensures DerivesFrom(reg, from, c) { DerivesThen(reg, from, b, c); }
    if DerivesFrom(reg, from, to) {
      var w :| w in kept + [b] && OnTheWay(reg, w, to);
      if w in kept {
        assert w in kept + bases;
      } else {
        var c := DerivesFirstStep(reg, b, to);
        assert c in kept + bases;
      }
    }
  }

  /** One round that misses the target. */
  function Expand(reg: Registry, canon: seq<TypeId>): seq<TypeId>
    requires canon != []
  {
    canon[..|canon| - 1] + DirectBases(reg, canon[|canon| - 1])
  }

  /** The canonical worklist after `n` rounds that look for nothing. */
  function Rounds(reg: Registry, canon: seq<TypeId>, n: nat): seq<TypeId>
    decreases n
  {
    if n == 0 || canon == [] then canon else Rounds(reg, Expand(reg, canon), n - 1)
  }

  lemma ExpandAbove(reg: Registry, kept: seq<TypeId>, top: seq<TypeId>)
    requires top != []
    ensures Expand(reg, kept + top) == kept + Expand(reg, top)
  {
    assert (kept + top)[..|kept + top| - 1] == kept + top[..|top| - 1];
  }

  lemma ExpandLast(reg: Registry, kept: seq<TypeId>, b: TypeId)
    ensures Expand(reg, kept + [b]) == kept + DirectBases(reg, b)
  {
    assert (kept + [b])[..|kept|] == kept;
  }

  /** The loop is left: nothing is pending, or the target is on top. */
  predicate Stops(canon: seq<TypeId>, to: TypeId) {
    canon == [] || canon[|canon| - 1] == to
  }

  ghost predicate Ends(reg: Registry, canon: seq<TypeId>, to: TypeId) {
    exists n: nat :: Stops(Rounds(reg, canon, n), to)
  }

  /** The search from `from` for `to` comes to an end. */
  ghost predicate SearchEnds(reg: Registry, from: TypeId, to: TypeId) {
    Ends(reg, DirectBases(reg, from), to)
  }

  lemma {:induction false} RoundsThen(reg: Registry, canon: seq<TypeId>, n: nat)
    ensures Rounds(reg, canon, n + 1) == Rounds(reg, Rounds(reg, canon, n), 1)
    decreases n
  {
    if n > 0 && canon != [] {
      RoundsThen(reg, Expand(reg, canon), n - 1);
    }
  }

  /** The loop invariant: `pending`, canonicalised, is the worklist after `n` rounds. */
  ghost predicate Searching(reg: Registry, from: TypeId, to: TypeId, pending: seq<TypeId>, n: nat) {
    && Frontier(reg, from, to, CanonicalAll(reg, pending))
    && CanonicalAll(reg, pending) == Rounds(reg, DirectBases(reg, from), n)
  }

  lemma SearchRound(reg: Registry, from: TypeId, to: TypeId, pending: seq<TypeId>, top: TypeId, n: nat)
    requires Searching(reg, from, to, pending + [top], n)
    ensures var b := Canonical(reg, top);
            if b == to then DerivesFrom(reg, from, to)
            else Searching(reg, from, to, pending + BaseClasses(reg, b), n + 1)
                 && !Stops(Rounds(reg, DirectBases(reg, from), n), to)
  {
    var kept, b := CanonicalAll(reg, pending), Canonical(reg, top);
    CanonicalAllSplit(reg, pending, [top]);
    assert CanonicalAll(reg, [top]) == [b];
    if b == to {
      FrontierMember(reg, from, to, kept, b);
    } else {
      FrontierStep(reg, from, to, kept, b);
      CanonicalAllSplit(reg, pending, BaseClasses(reg, b));
      RoundsThen(reg, DirectBases(reg, from), n);
      ExpandLast(reg, kept, b);
      assert Rounds(reg, kept + [b], 1) == Expand(reg, kept + [b]);
    }
  }

  lemma SearchStart(reg: Registry, from: TypeId, to: TypeId) returns (last: nat)
    requires SearchEnds(reg, from, to)
    ensures Searching(reg, from, to, BaseClasses(reg, from), 0) && Stops(Rounds(reg, DirectBases(reg, from), last), to)
  {
    FrontierStart(reg, from, to);
    last :| Stops(Rounds(reg, DirectBases(reg, from), last), to);
  }

  lemma SearchExhausted(reg: Registry, from: TypeId, to: TypeId, n: nat)
    requires Searching(reg, from, to, [], n)
    ensures !DerivesFrom(reg, from, to)
  {
    FrontierEmpty(reg, from, to);
  }

  /** True exactly when `to` is a proper base of `from`; `pending` is a stack of
      ids not yet looked at. */
  method SearchBases(reg: Registry, from: TypeId, to: TypeId) returns (found: bool)
    requires SearchEnds(reg, from, to)
    ensures found <==> DerivesFrom(reg, from, to)
  {
    var pending := BaseClasses(reg, from);
    ghost var last := SearchStart(reg, from, to);
    ghost var n: nat := 0;
    while pending != []
      invariant n <= last && Searching(reg, from, to, pending, n)
      decreases last - n
    {
      ghost var before := pending;
      var top := pending[|pending| - 1];
      var b := Canonical(reg, top);
      pending := pending[..|pending| - 1];
      assert before == pending + [top];
      SearchRound(reg, from, to, pending, top, n);
      if b == to {
        return true;
      }
      pending := pending + BaseClasses(reg, b);
      n := n + 1;
    }
    SearchExhausted(reg, from, to, n);
    return false;
  }

  // ---- when the search ends ------------------------------------------------------

  /** Nothing on or above the type lies on a cycle. */
  ghost predicate Sound(reg: Registry, b: TypeId) {
    !OnCycle(reg, b) && AcyclicBelow(reg, b)
  }

  ghost predicate AllSound(reg: Registry, canon: seq<TypeId>) {
    forall b :: b in canon ==> Sound(reg, b)
  }

  /** Types with the same registry entry have the same bases. */
  lemma SameIndexSameBases(reg: Registry, x: TypeId, y: TypeId)
    requires x.index == y.index
    ensures DirectBases(reg, x) == DirectBases(reg, y)
  {
  }

  /** A type is sound exactly when all its bases are: a cycle through the type shows
      on the base it passes. */
  lemma SoundFromBases(reg: Registry, b: TypeId)
    ensures Sound(reg, b) <==> AllSound(reg, DirectBases(reg, b))
    ensures AcyclicBelow(reg, b) <==> AllSound(reg, DirectBases(reg, b))
  {
    if AllSound(reg, DirectBases(reg, b)) {
      forall x | OnTheWay(reg, b, x) ensures !OnCycle(reg, x) { CycleShows(reg, b, x); }
      assert OnTheWay(reg, b, b);
    }
    if AcyclicBelow(reg, b) {
      forall c | c in DirectBases(reg, b) ensures Sound(reg, c) {
        DerivesDirect(reg, b, c);
        forall x | DerivesFrom(reg, c, x) ensures !OnCycle(reg, x) { DerivesPrepend(reg, b, c, x); }
      }
    }
  }

  lemma CycleShows(reg: Registry, b: TypeId, x: TypeId)
    requires AllSound(reg, DirectBases(reg, b)) && OnTheWay(reg, b, x)
    ensures !OnCycle(reg, x)
  {
    if x == b {
      forall y | DerivesFrom(reg, b, y) ensures y.index != b.index {
        if y.index == b.index { CycleOnBase(reg, b, y); }
      }
    } else {
      var c := DerivesFirstStep(reg, b, x);
    }
  }

  lemma CycleOnBase(reg: Registry, b: TypeId, y: TypeId)
    requires DerivesFrom(reg, b, y) && y.index == b.index
    ensures !AllSound(reg, DirectBases(reg, b))
  {
    SameIndexSameBases(reg, b, y);
    var c := DerivesFirstStep(reg, b, y);
    if c == y { DerivesDirect(reg, y, y); } else { DerivesPrepend(reg, y, c, y); }
    assert OnCycle(reg, y) && OnTheWay(reg, c, y);
  }

  /** Sound types are worked off. */
  lemma {:induction false} SoundEmpties(reg: Registry, canon: seq<TypeId>) returns (n: nat)
    requires AllSound(reg, canon)
    ensures Rounds(reg, canon, n) == []
    decreases PathSum(reg, canon, Entries(reg))
  {
    if canon == [] {
      n := 0;
    } else {
      var kept, b := canon[..|canon| - 1], canon[|canon| - 1];
      SoundRound(reg, kept, b);
      assert canon == kept + [b];
      n := SoundEmpties(reg, Expand(reg, canon));
      n := n + 1;
    }
  }

  lemma SoundRound(reg: Registry, kept: seq<TypeId>, b: TypeId)
    requires AllSound(reg, kept + [b])
    ensures AllSound(reg, Expand(reg, kept + [b]))
    ensures PathSum(reg, Expand(reg, kept + [b]), Entries(reg)) < PathSum(reg, kept + [b], Entries(reg))
  {
    assert b in kept + [b] && forall c :: c in kept ==> c in kept + [b];
    ExpandLast(reg, kept, b);
    PathSumAppend(reg, kept, [b], Entries(reg));
    PathSumAppend(reg, kept, DirectBases(reg, b), Entries(reg));
    assert [b][1..] == [];
    BasesWeighLess(reg, b);
    SoundFromBases(reg, b);
  }

  lemma SoundBeforeRound(reg: Registry, canon: seq<TypeId>)
    requires canon != [] && AllSound(reg, Expand(reg, canon))
    ensures AllSound(reg, canon)
  {
    var kept, b := canon[..|canon| - 1], canon[|canon| - 1];
    assert forall c :: c in kept || c in DirectBases(reg, b) ==> c in Expand(reg, canon);
    SoundFromBases(reg, b);
    assert canon == kept + [b];
  }

  /** Only sound types are worked off. */
  lemma {:induction false} EmptiedIsSound(reg: Registry, canon: seq<TypeId>, n: nat)
    requires Rounds(reg, canon, n) == []
    ensures AllSound(reg, canon)
    decreases n
  {
    if canon != [] {
      EmptiedIsSound(reg, Expand(reg, canon), n - 1);
      SoundBeforeRound(reg, canon);
    }
  }

  /** The worklist runs empty exactly when nothing above the source lies on a cycle. */
  lemma EmptiesIff(reg: Registry, from: TypeId)
    ensures (exists n: nat :: Rounds(reg, DirectBases(reg, from), n) == []) <==> AcyclicBelow(reg, from)
  {
    SoundFromBases(reg, from);
    if AcyclicBelow(reg, from) {
      var n := SoundEmpties(reg, DirectBases(reg, from));
    } else {
      forall n: nat ensures Rounds(reg, DirectBases(reg, from), n) != [] {
        if Rounds(reg, DirectBases(reg, from), n) == [] { EmptiedIsSound(reg, DirectBases(reg, from), n); }
      }
    }
  }

  /** Working from the end of the list, the search comes to `to` along `via` and
      passes only sound types before. */
  ghost predicate Meets(reg: Registry, canon: seq<TypeId>, via: seq<TypeId>, to: TypeId)
    decreases |via|, 1
  {
    exists i :: MeetsAt(reg, canon, i, via, to)
  }

  ghost predicate MeetsAt(reg: Registry, canon: seq<TypeId>, i: int, via: seq<TypeId>, to: TypeId)
    decreases |via|, 0
  {
    && 0 <= i < |canon| && AllSound(reg, canon[i + 1..])
    && if via == [] then canon[i] == to
       else canon[i] == via[0] && Meets(reg, DirectBases(reg, via[0]), via[1..], to)
  }

  lemma EndsAfterRound(reg: Registry, canon: seq<TypeId>, to: TypeId)
    requires canon != [] && Ends(reg, Expand(reg, canon), to)
    ensures Ends(reg, canon, to)
  {
    var n: nat :| Stops(Rounds(reg, Expand(reg, canon), n), to);
    assert Stops(Rounds(reg, canon, n + 1), to);
  }

  lemma EndsOnTop(reg: Registry, canon: seq<TypeId>, to: TypeId)
    requires canon != [] && canon[|canon| - 1] == to
    ensures Ends(reg, canon, to)
  {
    assert Stops(Rounds(reg, canon, 0), to);
  }

  /** Sound types on top of the stack do not keep the search from ending. */
  lemma {:induction false} EndsBelowSound(reg: Registry, kept: seq<TypeId>, top: seq<TypeId>, to: TypeId, n: nat)
    requires Rounds(reg, top, n) == [] && Ends(reg, kept, to)
    ensures Ends(reg, kept + top, to)
    decreases n
  {
    if top == [] {
      assert kept + top == kept;
    } else if top[|top| - 1] == to {
      EndsOnTop(reg, kept + top, to);
    } else {
      EndsBelowSound(reg, kept, Expand(reg, top), to, n - 1);
      ExpandAbove(reg, kept, top);
      EndsAfterRound(reg, kept + top, to);
    }
  }

  lemma {:induction false} MeetsEnds(reg: Registry, kept: seq<TypeId>, canon: seq<TypeId>, via: seq<TypeId>, to: TypeId)
    requires Meets(reg, canon, via, to)
    ensures Ends(reg, kept + canon, to)
    decreases |via|
  {
    var i :| MeetsAt(reg, canon, i, via, to);
    var below, b := kept + canon[..i], canon[i];
    if via == [] {
      EndsOnTop(reg, below + [b], to);
    } else {
      MeetsEnds(reg, below, DirectBases(reg, b), via[1..], to);
      ExpandLast(reg, below, b);
      EndsAfterRound(reg, below + [b], to);
    }
    var n := SoundEmpties(reg, canon[i + 1..]);
    EndsBelowSound(reg, below + [b], canon[i + 1..], to, n);
    assert below + [b] + canon[i + 1..] == kept + canon;
  }

  /** Where the search ends, it has worked off sound types only or has met the
      target behind sound types. */
  lemma {:induction false} EndsMeets(reg: Registry, canon: seq<TypeId>, to: TypeId, n: nat)
    requires Stops(Rounds(reg, canon, n), to)
    ensures AllSound(reg, canon) || exists via :: Meets(reg, canon, via, to)
    decreases n
  {
    if canon == [] {
    } else if canon[|canon| - 1] == to {
      assert canon[|canon|..] == [];
      assert MeetsAt(reg, canon, |canon| - 1, [], to);
      assert Meets(reg, canon, [], to);
    } else {
      var next := Expand(reg, canon);
      EndsMeets(reg, next, to, n - 1);
      if AllSound(reg, next) {
        SoundBeforeRound(reg, canon);
      } else {
        var via :| Meets(reg, next, via, to);
        MeetsBeforeRound(reg, canon, via, to);
      }
    }
  }

  lemma MeetsBeforeRound(reg: Registry, canon: seq<TypeId>, via: seq<TypeId>, to: TypeId)
    requires canon != [] && Meets(reg, Expand(reg, canon), via, to)
    ensures exists v :: Meets(reg, canon, v, to)
  {
    var next, top := Expand(reg, canon), |canon| - 1;
    var b := canon[top];
    var bases := DirectBases(reg, b);
    var i :| MeetsAt(reg, next, i, via, to);
    if i < top {
      var rest := canon[i + 1..];
      assert rest[..|rest| - 1] == canon[..top][i + 1..];
      assert next[i + 1..] == canon[..top][i + 1..] + bases;
      assert Expand(reg, rest) == next[i + 1..];
      SoundBeforeRound(reg, rest);
      assert MeetsAt(reg, canon, i, via, to);
      assert Meets(reg, canon, via, to);
    } else {
      assert bases[i - top + 1..] == next[i + 1..];
      assert MeetsAt(reg, bases, i - top, via, to);
      assert ([b] + via)[1..] == via && canon[top + 1..] == [];
      assert MeetsAt(reg, canon, top, [b] + via, to);
      assert Meets(reg, canon, [b] + via, to);
    }
  }

  /** The exact condition for the search to end: nothing above the source lies on a
      cycle, or depth first from the last base on, the target comes before every type
      that is on or below a cycle. */
  lemma SearchEndsIff(reg: Registry, from: TypeId, to: TypeId)
    ensures SearchEnds(reg, from, to) <==>
            AcyclicBelow(reg, from) || exists via :: Meets(reg, DirectBases(reg, from), via, to)
  {
    var start := DirectBases(reg, from);
    SoundFromBases(reg, from);
    if SearchEnds(reg, from, to) {
      var n: nat :| Stops(Rounds(reg, start, n), to);
      EndsMeets(reg, start, to, n);
    }
    if AcyclicBelow(reg, from) {
      var n := SoundEmpties(reg, start);
      assert Stops(Rounds(reg, start, n), to);
    }
    forall via | Meets(reg, start, via, to) ensures SearchEnds(reg, from, to) {
      MeetsEnds(reg, [], start, via, to);
      assert [] + start == start;
    }
  }

  lemma {:induction false} MeetsIsPath(reg: Registry, from: TypeId, via: seq<TypeId>, to: TypeId)
    requires Meets(reg, DirectBases(reg, from), via, to)
    ensures BasePath(reg, from, via, to)
    decreases |via|
  {
    if via != [] {
      MeetsIsPath(reg, via[0], via[1..], to);
    }
  }

  /** A target that is no base is searched for in vain exactly on cycle-free ground. */
  lemma AbsentTargetEnds(reg: Registry, from: TypeId, to: TypeId)
    requires !DerivesFrom(reg, from, to)
    ensures SearchEnds(reg, from, to) <==> AcyclicBelow(reg, from)
  {
    SearchEndsIff(reg, from, to);
    forall via | Meets(reg, DirectBases(reg, from), via, to) ensures DerivesFrom(reg, from, to) {
      MeetsIsPath(reg, from, via, to);
    }
  }

  // ---- a cycle that registers ------------------------------------------------------

  const FORWARD: TypeId := TypeId(TypeKind(ClassDefs, 0, 0), 1 + BUILTIN_COUNT, 0)
  const DERIVED: TypeId := TypeId(TypeKind(ClassDefs, 0, 0), 2 + BUILTIN_COUNT, 0)

  /** A class is declared, a second one is defined with the first as its base, and
      then the first is defined with the second as its base. */
  const MUTUAL: Registry := RegistryData([Descriptor(INVALID, [DERIVED], None), Descriptor(INVALID, [FORWARD], None)])

  lemma MutualBases()
    ensures DirectBases(MUTUAL, FORWARD) == [DERIVED] && DirectBases(MUTUAL, DERIVED) == [FORWARD]
  {
  }

  lemma {:induction false} MutualRounds(canon: seq<TypeId>, n: nat)
    requires canon == [FORWARD] || canon == [DERIVED]
    ensures Rounds(MUTUAL, canon, n) == [FORWARD] || Rounds(MUTUAL, canon, n) == [DERIVED]
    decreases n
  {
    if n > 0 {
      MutualBases();
      assert Expand(MUTUAL, canon) == DirectBases(MUTUAL, canon[0]);
      MutualRounds(Expand(MUTUAL, canon), n - 1);
    }
  }

  /** Converting such a class to anything but the two of them never ends. */
  lemma MutualBasesNeverEnd(to: TypeId)
    ensures SearchEnds(MUTUAL, DERIVED, to) <==> to == FORWARD || to == DERIVED
  {
    MutualBases();
    forall n: nat ensures Stops(Rounds(MUTUAL, [FORWARD], n), to) ==> to == FORWARD || to == DERIVED {
      MutualRounds([FORWARD], n);
    }
    EndsOnTop(MUTUAL, [FORWARD], FORWARD);
    EndsOnTop(MUTUAL, [DERIVED], DERIVED);
    assert Expand(MUTUAL, [FORWARD]) == [DERIVED];
    EndsAfterRound(MUTUAL, [FORWARD], DERIVED);
  }
}

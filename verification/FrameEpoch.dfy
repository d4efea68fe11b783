/** Per-scope mutation epochs: a stack of lexical frames, each with the names it
    declares and, for each name, how often it was mutated and where last. */
module FrameEpoch {
  import opened Types
  import opened Location

  datatype Frame = Frame(declared: set<string>, epoch: map<string, nat>, changeSite: map<string, Range>)

  const EMPTY: Frame := Frame({}, map[], map[])

  // ---- the state machine, on values ------------------------------------------------------

  /** Index of the innermost frame declaring the name, else the global frame. */
  function FrameOf(frames: seq<Frame>, name: string): nat
    requires frames != []
    ensures FrameOf(frames, name) < |frames|
  {
    if |frames| == 1 || name in frames[|frames| - 1].declared then |frames| - 1
    else FrameOf(frames[..|frames| - 1], name)
  }

  function EpochIn(f: Frame, name: string): nat {
    if name in f.epoch then f.epoch[name] else 0
  }

  function SiteIn(f: Frame, name: string): Option<Range> {
    if name in f.changeSite then Some(f.changeSite[name]) else None
  }

  function Bump(f: Frame, name: string, range: Range): Frame {
    f.(epoch := f.epoch[name := EpochIn(f, name) + 1], changeSite := f.changeSite[name := range])
  }

  predicate Declarable(name: string) {
    name != "" && name != "_"
  }

  /** `Bind` is a binding the tracker is not told of: a parameter of a function or a
      lambda, for one. */
  datatype Op = Push | Pop | Declare(name: string) | Bind(name: string) | Mutate(name: string, range: Range)

  function Step(frames: seq<Frame>, op: Op): (r: seq<Frame>)
    requires frames != []
    ensures r != []
  {
    var top := |frames| - 1;
    match op
    case Push => frames + [EMPTY]
    case Pop => if |frames| > 1 then frames[..top] else frames
    case Declare(name) =>
      if Declarable(name) then frames[top := frames[top].(declared := frames[top].declared + {name})] else frames
    case Bind(_) => frames
    case Mutate(name, range) =>
      if name == "" then frames
      else var i := FrameOf(frames, name); frames[i := Bump(frames[i], name, range)]
  }

  function Run(frames: seq<Frame>, ops: seq<Op>): (r: seq<Frame>)
    requires frames != []
    ensures r != []
  {
    if ops == [] then frames else Step(Run(frames, ops[..|ops| - 1]), ops[|ops| - 1])
  }

  // ---- the class ---------------------------------------------------------------------------

  class Epochs {
    var frames: seq<Frame>

    ghost predicate Valid()
      reads this
    {
      frames != []
    }

    constructor ()
      ensures Valid() && frames == [EMPTY]
    {
      frames := [EMPTY];
    }

    method Push()
      requires Valid()
      modifies this
      ensures Valid() && frames == Step(old(frames), Op.Push)
    {
      frames := frames + [EMPTY];
    }

    method Pop()
      requires Valid()
      modifies this
      ensures Valid() && frames == Step(old(frames), Op.Pop)
    {
      if |frames| > 1 {
        frames := frames[..|frames| - 1];
      }
    }

    method Declare(name: string)
      requires Valid()
      modifies this
      ensures Valid() && frames == Step(old(frames), Op.Declare(name))
    {
      if name == "" || name == "_" {
        return;
      }
      var top := |frames| - 1;
      frames := frames[top := frames[top].(declared := frames[top].declared + {name})];
    }

    /** Scans from the innermost frame outwards. */
    method FindFrame(name: string) returns (i: nat)
      requires Valid()
      ensures i == FrameOf(frames, name) && i < |frames|
    {
      var n := |frames|;
      assert frames[..n] == frames;
      while n > 0
        invariant 0 <= n <= |frames|
        invariant n > 0 ==> FrameOf(frames[..n], name) == FrameOf(frames, name)
        invariant n == 0 ==> FrameOf(frames, name) == 0
      {
        assert frames[..n][..n - 1] == frames[..n - 1];
        if name in frames[n - 1].declared {
          return n - 1;
        }
        n := n - 1;
      }
      return 0;
    }

    method Mutate(name: string, range: Range)
      requires Valid()
      modifies this
      ensures Valid() && frames == Step(old(frames), Op.Mutate(name, range))
    {
      if name == "" {
        return;
      }
      var i := FindFrame(name);
      frames := frames[i := Bump(frames[i], name, range)];
    }

    method EpochOf(name: string) returns (e: nat)
      requires Valid()
      ensures e == EpochIn(frames[FrameOf(frames, name)], name)
    {
      var i := FindFrame(name);
      e := EpochIn(frames[i], name);
    }

    method ChangeSiteOf(name: string) returns (r: Option<Range>)
      requires Valid()
      ensures r == SiteIn(frames[FrameOf(frames, name)], name)
    {
      var i := FindFrame(name);
      r := SiteIn(frames[i], name);
    }
  }

  /** The class runs through exactly the states of the state machine. */
  method Replay(ops: seq<Op>) returns (e: Epochs)
    ensures fresh(e) && e.Valid() && e.frames == Run([EMPTY], ops)
  {
    e := new Epochs();
    for i := 0 to |ops|
      invariant fresh(e) && e.Valid() && e.frames == Run([EMPTY], ops[..i])
    {
      assert ops[..i + 1][..i] == ops[..i];
      match ops[i]
      case Push => e.Push();
      case Pop => e.Pop();
      case Declare(name) => e.Declare(name);
      case Bind(_) =>
      case Mutate(name, range) => e.Mutate(name, range);
    }
    assert ops[..|ops|] == ops;
  }

  // ---- reference semantics: a history of mutations -------------------------------------------

  /** One mutation, charged to the frame instance that was resolved at the time. */
  datatype Event = Event(frame: nat, name: string, range: Range)

  /** A frame instance is identified by the number of frames opened before it, so a
      closed frame's number is never used again. */
  datatype Scope = Scope(id: nat, declared: set<string>)

  datatype History = History(scopes: seq<Scope>, nextId: nat, log: seq<Event>)

  const START: History := History([Scope(0, {})], 1, [])

  /** The instance a name belongs to now. */
  function Resolve(scopes: seq<Scope>, name: string): nat
    requires scopes != []
  {
    var last := scopes[|scopes| - 1];
    if |scopes| == 1 || name in last.declared then last.id else Resolve(scopes[..|scopes| - 1], name)
  }

  function Record(h: History, op: Op): (r: History)
    requires h.scopes != []
    ensures r.scopes != []
  {
    var top := |h.scopes| - 1;
    match op
    case Push => History(h.scopes + [Scope(h.nextId, {})], h.nextId + 1, h.log)
    case Pop => if |h.scopes| > 1 then h.(scopes := h.scopes[..top]) else h
    case Declare(name) =>
      if Declarable(name) then
        h.(scopes := h.scopes[top := h.scopes[top].(declared := h.scopes[top].declared + {name})])
      else h
    case Bind(_) => h
    case Mutate(name, range) =>
      if name == "" then h else h.(log := h.log + [Event(Resolve(h.scopes, name), name, range)])
  }

  function HistoryOf(ops: seq<Op>): (h: History)
    ensures h.scopes != []
  {
    if ops == [] then START else Record(HistoryOf(ops[..|ops| - 1]), ops[|ops| - 1])
  }

  /** Mutations of `name` charged to one frame instance. */
  function Charged(log: seq<Event>, id: nat, name: string): seq<Range> {
    if log == [] then []
    else
      var e := log[|log| - 1];
      Charged(log[..|log| - 1], id, name) + (if e.frame == id && e.name == name then [e.range] else [])
  }

  function LastOf(rs: seq<Range>): Option<Range> {
    if rs == [] then None else Some(rs[|rs| - 1])
  }

  /** Frame `f` stores, for every name, what the log charges to instance `id`. */
  ghost predicate Counts(f: Frame, id: nat, log: seq<Event>) {
    forall name :: EpochIn(f, name) == |Charged(log, id, name)| && SiteIn(f, name) == LastOf(Charged(log, id, name))
  }

  ghost predicate Mirrors(frames: seq<Frame>, h: History) {
    && |frames| == |h.scopes| && frames != []
    && (forall i :: 0 <= i < |frames| ==>
          && frames[i].declared == h.scopes[i].declared
          && h.scopes[i].id < h.nextId
          && Counts(frames[i], h.scopes[i].id, h.log))
    && (forall i, j :: 0 <= i < j < |frames| ==> h.scopes[i].id < h.scopes[j].id)
    && (forall e :: e in h.log ==> e.frame < h.nextId)
  }

  lemma {:induction false} ResolveIsFrame(frames: seq<Frame>, scopes: seq<Scope>, name: string)
    requires |frames| == |scopes| && frames != []
    requires forall i :: 0 <= i < |frames| ==> frames[i].declared == scopes[i].declared
    ensures Resolve(scopes, name) == scopes[FrameOf(frames, name)].id
  {
    if |frames| > 1 && name !in frames[|frames| - 1].declared {
      ResolveIsFrame(frames[..|frames| - 1], scopes[..|scopes| - 1], name);
    }
  }

  lemma {:induction false} NothingCharged(log: seq<Event>, id: nat, name: string)
    requires forall e :: e in log ==> e.frame < id
    ensures Charged(log, id, name) == []
  {
    if log != [] {
      NothingCharged(log[..|log| - 1], id, name);
      assert log[|log| - 1] in log;
    }
  }

  lemma CountsAfterEvent(f: Frame, id: nat, log: seq<Event>, e: Event)
    requires Counts(f, id, log)
    ensures e.frame == id ==> Counts(Bump(f, e.name, e.range), id, log + [e])
    ensures e.frame != id ==> Counts(f, id, log + [e])
  {
  }

  lemma MutateMirrors(frames: seq<Frame>, h: History, name: string, range: Range)
    requires Mirrors(frames, h) && name != ""
    ensures Mirrors(Step(frames, Mutate(name, range)), Record(h, Mutate(name, range)))
  {
    ResolveIsFrame(frames, h.scopes, name);
    var i := FrameOf(frames, name);
    var e := Event(h.scopes[i].id, name, range);
    var next := Step(frames, Mutate(name, range));
    assert Record(h, Mutate(name, range)) == h.(log := h.log + [e]);
    assert next == frames[i := Bump(frames[i], name, range)];
    forall j | 0 <= j < |frames| ensures Counts(next[j], h.scopes[j].id, h.log + [e]) {
      CountsAfterEvent(frames[j], h.scopes[j].id, h.log, e);
      if j < i {
        assert h.scopes[j].id < h.scopes[i].id;
      } else if i < j {
        assert h.scopes[i].id < h.scopes[j].id;
      }
    }
  }

  lemma PushMirrors(frames: seq<Frame>, h: History)
    requires Mirrors(frames, h)
    ensures Mirrors(Step(frames, Push), Record(h, Push))
  {
    forall name ensures Charged(h.log, h.nextId, name) == [] { NothingCharged(h.log, h.nextId, name); }
    assert Counts(EMPTY, h.nextId, h.log);
  }

  lemma StepMirrors(frames: seq<Frame>, h: History, op: Op)
    requires Mirrors(frames, h)
    ensures Mirrors(Step(frames, op), Record(h, op))
  {
    match op
    case Push => PushMirrors(frames, h);
    case Pop =>
    case Declare(name) =>
    case Bind(_) =>
    case Mutate(name, range) => if name != "" { MutateMirrors(frames, h, name, range); }
  }

  lemma {:induction false} RunMirrors(ops: seq<Op>)
    ensures Mirrors(Run([EMPTY], ops), HistoryOf(ops))
  {
    if ops == [] {
      assert Counts(EMPTY, 0, []);
    } else {
      RunMirrors(ops[..|ops| - 1]);
      StepMirrors(Run([EMPTY], ops[..|ops| - 1]), HistoryOf(ops[..|ops| - 1]), ops[|ops| - 1]);
    }
  }

  /** After every run the epoch of a name is the number of past mutations of it that
      were charged to the frame instance it belongs to now, and its change site is
      the last of them, present exactly when there was one. */
  lemma EpochRefinesHistory(ops: seq<Op>, name: string)
    ensures var frames := Run([EMPTY], ops);
            var h := HistoryOf(ops);
            var charged := Charged(h.log, Resolve(h.scopes, name), name);
            var f := frames[FrameOf(frames, name)];
            EpochIn(f, name) == |charged| && SiteIn(f, name) == LastOf(charged)
  {
    RunMirrors(ops);
    ResolveIsFrame(Run([EMPTY], ops), HistoryOf(ops).scopes, name);
  }

  /** A declared name is found in the innermost frame; the empty name and the
      placeholder are not declared. */
  lemma DeclareEffect(frames: seq<Frame>, name: string)
    requires frames != []
    ensures name == "" || name == "_" ==> Step(frames, Declare(name)) == frames
    ensures name != "" && name != "_" ==> FrameOf(Step(frames, Declare(name)), name) == |frames| - 1
    ensures forall other :: other != name ==> FrameOf(Step(frames, Declare(name)), other) == FrameOf(frames, other)
  {
    forall other | other != name ensures FrameOf(Step(frames, Declare(name)), other) == FrameOf(frames, other) {
      if Declarable(name) { OtherFrame(frames, name, other); }
    }
  }

  lemma OtherFrame(frames: seq<Frame>, name: string, other: string)
    requires frames != [] && other != name && Declarable(name)
    ensures FrameOf(Step(frames, Declare(name)), other) == FrameOf(frames, other)
  {
    var top := |frames| - 1;
    assert Step(frames, Declare(name))[..top] == frames[..top];
  }

  /** A mutation raises the epoch of its name by one and notes its site, in the frame
      the name means, and changes nothing else. */
  lemma MutateEffect(frames: seq<Frame>, name: string, range: Range)
    requires frames != [] && name != ""
    ensures var next, i := Step(frames, Mutate(name, range)), FrameOf(frames, name);
            && |next| == |frames| && (forall j :: 0 <= j < |frames| && j != i ==> next[j] == frames[j])
            && EpochIn(next[i], name) == EpochIn(frames[i], name) + 1 && SiteIn(next[i], name) == Some(range)
            && next[i].declared == frames[i].declared
            && forall other :: other != name ==>
                 EpochIn(next[i], other) == EpochIn(frames[i], other) && SiteIn(next[i], other) == SiteIn(frames[i], other)
  {
  }

  // ---- blocks ----------------------------------------------------------------------------------

  function Level(ops: seq<Op>): int {
    if ops == [] then 0
    else
      Level(ops[..|ops| - 1]) +
      (match ops[|ops| - 1] case Push => 1 case Pop => -1 case _ => 0)
  }

  /** Never closes a scope it did not open. */
  predicate StaysInside(ops: seq<Op>) {
    ops == [] || (StaysInside(ops[..|ops| - 1]) && Level(ops) >= 0)
  }

  /** Closes exactly the scopes it opens. */
  predicate Balanced(ops: seq<Op>) {
    StaysInside(ops) && Level(ops) == 0
  }

  lemma {:induction false} LevelInside(ops: seq<Op>)
    ensures Level([Push] + ops) == 1 + Level(ops)
    ensures StaysInside(ops) ==> StaysInside([Push] + ops)
  {
    if ops == [] {
      assert [Push] + ops == [Push] && [Push][..0] == [];
    } else {
      LevelInside(ops[..|ops| - 1]);
      assert ([Push] + ops)[..|ops|] == [Push] + ops[..|ops| - 1];
    }
  }

  lemma {:induction false} LevelAppend(a: seq<Op>, b: seq<Op>)
    ensures Level(a + b) == Level(a) + Level(b)
    ensures StaysInside(a) && StaysInside(b) && Level(a) >= 0 ==> StaysInside(a + b)
  {
    if b == [] {
      assert a + b == a;
    } else {
      LevelAppend(a, b[..|b| - 1]);
      assert (a + b)[..|a + b| - 1] == a + b[..|b| - 1];
    }
  }

  /** Blocks are balanced: declarations and mutations in any number, and what is balanced
      side by side or between an opening and its closing. */
  lemma BlocksAreBalanced(a: seq<Op>, b: seq<Op>)
    requires Balanced(a) && Balanced(b)
    ensures Balanced([]) && Balanced(a + b) && Balanced([Push] + a + [Pop])
    ensures forall op: Op :: op.Declare? || op.Bind? || op.Mutate? ==> Balanced(a + [op])
  {
    LevelAppend(a, b);
    LevelInside(a);
    assert ([Push] + a + [Pop])[..|a| + 1] == [Push] + a;
    forall op: Op | op.Declare? || op.Bind? || op.Mutate? ensures Balanced(a + [op]) {
      assert (a + [op])[..|a|] == a;
    }
  }

  predicate Reaches(frames: seq<Frame>, op: Op, i: nat, name: string)
    requires frames != []
  {
    op.Mutate? && op.name == name && name != "" && FrameOf(frames, name) == i
  }

  /** Number of mutations of `name` during the run that resolve to frame `i`. */
  function Hits(frames: seq<Frame>, ops: seq<Op>, i: nat, name: string): nat
    requires frames != []
  {
    if ops == [] then 0
    else
      var init := ops[..|ops| - 1];
      Hits(frames, init, i, name) + (if Reaches(Run(frames, init), ops[|ops| - 1], i, name) then 1 else 0)
  }

  /** The run never closes frame `i`. */
  predicate KeepsOpen(frames: seq<Frame>, ops: seq<Op>, i: nat)
    requires frames != []
  {
    |Run(frames, ops)| > i && (ops == [] || KeepsOpen(frames, ops[..|ops| - 1], i))
  }

  lemma {:induction false} InsideKeepsOpen(frames: seq<Frame>, ops: seq<Op>, i: nat)
    requires StaysInside(ops) && i < |frames|
    ensures KeepsOpen(frames, ops, i) && |Run(frames, ops)| == |frames| + Level(ops)
  {
    if ops != [] {
      InsideKeepsOpen(frames, ops[..|ops| - 1], i);
    }
  }

  /** In a frame that stays open the epochs are raised by the hits and nothing else,
      and declared names stay declared. */
  lemma {:induction false} RaisedByHits(frames: seq<Frame>, ops: seq<Op>, i: nat, name: string)
    requires i < |frames| && KeepsOpen(frames, ops, i)
    ensures var f := Run(frames, ops)[i];
            && EpochIn(f, name) == EpochIn(frames[i], name) + Hits(frames, ops, i, name)
            && frames[i].declared <= f.declared
  {
    if ops != [] {
      RaisedByHits(frames, ops[..|ops| - 1], i, name);
    }
  }

  /** Frames below the innermost one declare the same names throughout. */
  lemma {:induction false} OuterUndisturbed(frames: seq<Frame>, ops: seq<Op>, i: nat)
    requires StaysInside(ops) && i < |frames| - 1
    ensures |Run(frames, ops)| > i && Run(frames, ops)[i].declared == frames[i].declared
  {
    InsideKeepsOpen(frames, ops, i);
    if ops != [] {
      InsideKeepsOpen(frames, ops[..|ops| - 1], i);
      OuterUndisturbed(frames, ops[..|ops| - 1], i);
    }
  }

  predicate SameShape(a: seq<Frame>, b: seq<Frame>) {
    |a| == |b| && forall i :: 0 <= i < |a| ==> a[i].declared == b[i].declared
  }

  lemma {:induction false} SameFrame(a: seq<Frame>, b: seq<Frame>, name: string)
    requires SameShape(a, b) && a != []
    ensures FrameOf(a, name) == FrameOf(b, name)
  {
    if |a| > 1 && name !in a[|a| - 1].declared {
      SameFrame(a[..|a| - 1], b[..|b| - 1], name);
    }
  }

  function EpochNow(frames: seq<Frame>, name: string): nat
    requires frames != []
  {
    EpochIn(frames[FrameOf(frames, name)], name)
  }

  function Block(frames: seq<Frame>, body: seq<Op>): seq<Frame>
    requires frames != []
  {
    Step(Run(Step(frames, Push), body), Pop)
  }

  /** Running a block in a scope of its own restores the depth and what every name
      resolves to, and raises each epoch by exactly the mutations that resolved to
      the surviving frame of that name. */
  lemma BlockEffect(frames: seq<Frame>, body: seq<Op>, name: string)
    requires frames != [] && Balanced(body)
    ensures var r := Block(frames, body);
            |r| == |frames| && FrameOf(r, name) == FrameOf(frames, name)
            && EpochNow(r, name) == EpochNow(frames, name) + Hits(Step(frames, Push), body, FrameOf(frames, name), name)
  {
    var inner := Step(frames, Push);
    var i := FrameOf(frames, name);
    InsideKeepsOpen(inner, body, i);
    RaisedByHits(inner, body, i, name);
    var r := Block(frames, body);
    forall j | 0 <= j < |frames| ensures r[j].declared == frames[j].declared {
      OuterUndisturbed(inner, body, j);
    }
    SameFrame(frames, r, name);
  }

  /** While an inner frame declares the name, no mutation of it reaches a frame
      further out. */
  lemma {:induction false} ShadowedNeverReaches(frames: seq<Frame>, inner: nat, name: string)
    requires inner < |frames| && name in frames[inner].declared
    ensures FrameOf(frames, name) >= inner
  {
    if |frames| > inner + 1 && name !in frames[|frames| - 1].declared {
      ShadowedNeverReaches(frames[..|frames| - 1], inner, name);
    }
  }

  // ---- what a name means ------------------------------------------------------------------------

  /** The names each open scope of the program binds, parameters included. */
  type Bindings = seq<set<string>>

  function BindStep(names: Bindings, op: Op): (r: Bindings)
    requires names != []
    ensures r != []
  {
    var top := |names| - 1;
    match op
    case Push => names + [{}]
    case Pop => if |names| > 1 then names[..top] else names
    case Declare(name) => if Declarable(name) then names[top := names[top] + {name}] else names
    case Bind(name) => if Declarable(name) then names[top := names[top] + {name}] else names
    case Mutate(_, _) => names
  }

  function BindRun(names: Bindings, ops: seq<Op>): (r: Bindings)
    requires names != []
    ensures r != []
  {
    if ops == [] then names else BindStep(BindRun(names, ops[..|ops| - 1]), ops[|ops| - 1])
  }

  /** Lexical scoping: index of the innermost scope binding the name, else the
      outermost one.  A scope binds a name once, so the index stands for the variable
      as long as the scope is open. */
  function Means(names: Bindings, name: string): nat
    requires names != []
    ensures Means(names, name) < |names|
  {
    if |names| == 1 || name in names[|names| - 1] then |names| - 1 else Means(names[..|names| - 1], name)
  }

  /** The tracker's frames beside the scopes of the program. */
  datatype World = World(frames: seq<Frame>, names: Bindings)

  /** The tracker knows some of the bindings. */
  predicate Aligned(w: World) {
    w.frames != [] && |w.frames| == |w.names| && forall i :: 0 <= i < |w.frames| ==> w.frames[i].declared <= w.names[i]
  }

  function WorldAfter(w: World, ops: seq<Op>): World
    requires w.frames != [] && w.names != []
  {
    World(Run(w.frames, ops), BindRun(w.names, ops))
  }

  lemma {:induction false} StaysAligned(w: World, ops: seq<Op>)
    requires Aligned(w)
    ensures Aligned(WorldAfter(w, ops))
  {
    if ops != [] {
      StaysAligned(w, ops[..|ops| - 1]);
    }
  }

  lemma {:induction false} FrameBelowMeaning(w: World, name: string)
    requires Aligned(w)
    ensures FrameOf(w.frames, name) <= Means(w.names, name)
    decreases |w.frames|
  {
    var top := |w.frames| - 1;
    if top > 0 && name !in w.names[top] {
      FrameBelowMeaning(World(w.frames[..top], w.names[..top]), name);
    }
  }

  // ---- borrows ---------------------------------------------------------------------------------

  /** The test made when a dependent is used: the epoch its anchor has now exceeds
      the epoch at birth. */
  predicate Outdated(born: World, ops: seq<Op>, anchor: string)
    requires Aligned(born)
  {
    EpochNow(Run(born.frames, ops), anchor) > EpochNow(born.frames, anchor)
  }

  /** The name means the variable it meant at birth. */
  predicate MeansAnchor(born: World, ops: seq<Op>, anchor: string)
    requires Aligned(born)
  {
    Means(BindRun(born.names, ops), anchor) == Means(born.names, anchor)
  }

  /** What the test is for: since birth some mutation went to the variable that was
      borrowed from, by the scoping of the program. */
  predicate AnchorMutated(born: World, ops: seq<Op>, anchor: string)
    requires Aligned(born)
  {
    ops != [] &&
    var init, last := ops[..|ops| - 1], ops[|ops| - 1];
    AnchorMutated(born, init, anchor)
    || (last.Mutate? && last.name == anchor && anchor != "" && MeansAnchor(born, init, anchor))
  }

  predicate VerdictRight(born: World, ops: seq<Op>, anchor: string)
    requires Aligned(born)
  {
    Outdated(born, ops, anchor) <==> AnchorMutated(born, ops, anchor)
  }

  /** The scope of the anchor has been open all the time, as it is at every use:
      dependents are dropped with the scope they were born in. */
  predicate AnchorAlive(born: World, ops: seq<Op>, anchor: string)
    requires Aligned(born)
  {
    KeepsOpen(born.frames, ops, Means(born.names, anchor))
  }

  /** The tracker resolves the anchor's name to the frame it did at birth: no frame
      further in declares it. */
  predicate AnchorVisible(born: World, ops: seq<Op>, anchor: string)
    requires Aligned(born)
  {
    FrameOf(Run(born.frames, ops), anchor) == FrameOf(born.frames, anchor)
  }

  /** At every point of the run the tracker resolves the name to the anchor's frame
      exactly when the name means the anchor. */
  predicate NeverConfused(born: World, ops: seq<Op>, anchor: string)
    requires Aligned(born)
  {
    && (AnchorVisible(born, ops, anchor) <==> MeansAnchor(born, ops, anchor))
    && (ops == [] || NeverConfused(born, ops[..|ops| - 1], anchor))
  }

  lemma {:induction false} KeepsOpenBelow(frames: seq<Frame>, ops: seq<Op>, i: nat, j: nat)
    requires frames != [] && i <= j && KeepsOpen(frames, ops, j)
    ensures KeepsOpen(frames, ops, i)
  {
    if ops != [] {
      KeepsOpenBelow(frames, ops[..|ops| - 1], i, j);
    }
  }

  lemma AnchorFrameOpen(born: World, ops: seq<Op>, anchor: string)
    requires Aligned(born) && AnchorAlive(born, ops, anchor)
    ensures KeepsOpen(born.frames, ops, FrameOf(born.frames, anchor))
  {
    FrameBelowMeaning(born, anchor);
    KeepsOpenBelow(born.frames, ops, FrameOf(born.frames, anchor), Means(born.names, anchor));
  }

  lemma {:induction false} HitsAreMutations(born: World, ops: seq<Op>, anchor: string)
    requires Aligned(born) && NeverConfused(born, ops, anchor)
    ensures Hits(born.frames, ops, FrameOf(born.frames, anchor), anchor) > 0 <==> AnchorMutated(born, ops, anchor)
  {
    if ops != [] {
      HitsAreMutations(born, ops[..|ops| - 1], anchor);
    }
  }

  /** At every use of a dependent, in whatever scope: if the tracker and the program
      never disagreed about the anchor's name since birth, and it is visible to the
      tracker now, the test reports exactly the mutations of the anchor. */
  lemma BorrowOutdated(born: World, ops: seq<Op>, anchor: string)
    requires Aligned(born) && AnchorAlive(born, ops, anchor)
    requires AnchorVisible(born, ops, anchor) && NeverConfused(born, ops, anchor)
    ensures VerdictRight(born, ops, anchor)
  {
    AnchorFrameOpen(born, ops, anchor);
    RaisedByHits(born.frames, ops, FrameOf(born.frames, anchor), anchor);
    HitsAreMutations(born, ops, anchor);
  }

  // ---- when the verdict is right ---------------------------------------------------------------------

  /** The scopes and bindings of a run, without its mutations. */
  function Skeleton(ops: seq<Op>): seq<Op> {
    if ops == [] then []
    else
      var last := ops[|ops| - 1];
      Skeleton(ops[..|ops| - 1]) + (if last.Mutate? then [] else [last])
  }

  lemma SameShapeStep(a: seq<Frame>, b: seq<Frame>, op: Op)
    requires SameShape(a, b) && a != []
    ensures SameShape(Step(a, op), Step(b, op))
    ensures op.Mutate? ==> SameShape(a, Step(b, op))
  {
  }

  /** Mutations decide neither which scopes are open nor what is bound in them. */
  lemma {:induction false} SkeletonShape(born: World, ops: seq<Op>, i: nat)
    requires Aligned(born)
    ensures SameShape(Run(born.frames, Skeleton(ops)), Run(born.frames, ops))
    ensures BindRun(born.names, Skeleton(ops)) == BindRun(born.names, ops)
    ensures KeepsOpen(born.frames, Skeleton(ops), i) == KeepsOpen(born.frames, ops, i)
    ensures Skeleton(Skeleton(ops)) == Skeleton(ops)
    ensures forall op :: op in Skeleton(ops) ==> !op.Mutate?
  {
    if ops != [] {
      var init, last := ops[..|ops| - 1], ops[|ops| - 1];
      SkeletonShape(born, init, i);
      var s := Skeleton(init);
      assert (s + [last])[..|s|] == s && s + [] == s;
      SameShapeStep(Run(born.frames, s), Run(born.frames, init), last);
    }
  }

  lemma SkeletonAgrees(born: World, ops: seq<Op>, anchor: string)
    requires Aligned(born)
    ensures AnchorVisible(born, Skeleton(ops), anchor) == AnchorVisible(born, ops, anchor)
    ensures MeansAnchor(born, Skeleton(ops), anchor) == MeansAnchor(born, ops, anchor)
    ensures AnchorAlive(born, Skeleton(ops), anchor) == AnchorAlive(born, ops, anchor)
  {
    SkeletonShape(born, ops, Means(born.names, anchor));
    SameFrame(Run(born.frames, Skeleton(ops)), Run(born.frames, ops), anchor);
  }

  lemma {:induction false} SkeletonConfused(born: World, ops: seq<Op>, anchor: string)
    requires Aligned(born)
    ensures NeverConfused(born, Skeleton(ops), anchor) <==> NeverConfused(born, ops, anchor)
  {
    if ops != [] {
      var init, last := ops[..|ops| - 1], ops[|ops| - 1];
      SkeletonConfused(born, init, anchor);
      SkeletonAgrees(born, init, anchor);
      SkeletonAgrees(born, ops, anchor);
      var s := Skeleton(init);
      assert (s + [last])[..|s|] == s && s + [] == s;
    }
  }

  lemma RunLast(born: World, ops: seq<Op>, op: Op, i: nat, anchor: string)
    requires Aligned(born)
    ensures var before, more := Run(born.frames, ops), ops + [op];
            && Run(born.frames, more) == Step(before, op)
            && BindRun(born.names, more) == BindStep(BindRun(born.names, ops), op)
            && Hits(born.frames, more, i, anchor) ==
               Hits(born.frames, ops, i, anchor) + (if Reaches(before, op, i, anchor) then 1 else 0)
            && (KeepsOpen(born.frames, more, i) <==> |Step(before, op)| > i && KeepsOpen(born.frames, ops, i))
            && (AnchorMutated(born, more, anchor) <==>
                AnchorMutated(born, ops, anchor)
                || (op.Mutate? && op.name == anchor && anchor != "" && MeansAnchor(born, ops, anchor)))
            && Skeleton(more) == Skeleton(ops) + if op.Mutate? then [] else [op]
  {
    assert (ops + [op])[..|ops|] == ops;
  }

  /** Frame `i` apart, the same. */
  predicate SameElsewhere(a: seq<Frame>, b: seq<Frame>, i: nat) {
    SameShape(a, b) && forall j :: 0 <= j < |a| && j != i ==> a[j] == b[j]
  }

  lemma SameElsewhereStep(a: seq<Frame>, b: seq<Frame>, i: nat, op: Op)
    requires SameElsewhere(a, b, i) && a != [] && !op.Mutate?
    ensures SameElsewhere(Step(a, op), Step(b, op), i)
  {
  }

  predicate Quiet(ops: seq<Op>) {
    forall op :: op in ops ==> !op.Mutate?
  }

  lemma {:induction false} QuietRun(born: World, ops: seq<Op>, i: nat, anchor: string)
    requires Aligned(born) && Quiet(ops)
    ensures Hits(born.frames, ops, i, anchor) == 0 && !AnchorMutated(born, ops, anchor) && Skeleton(ops) == ops
  {
    if ops != [] {
      QuietRun(born, ops[..|ops| - 1], i, anchor);
      assert ops[|ops| - 1] in ops;
    }
  }

  /** What one mutation put into a run without any changes: the frame it is charged to,
      and whether the anchor counts as mutated. */
  ghost predicate OneMore(born: World, plain: seq<Op>, more: seq<Op>, charged: nat, counts: bool, anchor: string)
    requires Aligned(born)
  {
    && SameElsewhere(Run(born.frames, plain), Run(born.frames, more), charged)
    && BindRun(born.names, plain) == BindRun(born.names, more)
    && Hits(born.frames, more, FrameOf(born.frames, anchor), anchor) ==
       (if charged == FrameOf(born.frames, anchor) then 1 else 0)
    && AnchorMutated(born, more, anchor) == counts
    && Skeleton(more) == plain
  }

  lemma Inserted(born: World, before: seq<Op>, anchor: string, range: Range)
    requires Aligned(born) && anchor != "" && Quiet(before)
    ensures OneMore(born, before, before + [Mutate(anchor, range)], FrameOf(Run(born.frames, before), anchor),
                    MeansAnchor(born, before, anchor), anchor)
  {
    QuietRun(born, before, FrameOf(born.frames, anchor), anchor);
    RunLast(born, before, Mutate(anchor, range), FrameOf(born.frames, anchor), anchor);
  }

  lemma OneMoreThen(born: World, plain: seq<Op>, more: seq<Op>, charged: nat, counts: bool, anchor: string, op: Op)
    requires Aligned(born) && OneMore(born, plain, more, charged, counts, anchor) && !op.Mutate?
    ensures OneMore(born, plain + [op], more + [op], charged, counts, anchor)
  {
    RunLast(born, plain, op, FrameOf(born.frames, anchor), anchor);
    RunLast(born, more, op, FrameOf(born.frames, anchor), anchor);
    SameElsewhereStep(Run(born.frames, plain), Run(born.frames, more), charged, op);
  }

  /** A mutation of the anchor's name put behind the first `k` steps. */
  lemma {:induction false} MutationAt(born: World, ops: seq<Op>, k: nat, anchor: string, range: Range)
    returns (more: seq<Op>)
    requires Aligned(born) && anchor != "" && Quiet(ops) && k <= |ops|
    ensures OneMore(born, ops, more, FrameOf(Run(born.frames, ops[..k]), anchor),
                    MeansAnchor(born, ops[..k], anchor), anchor)
  {
    if k == |ops| {
      assert ops[..k] == ops;
      Inserted(born, ops, anchor, range);
      more := ops + [Mutate(anchor, range)];
    } else {
      var init, op := ops[..|ops| - 1], ops[|ops| - 1];
      assert init[..k] == ops[..k] && ops == init + [op] && op in ops;
      assert Quiet(init);
      more := MutationAt(born, init, k, anchor, range);
      OneMoreThen(born, init, more, FrameOf(Run(born.frames, ops[..k]), anchor),
                  MeansAnchor(born, ops[..k], anchor), anchor, op);
      more := more + [op];
    }
  }

  lemma {:induction false} FirstConfusion(born: World, ops: seq<Op>, anchor: string) returns (k: nat)
    requires Aligned(born) && !NeverConfused(born, ops, anchor)
    ensures k <= |ops| && (AnchorVisible(born, ops[..k], anchor) != MeansAnchor(born, ops[..k], anchor))
  {
    if ops == [] || NeverConfused(born, ops[..|ops| - 1], anchor) {
      k := |ops|;
      assert ops[..k] == ops;
    } else {
      var init := ops[..|ops| - 1];
      k := FirstConfusion(born, init, anchor);
      assert init[..k] == ops[..k];
    }
  }

  /** The name is hidden from the tracker at the use: whether it was mutated right
      after birth makes no difference to the test. */
  lemma HiddenAnchorFails(born: World, ops: seq<Op>, anchor: string, range: Range)
    requires Aligned(born) && AnchorAlive(born, ops, anchor) && anchor != "" && Quiet(ops)
    requires !AnchorVisible(born, ops, anchor)
    ensures !RightForAllLike(born, ops, anchor)
  {
    assert ops[..0] == [];
    var more := MutationAt(born, ops, 0, anchor, range);
    QuietRun(born, ops, 0, anchor);
    SameFrame(Run(born.frames, ops), Run(born.frames, more), anchor);
    assert VerdictRight(born, ops, anchor) != VerdictRight(born, more, anchor);
  }

  /** One mutation at a point where tracker and program disagree about the name is
      missed, or raises a false alarm. */
  lemma ConfusionFails(born: World, ops: seq<Op>, anchor: string, range: Range)
    requires Aligned(born) && AnchorAlive(born, ops, anchor) && anchor != "" && Quiet(ops)
    requires AnchorVisible(born, ops, anchor) && !NeverConfused(born, ops, anchor)
    ensures !RightForAllLike(born, ops, anchor)
  {
    var k := FirstConfusion(born, ops, anchor);
    var more := MutationAt(born, ops, k, anchor, range);
    QuietRun(born, ops, 0, anchor);
    SkeletonAgrees(born, more, anchor);
    AnchorFrameOpen(born, more, anchor);
    RaisedByHits(born.frames, more, FrameOf(born.frames, anchor), anchor);
    assert !VerdictRight(born, more, anchor);
  }

  /** Right wherever mutations are put into the scopes and bindings of the run. */
  ghost predicate RightForAllLike(born: World, ops: seq<Op>, anchor: string)
    requires Aligned(born)
  {
    forall like | Skeleton(like) == Skeleton(ops) :: VerdictRight(born, like, anchor)
  }

  /** The exact condition: the test is right for every run with these scopes and
      bindings exactly when the tracker sees the anchor at the use and has never
      disagreed with the program about its name. */
  lemma BorrowRightIff(born: World, ops: seq<Op>, anchor: string, range: Range)
    requires Aligned(born) && AnchorAlive(born, ops, anchor) && anchor != ""
    ensures RightForAllLike(born, ops, anchor) <==>
            AnchorVisible(born, ops, anchor) && NeverConfused(born, ops, anchor)
  {
    SkeletonAgrees(born, ops, anchor);
    SkeletonConfused(born, ops, anchor);
    SkeletonShape(born, ops, 0);
    if AnchorVisible(born, ops, anchor) && NeverConfused(born, ops, anchor) {
      forall like | Skeleton(like) == Skeleton(ops) ensures VerdictRight(born, like, anchor) {
        SkeletonAgrees(born, like, anchor);
        SkeletonConfused(born, like, anchor);
        BorrowOutdated(born, like, anchor);
      }
    } else if AnchorVisible(born, ops, anchor) {
      ConfusionFails(born, Skeleton(ops), anchor, range);
    } else {
      HiddenAnchorFails(born, Skeleton(ops), anchor, range);
    }
  }

  // ---- the condition in terms of bindings ----------------------------------------------------------

  ghost predicate BoundBeyond(names: Bindings, i: nat, name: string) {
    exists j :: i < j < |names| && name in names[j]
  }

  ghost predicate DeclaredBeyond(frames: seq<Frame>, i: nat, name: string) {
    exists j :: i < j < |frames| && name in frames[j].declared
  }

  lemma {:induction false} MeansIff(names: Bindings, i: nat, name: string)
    requires i < |names| && (i == 0 || name in names[i])
    ensures Means(names, name) == i <==> !BoundBeyond(names, i, name)
  {
    var top := |names| - 1;
    if i < top && name !in names[top] {
      MeansIff(names[..top], i, name);
      assert BoundBeyond(names[..top], i, name) <==> BoundBeyond(names, i, name);
    }
  }

  lemma {:induction false} FrameOfIff(frames: seq<Frame>, i: nat, name: string)
    requires i < |frames| && (i == 0 || name in frames[i].declared)
    ensures FrameOf(frames, name) == i <==> !DeclaredBeyond(frames, i, name)
  {
    var top := |frames| - 1;
    if i < top && name !in frames[top].declared {
      FrameOfIff(frames[..top], i, name);
      assert DeclaredBeyond(frames[..top], i, name) <==> DeclaredBeyond(frames, i, name);
    }
  }

  lemma {:induction false} FrameOfDeclares(frames: seq<Frame>, name: string)
    requires frames != []
    ensures FrameOf(frames, name) == 0 || name in frames[FrameOf(frames, name)].declared
  {
    if |frames| > 1 && name !in frames[|frames| - 1].declared {
      FrameOfDeclares(frames[..|frames| - 1], name);
    }
  }

  lemma {:induction false} MeansBinds(names: Bindings, name: string)
    requires names != []
    ensures Means(names, name) == 0 || name in names[Means(names, name)]
  {
    if |names| > 1 && name !in names[|names| - 1] {
      MeansBinds(names[..|names| - 1], name);
    }
  }

  lemma {:induction false} BindingsStay(born: World, ops: seq<Op>, i: nat)
    requires Aligned(born) && i < |born.names| && KeepsOpen(born.frames, ops, i)
    ensures i < |BindRun(born.names, ops)| && born.names[i] <= BindRun(born.names, ops)[i]
  {
    StaysAligned(born, ops);
    if ops != [] {
      BindingsStay(born, ops[..|ops| - 1], i);
    }
  }

  /** Tracker and program agree about the name at a point of the run exactly when it is
      declared to the tracker beyond the anchor's frame if and only if it is bound
      beyond the anchor's scope: a parameter of that name, with no declaration further
      in, is what comes between them. */
  lemma AgreeIff(born: World, ops: seq<Op>, anchor: string)
    requires Aligned(born) && AnchorAlive(born, ops, anchor)
    ensures (AnchorVisible(born, ops, anchor) <==> MeansAnchor(born, ops, anchor)) <==>
            (DeclaredBeyond(Run(born.frames, ops), FrameOf(born.frames, anchor), anchor) <==>
             BoundBeyond(BindRun(born.names, ops), Means(born.names, anchor), anchor))
  {
    var i, j := FrameOf(born.frames, anchor), Means(born.names, anchor);
    AnchorFrameOpen(born, ops, anchor);
    FrameOfDeclares(born.frames, anchor);
    MeansBinds(born.names, anchor);
    RaisedByHits(born.frames, ops, i, anchor);
    BindingsStay(born, ops, j);
    FrameOfIff(Run(born.frames, ops), i, anchor);
    MeansIff(BindRun(born.names, ops), j, anchor);
  }

  // ---- inputs --------------------------------------------------------------------------------------------

  const OUTER: Frame := Frame({"x"}, map[], map[])

  function Hit(range: Range): Frame {
    Frame({"x"}, map["x" := 1], map["x" := range])
  }

  lemma ShadowingSteps(range: Range)
    ensures Step([OUTER], Push) == [OUTER, EMPTY] && FrameOf([OUTER, EMPTY], "x") == 0
    ensures Step([OUTER, EMPTY], Declare("x")) == [OUTER, OUTER]
    ensures Step([OUTER, OUTER], Mutate("x", range)) == [OUTER, Hit(range)]
    ensures Step([OUTER, EMPTY], Mutate("x", range)) == [Hit(range), EMPTY]
    ensures Step([Hit(range), EMPTY], Declare("x")) == [Hit(range), OUTER]
    ensures Step([Hit(range), EMPTY], Pop) == [Hit(range)]
  {
    assert EMPTY.declared + {"x"} == {"x"};
    assert [OUTER, EMPTY][..1] == [OUTER];
  }

  lemma BindingSteps(range: Range)
    ensures BindStep([{"x"}], Push) == [{"x"}, {}] && Means([{"x"}, {}], "x") == 0
    ensures BindStep([{"x"}, {}], Declare("x")) == [{"x"}, {"x"}] == BindStep([{"x"}, {}], Bind("x"))
  {
    assert {} + {"x"} == {"x"};
    assert [{"x"}, {}][..1] == [{"x"}];
  }

  /** The step is a mutation of the anchor when the names mean what they do. */
  predicate Strikes(born: World, names: Bindings, op: Op, anchor: string)
    requires Aligned(born) && names != []
  {
    op.Mutate? && op.name == anchor && anchor != "" && Means(names, anchor) == Means(born.names, anchor)
  }

  lemma TwoSteps(born: World, p: Op, q: Op, anchor: string)
    requires Aligned(born)
    ensures Run(born.frames, [p, q]) == Step(Step(born.frames, p), q)
    ensures BindRun(born.names, [p, q]) == BindStep(BindStep(born.names, p), q)
    ensures AnchorMutated(born, [p, q], anchor) <==>
            Strikes(born, born.names, p, anchor) || Strikes(born, BindStep(born.names, p), q, anchor)
  {
    assert [p, q] == [p] + [q] && [p] == [] + [p];
    RunLast(born, [p], q, 0, anchor);
    RunLast(born, [], p, 0, anchor);
  }

  lemma ThreeSteps(born: World, p: Op, q: Op, r: Op, anchor: string)
    requires Aligned(born)
    ensures Run(born.frames, [p, q, r]) == Step(Step(Step(born.frames, p), q), r)
    ensures BindRun(born.names, [p, q, r]) == BindStep(BindStep(BindStep(born.names, p), q), r)
    ensures AnchorMutated(born, [p, q, r], anchor) <==>
            || Strikes(born, born.names, p, anchor) || Strikes(born, BindStep(born.names, p), q, anchor)
            || Strikes(born, BindStep(BindStep(born.names, p), q), r, anchor)
  {
    assert [p, q, r] == [p, q] + [r];
    TwoSteps(born, p, q, anchor);
    RunLast(born, [p, q], r, 0, anchor);
  }

  lemma FourSteps(born: World, p: Op, q: Op, r: Op, t: Op, anchor: string)
    requires Aligned(born)
    ensures Run(born.frames, [p, q, r, t]) == Step(Step(Step(Step(born.frames, p), q), r), t)
    ensures AnchorMutated(born, [p, q, r, t], anchor) <==>
            || Strikes(born, born.names, p, anchor) || Strikes(born, BindStep(born.names, p), q, anchor)
            || Strikes(born, BindStep(BindStep(born.names, p), q), r, anchor)
            || Strikes(born, BindStep(BindStep(BindStep(born.names, p), q), r), t, anchor)
  {
    assert [p, q, r, t] == [p, q, r] + [t];
    ThreeSteps(born, p, q, r, anchor);
    RunLast(born, [p, q, r], t, 0, anchor);
  }

  /** A function or lambda with a parameter of the anchor's name assigns to it: after it
      is left the use of the dependent is reported, although the anchor is untouched
      and the name is visible again. */
  lemma ParameterAlarm(range: Range)
    ensures var born := World([OUTER], [{"x"}]);
            var ops := [Push, Bind("x"), Mutate("x", range), Pop];
            AnchorVisible(born, ops, "x") && Outdated(born, ops, "x") && !AnchorMutated(born, ops, "x")
  {
    ShadowingSteps(range);
    BindingSteps(range);
    FourSteps(World([OUTER], [{"x"}]), Push, Bind("x"), Mutate("x", range), Pop, "x");
  }

  /** Two runs that go wrong without opening a scope, for a dependent born in an inner
      one: the anchor's name is declared there and then mutated, or the anchor is
      mutated and its name then declared. */
  lemma RedeclaredBesideBorrow(range: Range)
    ensures var born := World([OUTER, EMPTY], [{"x"}, {}]);
            var alarm, missed := [Declare("x"), Mutate("x", range)], [Mutate("x", range), Declare("x")];
            && Outdated(born, alarm, "x") && !AnchorMutated(born, alarm, "x")
            && !Outdated(born, missed, "x") && AnchorMutated(born, missed, "x")
  {
    var born := World([OUTER, EMPTY], [{"x"}, {}]);
    ShadowingSteps(range);
    BindingSteps(range);
    TwoSteps(born, Declare("x"), Mutate("x", range), "x");
    TwoSteps(born, Mutate("x", range), Declare("x"), "x");
  }

  /** The same two for a dependent born beside its anchor, in a scope opened and left
      open later. */
  lemma RedeclaredInside(range: Range)
    ensures var born := World([OUTER], [{"x"}]);
            var alarm, missed := [Push, Declare("x"), Mutate("x", range)], [Push, Mutate("x", range), Declare("x")];
            && Outdated(born, alarm, "x") && !AnchorMutated(born, alarm, "x")
            && !Outdated(born, missed, "x") && AnchorMutated(born, missed, "x")
  {
    ShadowingSteps(range);
    BindingSteps(range);
    var born := World([OUTER], [{"x"}]);
    ThreeSteps(born, Push, Declare("x"), Mutate("x", range), "x");
    ThreeSteps(born, Push, Mutate("x", range), Declare("x"), "x");
  }
}

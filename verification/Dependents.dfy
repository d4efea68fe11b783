/** Which borrow a use finds: dependents are kept by name, scope by scope, and set and
    dropped by declarations and assignments. */
module Dependents {
  import opened Types
  import FrameEpoch

  /** The anchor of a dependent variable and the epoch it had at birth. */
  datatype Borrow = Borrow(anchor: string, born: nat)

  /** `source` is the borrow the initial or assigned value carries, if any; parameters
      are not told to the tracker. */
  datatype Op =
    | Enter
    | Exit
    | Var(name: string, source: Option<Borrow>)
    | Param(name: string)
    | Assign(name: string, source: Option<Borrow>)

  type Frames = seq<map<string, Borrow>>

  /** The borrow found under a name, from the innermost frame outwards. */
  function Lookup(frames: Frames, name: string): Option<Borrow> {
    if frames == [] then None
    else
      var top := |frames| - 1;
      if name in frames[top] then Some(frames[top][name]) else Lookup(frames[..top], name)
  }

  function Step(frames: Frames, op: Op): (r: Frames)
    requires frames != []
    ensures r != []
  {
    var top := |frames| - 1;
    match op
    case Enter => frames + [map[]]
    case Exit => if top > 0 then frames[..top] else frames
    case Param(_) => frames
    case Var(name, source) =>
      if FrameEpoch.Declarable(name) && source.Some? then frames[top := frames[top][name := source.value]] else frames
    case Assign(name, source) =>
      if !FrameEpoch.Declarable(name) then frames
      else if source.Some? then frames[top := frames[top][name := source.value]]
      else frames[top := frames[top] - {name}]
  }

  function Run(ops: seq<Op>): (r: Frames)
    ensures r != []
  {
    if ops == [] then [map[]] else Step(Run(ops[..|ops| - 1]), ops[|ops| - 1])
  }

  // ---- the class ---------------------------------------------------------------------------

  class Tracker {
    var frames: Frames

    ghost predicate Valid()
      reads this
    {
      frames != []
    }

    constructor ()
      ensures Valid() && frames == [map[]]
    {
      frames := [map[]];
    }

    method EnterScope()
      requires Valid()
      modifies this
      ensures Valid() && frames == Step(old(frames), Enter)
    {
      frames := frames + [map[]];
    }

    method ExitScope()
      requires Valid()
      modifies this
      ensures Valid() && frames == Step(old(frames), Exit)
    {
      if |frames| > 1 {
        frames := frames[..|frames| - 1];
      }
    }

    /** Records a borrow at a declaration; a plain declaration changes nothing. */
    method RecordBirth(dep: string, source: Option<Borrow>)
      requires Valid()
      modifies this
      ensures Valid() && frames == Step(old(frames), Var(dep, source))
    {
      if dep == "" || dep == "_" || source == None {
        return;
      }
      var top := |frames| - 1;
      frames := frames[top := frames[top][dep := source.value]];
    }

    /** Records or drops a borrow at an assignment, always in the innermost frame. */
    method PropagateBorrowOnAssign(lhs: string, source: Option<Borrow>)
      requires Valid()
      modifies this
      ensures Valid() && frames == Step(old(frames), Assign(lhs, source))
    {
      if lhs == "" || lhs == "_" {
        return;
      }
      var top := |frames| - 1;
      if source.Some? {
        frames := frames[top := frames[top][lhs := source.value]];
      } else {
        frames := frames[top := frames[top] - {lhs}];
      }
    }

    method FindFrameWithDependent(name: string) returns (r: Option<Borrow>)
      requires Valid()
      ensures r == Lookup(frames, name)
    {
      var n := |frames|;
      assert frames[..n] == frames;
      while n > 0
        invariant 0 <= n <= |frames|
        invariant Lookup(frames[..n], name) == Lookup(frames, name)
      {
        assert frames[..n][..n - 1] == frames[..n - 1];
        if name in frames[n - 1] {
          return Some(frames[n - 1][name]);
        }
        n := n - 1;
      }
      return None;
    }
  }

  /** The class runs through exactly the states of the state machine. */
  method Replay(ops: seq<Op>) returns (t: Tracker)
    ensures fresh(t) && t.Valid() && t.frames == Run(ops)
  {
    t := new Tracker();
    for i := 0 to |ops|
      invariant fresh(t) && t.Valid() && t.frames == Run(ops[..i])
    {
      assert ops[..i + 1][..i] == ops[..i];
      match ops[i]
      case Enter => t.EnterScope();
      case Exit => t.ExitScope();
      case Var(name, source) => t.RecordBirth(name, source);
      case Param(_) =>
      case Assign(name, source) => t.PropagateBorrowOnAssign(name, source);
    }
    assert ops[..|ops|] == ops;
  }

  // ---- one name --------------------------------------------------------------------------------

  /** What the frames hold under one name. */
  function Entries(frames: Frames, name: string): seq<Option<Borrow>> {
    seq(|frames|, i requires 0 <= i < |frames| => if name in frames[i] then Some(frames[i][name]) else None)
  }

  function Found(es: seq<Option<Borrow>>): Option<Borrow> {
    if es == [] then None
    else
      var top := |es| - 1;
      if es[top].Some? then es[top] else Found(es[..top])
  }

  lemma {:induction false} LookupIsFound(frames: Frames, name: string)
    ensures Lookup(frames, name) == Found(Entries(frames, name))
  {
    if frames != [] {
      LookupIsFound(frames[..|frames| - 1], name);
      assert Entries(frames, name)[..|frames| - 1] == Entries(frames[..|frames| - 1], name);
    }
  }

  predicate Concerns(op: Op, name: string) {
    (op.Var? || op.Param? || op.Assign?) && op.name == name && FrameEpoch.Declarable(name)
  }

  function EntryStep(es: seq<Option<Borrow>>, op: Op, name: string): (r: seq<Option<Borrow>>)
    requires es != []
    ensures r != []
  {
    var top := |es| - 1;
    match op
    case Enter => es + [None]
    case Exit => if top > 0 then es[..top] else es
    case Param(_) => es
    case Var(_, source) => if Concerns(op, name) && source.Some? then es[top := source] else es
    case Assign(_, source) => if Concerns(op, name) then es[top := source] else es
  }

  function EntryRun(ops: seq<Op>, name: string): (r: seq<Option<Borrow>>)
    ensures r != []
  {
    if ops == [] then [None] else EntryStep(EntryRun(ops[..|ops| - 1], name), ops[|ops| - 1], name)
  }

  lemma {:induction false} EntriesRun(ops: seq<Op>, name: string)
    ensures Entries(Run(ops), name) == EntryRun(ops, name)
  {
    if ops == [] {
      assert Entries([map[]], name) == [None];
    } else {
      EntriesRun(ops[..|ops| - 1], name);
      EntriesStep(Run(ops[..|ops| - 1]), ops[|ops| - 1], name);
    }
  }

  lemma EntriesStep(frames: Frames, op: Op, name: string)
    requires frames != []
    ensures Entries(Step(frames, op), name) == EntryStep(Entries(frames, name), op, name)
  {
  }

  // ---- the variables of that name ----------------------------------------------------------------

  /** A variable or parameter of the program, and the borrow its present value carries. */
  datatype Variable = Variable(isVar: bool, borrow: Option<Borrow>)

  /** Index of the innermost scope that binds the name, else the outermost one. */
  function Home<T>(scopes: seq<Option<T>>): (h: nat)
    requires scopes != []
    ensures h < |scopes|
    ensures scopes[h].Some? || forall i :: 0 <= i < |scopes| ==> scopes[i] == None
    ensures forall i :: h < i < |scopes| ==> scopes[i] == None
  {
    var top := |scopes| - 1;
    if top == 0 || scopes[top].Some? then top else Home(scopes[..top])
  }

  /** The variables called `name`, scope by scope: an assignment goes to the one the
      name means. */
  function VarStep(vs: seq<Option<Variable>>, op: Op, name: string): (r: seq<Option<Variable>>)
    requires vs != []
    ensures r != []
  {
    var top, h := |vs| - 1, Home(vs);
    match op
    case Enter => vs + [None]
    case Exit => if top > 0 then vs[..top] else vs
    case Var(_, source) => if Concerns(op, name) then vs[top := Some(Variable(true, source))] else vs
    case Param(_) => if Concerns(op, name) then vs[top := Some(Variable(false, None))] else vs
    case Assign(_, source) =>
      if Concerns(op, name) && vs[h].Some? then vs[h := Some(vs[h].value.(borrow := source))] else vs
  }

  function VarRun(ops: seq<Op>, name: string): (r: seq<Option<Variable>>)
    ensures r != []
  {
    if ops == [] then [None] else VarStep(VarRun(ops[..|ops| - 1], name), ops[|ops| - 1], name)
  }

  /** Where the name means a variable, a use of it finds the borrow of that variable. */
  predicate UseIsRight(ops: seq<Op>, name: string) {
    var vs := VarRun(ops, name);
    match vs[Home(vs)]
    case None => true
    case Some(v) => v.isVar ==> Lookup(Run(ops), name) == v.borrow
  }

  // ---- scopes and writes, without values ---------------------------------------------------------

  /** `at`: the open frame in which the variable was last written; None if that frame is
      closed, or if the declaration found the name already written in its frame. */
  datatype Last = Last(isVar: bool, at: Option<nat>)

  /** Frame by frame: whether the name was written there, and the variable it binds. */
  datatype Shape = Shape(written: seq<bool>, bound: seq<Option<Last>>)

  function Forget(bound: seq<Option<Last>>, frame: nat): (r: seq<Option<Last>>)
    ensures |r| == |bound| && forall i :: 0 <= i < |r| ==> (r[i] == None <==> bound[i] == None)
  {
    seq(|bound|, i requires 0 <= i < |bound| =>
      match bound[i]
      case None => None
      case Some(l) => if l.at == Some(frame) then Some(l.(at := None)) else Some(l))
  }

  predicate Sized(s: Shape) {
    s.written != [] && |s.written| == |s.bound|
  }

  function ShapeStep(s: Shape, op: Op, name: string): (r: Shape)
    requires Sized(s)
    ensures Sized(r)
  {
    var top, h := |s.written| - 1, Home(s.bound);
    match op
    case Enter => Shape(s.written + [false], s.bound + [None])
    case Exit => if top > 0 then Shape(s.written[..top], Forget(s.bound[..top], top)) else s
    case Var(_, _) =>
      if !Concerns(op, name) then s
      else Shape(s.written[top := true], s.bound[top := Some(Last(true, if s.written[top] then None else Some(top)))])
    case Param(_) => if Concerns(op, name) then s.(bound := s.bound[top := Some(Last(false, None))]) else s
    case Assign(_, _) =>
      if !Concerns(op, name) then s
      else Shape(s.written[top := true],
                 if s.bound[h].Some? then s.bound[h := Some(s.bound[h].value.(at := Some(top)))] else s.bound)
  }

  function ShapeRun(ops: seq<Op>, name: string): (r: Shape)
    ensures Sized(r)
  {
    if ops == [] then Shape([false], [None]) else ShapeStep(ShapeRun(ops[..|ops| - 1], name), ops[|ops| - 1], name)
  }

  /** The variable meant was last written in the scope that declares it, and no scope
      further out has a note under its name. */
  predicate WrittenAtHome(s: Shape)
    requires Sized(s)
  {
    var h := Home(s.bound);
    match s.bound[h]
    case None => true
    case Some(l) => l.isVar ==> l.at == Some(h) && forall i :: 0 <= i < h ==> !s.written[i]
  }

  // ---- right under the condition --------------------------------------------------------------------

  /** Frame `i` lies in the reach of the variable of scope `j`. */
  predicate Reach(s: Shape, j: nat, i: nat) {
    j < i < |s.bound| && s.bound[j].Some? && forall k :: j < k <= i ==> s.bound[k] == None
  }

  predicate BoundAlike(v: Option<Variable>, l: Option<Last>) {
    v.Some? == l.Some? && (v.Some? ==> v.value.isVar == l.value.isVar)
  }

  ghost predicate Matches(es: seq<Option<Borrow>>, vs: seq<Option<Variable>>, s: Shape) {
    && Sized(s) && |es| == |vs| == |s.bound|
    && (forall i :: 0 <= i < |es| ==> BoundAlike(vs[i], s.bound[i]))
    && (forall i :: 0 <= i < |es| && es[i].Some? ==> s.written[i])
    && (forall i :: 0 <= i < |es| && s.bound[i].Some? && s.bound[i].value.at == Some(i) ==> es[i] == vs[i].value.borrow)
    && (forall i :: 0 <= i < |es| && s.bound[i].Some? && s.bound[i].value.isVar ==> s.written[i])
    && (forall j: nat, i: nat :: Reach(s, j, i) && s.bound[j].value.at == Some(j) ==> !s.written[i])
  }

  lemma HomeAlike(vs: seq<Option<Variable>>, bound: seq<Option<Last>>)
    requires |vs| == |bound| && vs != [] && forall i :: 0 <= i < |vs| ==> BoundAlike(vs[i], bound[i])
    ensures vs[Home(vs)].Some? ==> Home(vs) == Home(bound)
    ensures vs[Home(vs)].Some? <==> bound[Home(bound)].Some?
  {
    var h, g := Home(vs), Home(bound);
    assert BoundAlike(vs[h], bound[h]) && BoundAlike(vs[g], bound[g]);
  }

  /** An assignment with no variable of that name in sight. */
  lemma MatchesUnbound(es: seq<Option<Borrow>>, vs: seq<Option<Variable>>, s: Shape, source: Option<Borrow>)
    requires Matches(es, vs, s) && forall i :: 0 <= i < |es| ==> s.bound[i] == None
    ensures Matches(es[|es| - 1 := source], vs, s.(written := s.written[|es| - 1 := true]))
  {
  }

  lemma MatchesBound(es: seq<Option<Borrow>>, vs: seq<Option<Variable>>, s: Shape, source: Option<Borrow>, h: nat)
    requires Matches(es, vs, s) && h == Home(s.bound) && s.bound[h].Some?
    ensures var top := |es| - 1;
            Matches(es[top := source], vs[h := Some(vs[h].value.(borrow := source))],
                    Shape(s.written[top := true], s.bound[h := Some(s.bound[h].value.(at := Some(top)))]))
  {
    var t := s.bound[h := Some(s.bound[h].value.(at := Some(|es| - 1)))];
    assert forall k :: 0 <= k < |t| ==> (t[k] == None <==> s.bound[k] == None);
  }

  lemma MatchesAssign(es: seq<Option<Borrow>>, vs: seq<Option<Variable>>, s: Shape, op: Op, name: string)
    requires Matches(es, vs, s) && op.Assign?
    ensures Matches(EntryStep(es, op, name), VarStep(vs, op, name), ShapeStep(s, op, name))
  {
    HomeAlike(vs, s.bound);
    if Concerns(op, name) {
      if s.bound[Home(s.bound)].Some? {
        MatchesBound(es, vs, s, op.source, Home(s.bound));
      } else {
        MatchesUnbound(es, vs, s, op.source);
      }
    }
  }

  lemma MatchesExit(es: seq<Option<Borrow>>, vs: seq<Option<Variable>>, s: Shape, op: Op, name: string)
    requires Matches(es, vs, s) && op == Exit
    ensures Matches(EntryStep(es, op, name), VarStep(vs, op, name), ShapeStep(s, op, name))
  {
    var t := ShapeStep(s, op, name);
    assert forall k :: 0 <= k < |t.bound| ==> (t.bound[k] == None <==> s.bound[k] == None);
    forall j: nat, i: nat | Reach(t, j, i) ensures Reach(s, j, i) {}
  }

  lemma MatchesOther(es: seq<Option<Borrow>>, vs: seq<Option<Variable>>, s: Shape, op: Op, name: string)
    requires Matches(es, vs, s) && !op.Assign? && op != Exit
    ensures Matches(EntryStep(es, op, name), VarStep(vs, op, name), ShapeStep(s, op, name))
  {
    var t := ShapeStep(s, op, name);
    assert forall k :: 0 <= k < |s.bound| && t.bound[k] == None ==> s.bound[k] == None;
    assert forall k :: 0 <= k < |s.bound| - 1 ==> t.bound[k] == s.bound[k];
    forall j: nat, i: nat | Reach(t, j, i) ensures Reach(s, j, i) || i == |s.bound| {
      assert t.bound[i] == None;
    }
  }

  lemma {:induction false} RunMatches(ops: seq<Op>, name: string)
    ensures Matches(EntryRun(ops, name), VarRun(ops, name), ShapeRun(ops, name))
  {
    if ops != [] {
      var init, op := ops[..|ops| - 1], ops[|ops| - 1];
      RunMatches(init, name);
      var es, vs, s := EntryRun(init, name), VarRun(init, name), ShapeRun(init, name);
      if op.Assign? { MatchesAssign(es, vs, s, op, name); }
      else if op == Exit { MatchesExit(es, vs, s, op, name); }
      else { MatchesOther(es, vs, s, op, name); }
    }
  }

  lemma {:induction false} FoundAt(es: seq<Option<Borrow>>, h: nat)
    requires h < |es| && forall i :: 0 <= i < |es| && i != h ==> es[i] == None
    ensures Found(es) == es[h]
  {
    var top := |es| - 1;
    if h < top {
      FoundAt(es[..top], h);
    } else if es[top] == None {
      FoundNone(es);
    }
  }

  lemma {:induction false} FoundNone(es: seq<Option<Borrow>>)
    requires forall i :: 0 <= i < |es| ==> es[i] == None
    ensures Found(es) == None
  {
    if es != [] { FoundNone(es[..|es| - 1]); }
  }

  /** Under the condition a use finds the borrow of the variable that the name means. */
  lemma HomeIsRight(ops: seq<Op>, name: string)
    requires WrittenAtHome(ShapeRun(ops, name))
    ensures UseIsRight(ops, name)
  {
    var es, vs, s := EntryRun(ops, name), VarRun(ops, name), ShapeRun(ops, name);
    RunMatches(ops, name);
    EntriesRun(ops, name);
    LookupIsFound(Run(ops), name);
    HomeAlike(vs, s.bound);
    var h := Home(vs);
    if vs[h].Some? && vs[h].value.isVar {
      forall i | 0 <= i < |es| && i != h ensures es[i] == None {
        if i > h { assert Reach(s, h, i); }
      }
      FoundAt(es, h);
    }
  }

  // ---- wrong without it ----------------------------------------------------------------------------

  /** The step without what it says about a borrow. */
  function Blank(op: Op): Op {
    match op
    case Var(name, _) => Var(name, None)
    case Assign(name, _) => Assign(name, None)
    case _ => op
  }

  function Blanks(ops: seq<Op>): seq<Op> {
    if ops == [] then [] else Blanks(ops[..|ops| - 1]) + [Blank(ops[|ops| - 1])]
  }

  lemma ShapeOfBlank(s: Shape, op: Op, name: string)
    requires Sized(s)
    ensures ShapeStep(s, Blank(op), name) == ShapeStep(s, op, name)
  {
  }

  /** Borrows decide neither which scopes are open nor what is written where. */
  lemma {:induction false} BlankShape(ops: seq<Op>, name: string)
    ensures ShapeRun(Blanks(ops), name) == ShapeRun(ops, name)
  {
    if ops != [] {
      var init, op := ops[..|ops| - 1], ops[|ops| - 1];
      BlankShape(init, name);
      assert (Blanks(init) + [Blank(op)])[..|Blanks(init)|] == Blanks(init);
      ShapeOfBlank(ShapeRun(init, name), op, name);
    }
  }

  /** Only frame `i` holds a borrow, and only variables last written there carry one. */
  ghost predicate Lone(es: seq<Option<Borrow>>, vs: seq<Option<Variable>>, s: Shape, i: int, b: Borrow) {
    && Sized(s) && |es| == |vs| == |s.bound|
    && (forall j :: 0 <= j < |es| ==> es[j] == if j == i then Some(b) else None)
    && (forall j :: 0 <= j < |es| ==> BoundAlike(vs[j], s.bound[j]))
    && (forall j: nat :: j < |es| && vs[j].Some? && vs[j].value.borrow.Some? ==>
          s.bound[j].value.at.Some? && s.bound[j].value.at.value == i)
  }

  ghost predicate Blankly(ops: seq<Op>, name: string, i: int, b: Borrow) {
    Lone(EntryRun(ops, name), VarRun(ops, name), ShapeRun(ops, name), i, b)
  }

  lemma LoneBlankStep(es: seq<Option<Borrow>>, vs: seq<Option<Variable>>, s: Shape, i: int, b: Borrow, op: Op, name: string)
    requires Lone(es, vs, s, i, b) && op == Blank(op) && i < |es|
    requires op.Assign? && Concerns(op, name) ==> i != |es| - 1
    requires op == Exit && |es| > 1 ==> i != |es| - 1
    ensures Lone(EntryStep(es, op, name), VarStep(vs, op, name), ShapeStep(s, op, name), i, b)
  {
    HomeAlike(vs, s.bound);
  }

  lemma LoneWrite(es: seq<Option<Borrow>>, vs: seq<Option<Variable>>, s: Shape, b: Borrow, op: Op, name: string)
    requires Lone(es, vs, s, -1, b) && Concerns(op, name) && (op.Assign? || (op.Var? && !s.written[|es| - 1]))
    requires op.source == Some(b)
    ensures Lone(EntryStep(es, op, name), VarStep(vs, op, name), ShapeStep(s, op, name), |es| - 1, b)
  {
    HomeAlike(vs, s.bound);
  }

  lemma RunsLast(ops: seq<Op>, op: Op, name: string)
    ensures EntryRun(ops + [op], name) == EntryStep(EntryRun(ops, name), op, name)
    ensures VarRun(ops + [op], name) == VarStep(VarRun(ops, name), op, name)
    ensures ShapeRun(ops + [op], name) == ShapeStep(ShapeRun(ops, name), op, name)
    ensures Blanks(ops + [op]) == Blanks(ops) + [Blank(op)]
  {
    assert (ops + [op])[..|ops|] == ops;
  }

  /** The step is the first write of the name in the innermost frame, or an assignment
      there: it can give the frame a borrow of its own. */
  predicate Marks(s: Shape, op: Op, name: string)
    requires Sized(s)
  {
    Concerns(op, name) && (op.Assign? || (op.Var? && !s.written[|s.written| - 1]))
  }

  function WithBorrow(op: Op, b: Borrow): Op {
    match op
    case Var(name, _) => Var(name, Some(b))
    case Assign(name, _) => Assign(name, Some(b))
    case _ => op
  }

  lemma LoneBefore(s: Shape, op: Op, name: string, i: int)
    requires Sized(s) && var t := ShapeStep(s, op, name); -1 <= i < |t.written| && (i >= 0 ==> t.written[i])
    requires !(Marks(s, op, name) && i == |s.written| - 1)
    ensures i < |s.written| && (i >= 0 ==> s.written[i])
    ensures (op.Assign? && Concerns(op, name)) || (op == Exit && |s.written| > 1) ==> i != |s.written| - 1
  {
  }

  lemma LoneBlank(like: seq<Op>, op: Op, name: string, i: int, b: Borrow)
    requires Blankly(like, name, i, b) && op == Blank(op) && i < |ShapeRun(like, name).written|
    requires (op.Assign? && Concerns(op, name)) || (op == Exit && |ShapeRun(like, name).written| > 1) ==>
               i != |ShapeRun(like, name).written| - 1
    ensures Blankly(like + [op], name, i, b) && Blanks(like + [op]) == Blanks(like) + [op]
  {
    RunsLast(like, op, name);
    LoneBlankStep(EntryRun(like, name), VarRun(like, name), ShapeRun(like, name), i, b, op, name);
  }

  lemma LoneMark(like: seq<Op>, op: Op, name: string, b: Borrow)
    requires Blankly(like, name, -1, b) && Marks(ShapeRun(like, name), op, name)
    ensures Blankly(like + [WithBorrow(op, b)], name, |ShapeRun(like, name).written| - 1, b)
    ensures Blanks(like + [WithBorrow(op, b)]) == Blanks(like) + [Blank(op)]
  {
    RunsLast(like, WithBorrow(op, b), name);
    LoneWrite(EntryRun(like, name), VarRun(like, name), ShapeRun(like, name), b, WithBorrow(op, b), name);
  }

  /** For each frame the name was written in, some run with the same scopes and writes
      leaves a borrow there and nowhere else; for none (-1), one leaves no borrow. */
  lemma {:induction false} LoneRun(ops: seq<Op>, name: string, i: int, b: Borrow) returns (like: seq<Op>)
    requires -1 <= i < |ShapeRun(ops, name).written| && (i >= 0 ==> ShapeRun(ops, name).written[i])
    ensures Blanks(like) == Blanks(ops) && Blankly(like, name, i, b)
  {
    if ops == [] {
      like := [];
    } else {
      var init, op := ops[..|ops| - 1], ops[|ops| - 1];
      var s := ShapeRun(init, name);
      if Marks(s, op, name) && i == |s.written| - 1 {
        like := LoneRun(init, name, -1, b);
        SameShape(like, init, name);
        LoneMark(like, op, name, b);
        like := like + [WithBorrow(op, b)];
      } else {
        LoneBefore(s, op, name, i);
        like := LoneRun(init, name, i, b);
        SameShape(like, init, name);
        LoneBlank(like, Blank(op), name, i, b);
        like := like + [Blank(op)];
      }
    }
  }

  lemma SameShape(a: seq<Op>, b: seq<Op>, name: string)
    requires Blanks(a) == Blanks(b)
    ensures ShapeRun(a, name) == ShapeRun(b, name)
  {
    BlankShape(a, name);
    BlankShape(b, name);
  }

  ghost predicate RightForAllLike(ops: seq<Op>, name: string) {
    forall like | Blanks(like) == Blanks(ops) :: UseIsRight(like, name)
  }

  /** A borrow left in a frame that the variable was not last written in is found in
      place of the variable's own. */
  lemma StrayBorrow(ops: seq<Op>, name: string, h: nat, i: nat, b: Borrow)
    requires var s := ShapeRun(ops, name);
             && h == Home(s.bound) && s.bound[h].Some? && s.bound[h].value.isVar
             && i < |s.written| && s.written[i] && s.bound[h].value.at != Some(i)
    ensures !RightForAllLike(ops, name)
  {
    var like := LoneRun(ops, name, i, b);
    SameShape(like, ops, name);
    var es, vs := EntryRun(like, name), VarRun(like, name);
    EntriesRun(like, name);
    LookupIsFound(Run(like), name);
    FoundAt(es, i);
    HomeAlike(vs, ShapeRun(like, name).bound);
    assert BoundAlike(vs[h], ShapeRun(like, name).bound[h]);
    assert !UseIsRight(like, name);
  }

  /** The exact condition: whatever borrows the values carry, a use finds the one of the
      variable it means exactly when that variable was last written in the scope that
      declares it and no scope further out has been written under its name. */
  lemma UseRightIff(ops: seq<Op>, name: string)
    ensures RightForAllLike(ops, name) <==> WrittenAtHome(ShapeRun(ops, name))
  {
    var s := ShapeRun(ops, name);
    if WrittenAtHome(s) {
      forall like | Blanks(like) == Blanks(ops) ensures UseIsRight(like, name) {
        SameShape(like, ops, name);
        HomeIsRight(like, name);
      }
    } else {
      var h := Home(s.bound);
      var b := Borrow("", 0);
      RunMatches(ops, name);
      if s.bound[h].value.at == Some(h) {
        var i :| 0 <= i < h && s.written[i];
        StrayBorrow(ops, name, h, i, b);
      } else {
        StrayBorrow(ops, name, h, h, b);
      }
    }
  }

  // ---- inputs ----------------------------------------------------------------------------------

  /** A plain variable hides a dependent one, and inherits its borrow. */
  lemma HiddenDependent(b: Borrow)
    ensures !UseIsRight([Var("d", Some(b))] + [Enter] + [Var("d", None)], "d")
  {
    var ops := [Var("d", Some(b))] + [Enter] + [Var("d", None)];
    ThreeSteps(Var("d", Some(b)), Enter, Var("d", None), "d");
    EntriesRun(ops, "d");
    LookupIsFound(Run(ops), "d");
    FoundAt([Some(b), None], 0);
  }

  /** A variable is made dependent in an inner scope: once that is left, its borrow is
      forgotten. */
  lemma ForgottenBorrow(b: Borrow)
    ensures !UseIsRight([Var("d", None)] + [Enter] + [Assign("d", Some(b))] + [Exit], "d")
  {
    var three := [Var("d", None)] + [Enter] + [Assign("d", Some(b))];
    ThreeSteps(Var("d", None), Enter, Assign("d", Some(b)), "d");
    RunsLast(three, Exit, "d");
    EntriesRun(three + [Exit], "d");
    LookupIsFound(Run(three + [Exit]), "d");
    FoundNone([None]);
  }

  lemma ThreeSteps(p: Op, q: Op, r: Op, name: string)
    ensures var ops := [p] + [q] + [r];
            && EntryRun(ops, name) == EntryStep(EntryStep(EntryStep([None], p, name), q, name), r, name)
            && VarRun(ops, name) == VarStep(VarStep(VarStep([None], p, name), q, name), r, name)
  {
    assert [] + [p] == [p];
    RunsLast([], p, name);
    RunsLast([p], q, name);
    RunsLast([p] + [q], r, name);
  }
}

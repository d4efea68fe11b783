/** The driver's command-line parser: one pass over the tokens, driven by a table of
    options with declared arity. */
module Cli {
  import opened Types

  datatype Kind = Flag | Value | ValueList | OptionalValue

  datatype DriverOption = DriverOption(id: int, name: string, shortName: string, kind: Kind)

  /** One call of the consumer's callback. */
  datatype Call = Call(id: int, value: string)

  datatype Error =
    | UnexpectedArgument(tok: string)
    | UnknownLong(name: string) | NoValueLong(name: string) | MissingLong(name: string) | InvalidLong(name: string)
    | UnknownFeature(name: string) | NotBoolean(name: string) | InvalidFeature(name: string)
    | UnknownShort(c: char) | NoValueShort(c: char) | MissingShort(c: char) | InvalidShort(c: char)

  /** The table, and the callback's answer given all calls so far, the new one last. */
  datatype Config = Config(table: seq<DriverOption>, accept: seq<Call> -> bool)

  /** Everything the parser writes; `passthrough` and `runArgs` are None when the
      caller supplies no list for them. */
  datatype State = State(
    calls: seq<Call>, diagArgs: seq<string>, diagHelp: bool, inputFile: string,
    passthrough: Option<seq<string>>, runArgs: Option<seq<string>>, positionalOnly: bool)

  // ---- table lookup ---------------------------------------------------------------------

  function FindLong(table: seq<DriverOption>, name: string): Option<DriverOption> {
    if table == [] then None else if table[0].name == name then Some(table[0]) else FindLong(table[1..], name)
  }

  function FindShort(table: seq<DriverOption>, c: char): Option<DriverOption> {
    if table == [] then None
    else if table[0].shortName == [c] || table[0].name == [c] then Some(table[0])
    else FindShort(table[1..], c)
  }

  /** A name finds the first option that bears it. */
  lemma {:induction false} FindLongFirst(table: seq<DriverOption>, name: string)
    ensures FindLong(table, name) == None <==> forall i :: 0 <= i < |table| ==> table[i].name != name
    ensures forall i :: 0 <= i < |table| && table[i].name == name && (forall j :: 0 <= j < i ==> table[j].name != name) ==>
              FindLong(table, name) == Some(table[i])
  {
    if table != [] {
      var rest := table[1..];
      FindLongFirst(rest, name);
      assert forall i :: 0 <= i < |rest| ==> rest[i] == table[i + 1];
      forall i | 0 < i < |table| && table[i].name == name && forall j :: 0 <= j < i ==> table[j].name != name
        ensures FindLong(table, name) == Some(table[i])
      {
        assert rest[i - 1] == table[i] && forall j :: 0 <= j < i - 1 ==> rest[j].name != name;
      }
    }
  }

  /** The option is abbreviated by the letter, or named by it. */
  predicate HasLetter(o: DriverOption, c: char) {
    o.shortName == [c] || o.name == [c]
  }

  /** A letter finds the first option that is abbreviated or named by it. */
  lemma {:induction false} FindShortFirst(table: seq<DriverOption>, c: char)
    ensures FindShort(table, c) == None <==>
            forall i :: 0 <= i < |table| ==> table[i].shortName != [c] && table[i].name != [c]
    ensures forall i :: 0 <= i < |table| && HasLetter(table[i], c) && (forall j :: 0 <= j < i ==> !HasLetter(table[j], c)) ==>
              FindShort(table, c) == Some(table[i])
  {
    if table != [] {
      var rest := table[1..];
      FindShortFirst(rest, c);
      assert forall i :: 0 <= i < |rest| ==> rest[i] == table[i + 1];
      forall i | 0 < i < |table| && HasLetter(table[i], c) && forall j :: 0 <= j < i ==> !HasLetter(table[j], c)
        ensures FindShort(table, c) == Some(table[i])
      {
        assert rest[i - 1] == table[i] && forall j :: 0 <= j < i - 1 ==> !HasLetter(rest[j], c);
      }
    }
  }

  lemma {:induction false} FindLongDistinct(table: seq<DriverOption>, i: nat)
    requires i < |table|
    requires forall j, k :: 0 <= j < k < |table| ==> table[j].name != table[k].name
    ensures FindLong(table, table[i].name) == Some(table[i])
  {
    if i > 0 { FindLongDistinct(table[1..], i - 1); }
  }

  // ---- one step -------------------------------------------------------------------------

  datatype StepResult = Next(st: State, rest: seq<string>) | Fail(st: State, error: Error)

  function Apply(cfg: Config, st: State, id: int, value: string, rest: seq<string>, error: Error): StepResult {
    var next := st.(calls := st.calls + [Call(id, value)]);
    if cfg.accept(next.calls) then Next(next, rest) else Fail(next, error)
  }

  function StepPositional(st: State, tok: string, rest: seq<string>): StepResult {
    if st.inputFile == "" then Next(st.(inputFile := tok), rest)
    else match st.runArgs
      case Some(list) => Next(st.(runArgs := Some(list + [tok])), rest)
      case None => Fail(st, UnexpectedArgument(tok))
  }

  /** Position of the first '=', or the length. */
  function EqualsAt(s: string): (i: nat)
    ensures i <= |s|
  {
    if s == "" || s[0] == '=' then 0 else 1 + EqualsAt(s[1..])
  }

  function PassOn(st: State, tok: string, rest: seq<string>, error: Error): StepResult {
    match st.passthrough
    case Some(list) => Next(st.(passthrough := Some(list + [tok])), rest)
    case None => Fail(st, error)
  }

  function StepLong(cfg: Config, st: State, tok: string, rest: seq<string>): StepResult
    requires |tok| >= 2
  {
    var body := tok[2..];
    var eq := EqualsAt(body);
    var name, hasVal := body[..eq], eq < |body|;
    match FindLong(cfg.table, name)
    case None => PassOn(st, tok, rest, UnknownLong(name))
    case Some(o) =>
      if o.kind == Flag then
        if hasVal then Fail(st, NoValueLong(name)) else Apply(cfg, st, o.id, "", rest, InvalidLong(name))
      else if hasVal then Apply(cfg, st, o.id, body[eq + 1..], rest, InvalidLong(name))
      else if o.kind == OptionalValue then Apply(cfg, st, o.id, "", rest, InvalidLong(name))
      else if rest == [] then Fail(st, MissingLong(name))
      else Apply(cfg, st, o.id, rest[0], rest[1..], InvalidLong(name))
  }

  predicate SaysNo(s: string) {
    |s| >= 3 && s[..3] == "no-"
  }

  function StepFeature(cfg: Config, st: State, tok: string, rest: seq<string>): StepResult
    requires |tok| >= 2
  {
    var raw := tok[2..];
    var enable := !SaysNo(raw);
    var name := if enable then raw else raw[3..];
    match FindLong(cfg.table, name)
    case None => PassOn(st, tok, rest, UnknownFeature(name))
    case Some(o) =>
      if o.kind != Flag then Fail(st, NotBoolean(name))
      else Apply(cfg, st, o.id, if enable then "on" else "off", rest, InvalidFeature(name))
  }

  predicate IsHelpRequest(tok: string) {
    tok == "-Whelp" || tok == "-Whelp-dsl" || tok == "-Whelp-predef-macros" || tok == "-Whelp-check-areas"
  }

  function StepDiagnostic(st: State, tok: string, rest: seq<string>): StepResult {
    Next(st.(diagArgs := st.diagArgs + [tok], diagHelp := st.diagHelp || IsHelpRequest(tok)), rest)
  }

  function StepShort(cfg: Config, st: State, tok: string, rest: seq<string>): StepResult
    requires |tok| >= 2
  {
    var c := tok[1];
    match FindShort(cfg.table, c)
    case None => Fail(st, UnknownShort(c))
    case Some(o) =>
      if o.kind == Flag then
        if |tok| > 2 then Fail(st, NoValueShort(c)) else Apply(cfg, st, o.id, "", rest, InvalidShort(c))
      else if |tok| > 2 then Apply(cfg, st, o.id, tok[2..], rest, InvalidShort(c))
      else if rest == [] then Fail(st, MissingShort(c))
      else Apply(cfg, st, o.id, rest[0], rest[1..], InvalidShort(c))
  }

  /** What the first char or two of a token make of it. */
  datatype Shape = SeparatorShape | LongShape | FeatureShape | DiagnosticShape | ShortShape | PlainShape

  function ShapeOf(tok: string): (s: Shape)
    ensures s != PlainShape && s != SeparatorShape ==> |tok| >= 2
  {
    if tok == "--" then SeparatorShape
    else if |tok| >= 2 && tok[0] == '-' then
      if tok[1] == '-' then LongShape
      else if tok[1] == 'f' && |tok| >= 3 then FeatureShape
      else if tok[1] == 'W' then DiagnosticShape
      else ShortShape
    else PlainShape
  }

  function Step(cfg: Config, st: State, ts: seq<string>): StepResult
    requires ts != []
  {
    var tok, rest := ts[0], ts[1..];
    if st.positionalOnly then StepPositional(st, tok, rest)
    else match ShapeOf(tok)
      case SeparatorShape => Next(st.(positionalOnly := true), rest)
      case LongShape => StepLong(cfg, st, tok, rest)
      case FeatureShape => StepFeature(cfg, st, tok, rest)
      case DiagnosticShape => StepDiagnostic(st, tok, rest)
      case ShortShape => StepShort(cfg, st, tok, rest)
      case PlainShape => StepPositional(st, tok, rest)
  }

  lemma StepConsumes(cfg: Config, st: State, ts: seq<string>)
    requires ts != []
    ensures Step(cfg, st, ts).Next? ==> |Step(cfg, st, ts).rest| < |ts|
  {
  }

  datatype Outcome = Outcome(st: State, error: Option<Error>)

  function Parse(cfg: Config, st: State, ts: seq<string>): Outcome
    decreases |ts|
  {
    if ts == [] then Outcome(st, None)
    else
      StepConsumes(cfg, st, ts);
      match Step(cfg, st, ts)
      case Next(next, rest) => Parse(cfg, next, rest)
      case Fail(last, error) => Outcome(last, Some(error))
  }

  // ---- the loop -------------------------------------------------------------------------

  /** The caller's variables, written in place. */
  class Target {
    var calls: seq<Call>
    var diagArgs: seq<string>
    var diagHelp: bool
    var inputFile: string
    var passthrough: Option<seq<string>>
    var runArgs: Option<seq<string>>

    function Snapshot(positionalOnly: bool): State
      reads this
    {
      State(calls, diagArgs, diagHelp, inputFile, passthrough, runArgs, positionalOnly)
    }

    constructor (passthrough: Option<seq<string>>, runArgs: Option<seq<string>>)
      ensures Snapshot(false) == State([], [], false, "", passthrough, runArgs, false)
    {
      calls, diagArgs, diagHelp, inputFile := [], [], false, "";
      this.passthrough, this.runArgs := passthrough, runArgs;
    }

    method ApplyOption(cfg: Config, id: int, value: string) returns (ok: bool)
      modifies this
      ensures forall p :: Snapshot(p) == old(Snapshot(p)).(calls := old(calls) + [Call(id, value)])
      ensures ok == cfg.accept(calls)
    {
      calls := calls + [Call(id, value)];
      ok := cfg.accept(calls);
    }

    method TakePositional(tok: string) returns (error: Option<Error>)
      modifies this
      ensures forall p, rest :: Agrees(StepPositional(old(Snapshot(p)), tok, rest), Snapshot(p), rest, error)
    {
      if inputFile == "" {
        inputFile := tok;
      } else if runArgs.Some? {
        runArgs := Some(runArgs.value + [tok]);
      } else {
        return Some(UnexpectedArgument(tok));
      }
      return None;
    }

    method TakeUnknown(tok: string, unknown: Error) returns (error: Option<Error>)
      modifies this
      ensures forall p, rest :: Agrees(PassOn(old(Snapshot(p)), tok, rest, unknown), Snapshot(p), rest, error)
    {
      if passthrough.Some? {
        passthrough := Some(passthrough.value + [tok]);
        return None;
      }
      return Some(unknown);
    }

    /** `used` counts the tokens after `tok` that were consumed as its value. */
    method TakeLong(cfg: Config, tok: string, rest: seq<string>) returns (error: Option<Error>, used: nat)
      requires |tok| >= 2
      modifies this
      ensures used <= |rest|
      ensures forall p :: Agrees(StepLong(cfg, old(Snapshot(p)), tok, rest), Snapshot(p), rest[used..], error)
    {
      used := 0;
      var body := tok[2..];
      var eq := EqualsAt(body);
      var name, hasVal := body[..eq], eq < |body|;
      var o := FindLong(cfg.table, name);
      if o == None {
        error := TakeUnknown(tok, UnknownLong(name));
        return;
      }
      var v := if hasVal then body[eq + 1..] else "";
      if o.value.kind == Flag {
        if hasVal {
          return Some(NoValueLong(name)), 0;
        }
      } else if o.value.kind != OptionalValue && !hasVal {
        if rest == [] {
          return Some(MissingLong(name)), 0;
        }
        v := rest[0];
        used := 1;
      }
      var ok := ApplyOption(cfg, o.value.id, v);
      error := if ok then None else Some(InvalidLong(name));
    }

    method TakeFeature(cfg: Config, tok: string) returns (error: Option<Error>)
      requires |tok| >= 2
      modifies this
      ensures forall p, rest :: Agrees(StepFeature(cfg, old(Snapshot(p)), tok, rest), Snapshot(p), rest, error)
    {
      var name := tok[2..];
      var enable := true;
      if SaysNo(name) {
        enable := false;
        name := name[3..];
      }
      var o := FindLong(cfg.table, name);
      if o == None {
        error := TakeUnknown(tok, UnknownFeature(name));
        return;
      }
      if o.value.kind != Flag {
        return Some(NotBoolean(name));
      }
      var ok := ApplyOption(cfg, o.value.id, if enable then "on" else "off");
      error := if ok then None else Some(InvalidFeature(name));
    }

    method TakeDiagnostic(tok: string)
      modifies this
      ensures forall p, rest :: StepDiagnostic(old(Snapshot(p)), tok, rest) == Next(Snapshot(p), rest)
    {
      diagArgs := diagArgs + [tok];
      if IsHelpRequest(tok) {
        diagHelp := true;
      }
    }

    method TakeShort(cfg: Config, tok: string, rest: seq<string>) returns (error: Option<Error>, used: nat)
      requires |tok| >= 2
      modifies this
      ensures used <= |rest|
      ensures forall p :: Agrees(StepShort(cfg, old(Snapshot(p)), tok, rest), Snapshot(p), rest[used..], error)
    {
      used := 0;
      var c := tok[1];
      var o := FindShort(cfg.table, c);
      if o == None {
        return Some(UnknownShort(c)), 0;
      }
      var v := tok[2..];
      if o.value.kind == Flag {
        if v != "" {
          return Some(NoValueShort(c)), 0;
        }
      } else if v == "" {
        if rest == [] {
          return Some(MissingShort(c)), 0;
        }
        v := rest[0];
        used := 1;
      }
      var ok := ApplyOption(cfg, o.value.id, v);
      error := if ok then None else Some(InvalidShort(c));
    }

    /** One token and the values it consumes. */
    method Take(cfg: Config, ts: seq<string>, positionalOnly: bool)
      returns (error: Option<Error>, rest: seq<string>, positional: bool)
      requires ts != []
      modifies this
      ensures Agrees(Step(cfg, old(Snapshot(positionalOnly)), ts), Snapshot(positional), rest, error)
      ensures |rest| < |ts|
      ensures exists n :: 0 <= n <= |ts| && rest == ts[n..]
    {
      var tok := ts[0];
      error, rest, positional := None, ts[1..], positionalOnly;
      if positionalOnly {
        error := TakePositional(tok);
        return;
      }
      var used := 0;
      match ShapeOf(tok) {
        case SeparatorShape => positional := true;
        case LongShape => error, used := TakeLong(cfg, tok, rest);
        case FeatureShape => error := TakeFeature(cfg, tok);
        case DiagnosticShape => TakeDiagnostic(tok);
        case ShortShape => error, used := TakeShort(cfg, tok, rest);
        case PlainShape => error := TakePositional(tok);
      }
      assert rest[used..] == ts[1 + used..];
      rest := rest[used..];
    }
  }

  /** The in-place update produced this result of a step. */
  predicate Agrees(r: StepResult, st: State, rest: seq<string>, error: Option<Error>) {
    match error
    case None => r == Next(st, rest)
    case Some(e) => r == Fail(st, e)
  }

  function Tail(args: seq<string>): seq<string> {
    if args == [] then [] else args[1..]
  }

  /** `args[0]` is the program name.  Stops at the first error; what was parsed up to
      there stays in the target. */
  method ParseDriverArgs(cfg: Config, args: seq<string>, target: Target) returns (error: Option<Error>)
    modifies target
    ensures var out := Parse(cfg, old(target.Snapshot(false)), Tail(args));
            error == out.error && exists p :: out.st == target.Snapshot(p)
  {
    var positionalOnly := false;
    var ts := Tail(args);
    ghost var all := Parse(cfg, target.Snapshot(false), ts);
    while ts != []
      invariant Parse(cfg, target.Snapshot(positionalOnly), ts) == all
      decreases |ts|
    {
      error, ts, positionalOnly := target.Take(cfg, ts, positionalOnly);
      if error.Some? {
        return;
      }
    }
    return None;
  }
}

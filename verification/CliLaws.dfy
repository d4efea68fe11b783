/** Printing and parsing command lines are inverse, and parsing composes. */
module CliLaws {
  import opened Types
  import opened Cli

  /** One item of a command line in the form in which it is written. */
  datatype Directive =
    | LongFlag(name: string)                       // --name
    | LongBare(name: string)                       // --name, value omitted
    | LongEquals(name: string, value: string)      // --name=value
    | LongSpace(name: string, value: string)       // --name value
    | Feature(name: string, on: bool)              // -fname, -fno-name
    | Diagnostic(tok: string)                      // -W...
    | ShortFlag(c: char)                           // -c
    | ShortAttached(c: char, value: string)        // -cvalue
    | ShortSpace(c: char, value: string)           // -c value
    | Plain(tok: string)                           // a positional argument
    | Separator                                    // --
    | Foreign(tok: string)                         // an option handed on to the analysis

  function Tokens(d: Directive): seq<string> {
    match d
    case LongFlag(n) => ["--" + n]
    case LongBare(n) => ["--" + n]
    case LongEquals(n, v) => ["--" + n + "=" + v]
    case LongSpace(n, v) => ["--" + n, v]
    case Feature(n, on) => [if on then "-f" + n else "-fno-" + n]
    case Diagnostic(t) => [t]
    case ShortFlag(c) => ["-" + [c]]
    case ShortAttached(c, v) => ["-" + [c] + v]
    case ShortSpace(c, v) => ["-" + [c], v]
    case Plain(t) => [t]
    case Separator => ["--"]
    case Foreign(t) => [t]
  }

  predicate LongName(name: string) {
    EqualsAt(name) == |name|
  }

  function LongKind(cfg: Config, name: string): Option<Kind> {
    match FindLong(cfg.table, name) case None => None case Some(o) => Some(o.kind)
  }

  function ShortKind(cfg: Config, c: char): Option<Kind> {
    match FindShort(cfg.table, c) case None => None case Some(o) => Some(o.kind)
  }

  predicate ShortLetter(c: char) {
    c != '-' && c != 'W'
  }

  /** Unknown to the table, so handed on when the caller collects foreign options. */
  predicate IsForeign(cfg: Config, tok: string) {
    match ShapeOf(tok)
    case LongShape => LongKind(cfg, tok[2..][..EqualsAt(tok[2..])]) == None
    case FeatureShape =>
      var raw := tok[2..];
      LongKind(cfg, if SaysNo(raw) then raw[3..] else raw) == None
    case _ => false
  }

  /** The callback call a directive stands for, if any. */
  function CallOf(cfg: Config, d: Directive): Option<Call> {
    match d
    case LongFlag(n) => LongCall(cfg, n, "")
    case LongBare(n) => LongCall(cfg, n, "")
    case LongEquals(n, v) => LongCall(cfg, n, v)
    case LongSpace(n, v) => LongCall(cfg, n, v)
    case Feature(n, on) => LongCall(cfg, n, if on then "on" else "off")
    case ShortFlag(c) => ShortCall(cfg, c, "")
    case ShortAttached(c, v) => ShortCall(cfg, c, v)
    case ShortSpace(c, v) => ShortCall(cfg, c, v)
    case _ => None
  }

  function LongCall(cfg: Config, name: string, value: string): Option<Call> {
    match FindLong(cfg.table, name) case None => None case Some(o) => Some(Call(o.id, value))
  }

  function ShortCall(cfg: Config, c: char, value: string): Option<Call> {
    match FindShort(cfg.table, c) case None => None case Some(o) => Some(Call(o.id, value))
  }

  /** The directive is written in a form that its option allows. */
  predicate FormFits(cfg: Config, d: Directive) {
    match d
    case LongFlag(n) => n != "" && LongName(n) && LongKind(cfg, n) == Some(Flag)
    case LongBare(n) => n != "" && LongName(n) && LongKind(cfg, n) == Some(OptionalValue)
    case LongEquals(n, _) => LongName(n) && LongKind(cfg, n).Some? && LongKind(cfg, n) != Some(Flag)
    case LongSpace(n, _) =>
      n != "" && LongName(n) && (LongKind(cfg, n) == Some(Value) || LongKind(cfg, n) == Some(ValueList))
    case Feature(n, on) => (on ==> n != "" && !SaysNo(n)) && LongKind(cfg, n) == Some(Flag)
    case Diagnostic(t) => ShapeOf(t) == DiagnosticShape
    case ShortFlag(c) => ShortLetter(c) && ShortKind(cfg, c) == Some(Flag)
    case ShortAttached(c, v) =>
      ShortLetter(c) && c != 'f' && v != "" && ShortKind(cfg, c).Some? && ShortKind(cfg, c) != Some(Flag)
    case ShortSpace(c, _) => ShortLetter(c) && ShortKind(cfg, c).Some? && ShortKind(cfg, c) != Some(Flag)
    case Plain(t) => ShapeOf(t) == PlainShape
    case Separator => true
    case Foreign(t) => IsForeign(cfg, t)
  }

  function Effect(cfg: Config, st: State, d: Directive): State {
    match d
    case Diagnostic(t) => st.(diagArgs := st.diagArgs + [t], diagHelp := st.diagHelp || IsHelpRequest(t))
    case Plain(t) =>
      if st.inputFile == "" then st.(inputFile := t)
      else (match st.runArgs case None => st case Some(list) => st.(runArgs := Some(list + [t])))
    case Separator => st.(positionalOnly := true)
    case Foreign(t) => (match st.passthrough case None => st case Some(list) => st.(passthrough := Some(list + [t])))
    case _ => (match CallOf(cfg, d) case None => st case Some(call) => st.(calls := st.calls + [call]))
  }

  /** The directive may stand here: after a separator only positionals do, there is
      room for it, and the callback agrees. */
  predicate Allowed(cfg: Config, st: State, d: Directive) {
    && (if st.positionalOnly then d.Plain? else FormFits(cfg, d))
    && (d.Plain? ==> st.inputFile == "" || st.runArgs.Some?)
    && (d.Foreign? ==> st.passthrough.Some?)
    && (CallOf(cfg, d).Some? ==> cfg.accept(st.calls + [CallOf(cfg, d).value]))
  }

  // ---- one directive ------------------------------------------------------------------------

  lemma {:induction false} EqualsBehind(n: string, v: string)
    requires LongName(n)
    ensures EqualsAt(n + "=" + v) == |n|
  {
    if n != "" {
      EqualsBehind(n[1..], v);
      assert (n + "=" + v)[1..] == n[1..] + "=" + v;
    } else {
      assert ("" + "=" + v)[0] == '=';
    }
  }

  lemma {:induction false} EqualsPrefix(s: string)
    ensures LongName(s[..EqualsAt(s)])
    ensures EqualsAt(s) < |s| ==> s[EqualsAt(s)] == '=' && s == s[..EqualsAt(s)] + "=" + s[EqualsAt(s) + 1..]
  {
    if s != "" && s[0] != '=' {
      EqualsPrefix(s[1..]);
      var e := EqualsAt(s[1..]);
      assert s[..1 + e][1..] == s[1..][..e];
    }
  }

  lemma LongEqualsSteps(cfg: Config, st: State, n: string, v: string, rest: seq<string>)
    requires !st.positionalOnly && Allowed(cfg, st, LongEquals(n, v))
    ensures Step(cfg, st, Tokens(LongEquals(n, v)) + rest) == Next(Effect(cfg, st, LongEquals(n, v)), rest)
  {
    var tok := "--" + n + "=" + v;
    EqualsBehind(n, v);
    assert tok[2..] == n + "=" + v;
    assert (n + "=" + v)[..|n|] == n && (n + "=" + v)[|n| + 1..] == v;
    assert ShapeOf(tok) == LongShape;
    assert ([tok] + rest)[1..] == rest;
  }

  lemma LongBareSteps(cfg: Config, st: State, d: Directive, rest: seq<string>)
    requires d.LongFlag? || d.LongBare?
    requires !st.positionalOnly && Allowed(cfg, st, d)
    ensures Step(cfg, st, Tokens(d) + rest) == Next(Effect(cfg, st, d), rest)
  {
    var tok := "--" + d.name;
    assert tok[2..] == d.name && d.name[..|d.name|] == d.name;
    assert ShapeOf(tok) == LongShape;
    assert ([tok] + rest)[1..] == rest;
  }

  lemma LongSpaceSteps(cfg: Config, st: State, n: string, v: string, rest: seq<string>)
    requires !st.positionalOnly && Allowed(cfg, st, LongSpace(n, v))
    ensures Step(cfg, st, Tokens(LongSpace(n, v)) + rest) == Next(Effect(cfg, st, LongSpace(n, v)), rest)
  {
    var tok := "--" + n;
    assert tok[2..] == n && n[..|n|] == n;
    assert ShapeOf(tok) == LongShape;
    assert ([tok, v] + rest)[1..] == [v] + rest;
    assert ([v] + rest)[1..] == rest;
  }

  lemma FeatureSteps(cfg: Config, st: State, d: Directive, rest: seq<string>)
    requires d.Feature? && !st.positionalOnly && Allowed(cfg, st, d)
    ensures Step(cfg, st, Tokens(d) + rest) == Next(Effect(cfg, st, d), rest)
  {
    var ts := Tokens(d) + rest;
    var tok := ts[0];
    assert ts[1..] == rest;
    if d.on {
      assert tok[2..] == d.name;
    } else {
      assert tok[2..] == "no-" + d.name;
      assert ("no-" + d.name)[..3] == "no-" && ("no-" + d.name)[3..] == d.name;
    }
  }

  lemma ShortSteps(cfg: Config, st: State, d: Directive, rest: seq<string>)
    requires d.ShortFlag? || d.ShortAttached? || d.ShortSpace?
    requires !st.positionalOnly && Allowed(cfg, st, d)
    ensures Step(cfg, st, Tokens(d) + rest) == Next(Effect(cfg, st, d), rest)
  {
    var tok := Tokens(d)[0];
    match d
    case ShortAttached(c, v) =>
      assert tok[2..] == v && tok[1] == c && tok[0] == '-';
      assert ShapeOf(tok) == ShortShape;
      assert ([tok] + rest)[1..] == rest;
    case ShortSpace(c, v) =>
      assert |tok| == 2 && tok[1] == c && tok[0] == '-';
      assert tok != "--" && ShapeOf(tok) == ShortShape;
      assert ([tok, v] + rest)[1..] == [v] + rest;
      assert ([v] + rest)[1..] == rest;
    case ShortFlag(c) =>
      assert |tok| == 2 && tok[1] == c && tok[0] == '-';
      assert tok != "--" && ShapeOf(tok) == ShortShape;
      assert ([tok] + rest)[1..] == rest;
  }

  /** Reading back what a directive prints has exactly its effect. */
  lemma DirectiveSteps(cfg: Config, st: State, d: Directive, rest: seq<string>)
    requires Allowed(cfg, st, d)
    ensures Step(cfg, st, Tokens(d) + rest) == Next(Effect(cfg, st, d), rest)
  {
    assert |Tokens(d)| == 1 ==> (Tokens(d) + rest)[1..] == rest;
    if !st.positionalOnly {
      match d
      case LongFlag(_) => LongBareSteps(cfg, st, d, rest);
      case LongBare(_) => LongBareSteps(cfg, st, d, rest);
      case LongEquals(n, v) => LongEqualsSteps(cfg, st, n, v, rest);
      case LongSpace(n, v) => LongSpaceSteps(cfg, st, n, v, rest);
      case Feature(_, _) => FeatureSteps(cfg, st, d, rest);
      case ShortFlag(_) => ShortSteps(cfg, st, d, rest);
      case ShortAttached(_, _) => ShortSteps(cfg, st, d, rest);
      case ShortSpace(_, _) => ShortSteps(cfg, st, d, rest);
      case _ =>
    }
  }

  /** The directive that the parser recognises in front of the tokens. */
  function Recognised(cfg: Config, st: State, ts: seq<string>): Directive
    requires ts != []
  {
    var tok := ts[0];
    if st.positionalOnly then Plain(tok)
    else match ShapeOf(tok)
      case SeparatorShape => Separator
      case LongShape =>
        var body := tok[2..];
        var eq := EqualsAt(body);
        (match LongKind(cfg, body[..eq])
         case None => Foreign(tok)
         case Some(k) =>
           if eq < |body| then LongEquals(body[..eq], body[eq + 1..])
           else if k == Flag then LongFlag(body)
           else if k == OptionalValue then LongBare(body)
           else if |ts| > 1 then LongSpace(body, ts[1]) else LongBare(body))
      case FeatureShape =>
        var raw := tok[2..];
        var name := if SaysNo(raw) then raw[3..] else raw;
        if LongKind(cfg, name) == None then Foreign(tok) else Feature(name, !SaysNo(raw))
      case DiagnosticShape => Diagnostic(tok)
      case ShortShape =>
        (match ShortKind(cfg, tok[1])
         case None => ShortFlag(tok[1])
         case Some(k) =>
           if k == Flag then ShortFlag(tok[1])
           else if |tok| > 2 then ShortAttached(tok[1], tok[2..])
           else if |ts| > 1 then ShortSpace(tok[1], ts[1]) else ShortFlag(tok[1]))
      case PlainShape => Plain(tok)
  }

  lemma LongRecognised(cfg: Config, st: State, ts: seq<string>)
    requires ts != [] && !st.positionalOnly && ShapeOf(ts[0]) == LongShape && Step(cfg, st, ts).Next?
    ensures var d := Recognised(cfg, st, ts);
            Allowed(cfg, st, d) && ts == Tokens(d) + Step(cfg, st, ts).rest
  {
    var body := ts[0][2..];
    assert ts[0] == "--" + body;
    EqualsPrefix(body);
    var eq := EqualsAt(body);
    assert ts == [ts[0]] + ts[1..];
    if eq == |body| {
      assert body[..eq] == body;
    } else {
      assert "--" + body == "--" + body[..eq] + "=" + body[eq + 1..];
    }
    if |ts| > 1 {
      assert ts[1..] == [ts[1]] + ts[1..][1..];
      assert ts == [ts[0], ts[1]] + ts[1..][1..];
    }
  }

  lemma FeatureRecognised(cfg: Config, st: State, ts: seq<string>)
    requires ts != [] && !st.positionalOnly && ShapeOf(ts[0]) == FeatureShape && Step(cfg, st, ts).Next?
    ensures var d := Recognised(cfg, st, ts);
            Allowed(cfg, st, d) && ts == Tokens(d) + Step(cfg, st, ts).rest
  {
    var raw := ts[0][2..];
    assert ts == [ts[0]] + ts[1..];
    assert ts[0] == "-f" + raw;
    if SaysNo(raw) {
      assert raw == "no-" + raw[3..];
      assert "-f" + ("no-" + raw[3..]) == "-fno-" + raw[3..];
    }
  }

  lemma ShortRecognised(cfg: Config, st: State, ts: seq<string>)
    requires ts != [] && !st.positionalOnly && ShapeOf(ts[0]) == ShortShape && Step(cfg, st, ts).Next?
    ensures var d := Recognised(cfg, st, ts);
            Allowed(cfg, st, d) && ts == Tokens(d) + Step(cfg, st, ts).rest
  {
    var tok := ts[0];
    assert ts == [tok] + ts[1..];
    assert tok == "-" + [tok[1]] + tok[2..];
    assert |tok| == 2 ==> tok == "-" + [tok[1]];
    if |ts| > 1 {
      assert ts[1..] == [ts[1]] + ts[1..][1..];
      assert ts == [tok, ts[1]] + ts[1..][1..];
    }
  }

  /** Every successful step reads one directive that is allowed here, consumes its
      tokens and no others, and has its effect. */
  lemma StepReadsDirective(cfg: Config, st: State, ts: seq<string>)
    requires ts != [] && Step(cfg, st, ts).Next?
    ensures var d := Recognised(cfg, st, ts);
            Allowed(cfg, st, d)
            && ts == Tokens(d) + Step(cfg, st, ts).rest
            && Step(cfg, st, ts).st == Effect(cfg, st, d)
  {
    if st.positionalOnly {
      assert ts == [ts[0]] + ts[1..];
    } else {
      match ShapeOf(ts[0])
      case LongShape => LongRecognised(cfg, st, ts);
      case FeatureShape => FeatureRecognised(cfg, st, ts);
      case ShortShape => ShortRecognised(cfg, st, ts);
      case _ => assert ts == [ts[0]] + ts[1..];
    }
    DirectiveSteps(cfg, st, Recognised(cfg, st, ts), Step(cfg, st, ts).rest);
  }

  // ---- whole command lines ---------------------------------------------------------------------

  function Print(ds: seq<Directive>): seq<string> {
    if ds == [] then [] else Tokens(ds[0]) + Print(ds[1..])
  }

  predicate AllAllowed(cfg: Config, st: State, ds: seq<Directive>)
    decreases |ds|
  {
    ds == [] || (Allowed(cfg, st, ds[0]) && AllAllowed(cfg, Effect(cfg, st, ds[0]), ds[1..]))
  }

  function Replay(cfg: Config, st: State, ds: seq<Directive>): State
    decreases |ds|
  {
    if ds == [] then st else Replay(cfg, Effect(cfg, st, ds[0]), ds[1..])
  }

  /** Printing then parsing: no error, and exactly the effects of the directives, in
      order. */
  lemma {:induction false} ParseInvertsPrint(cfg: Config, st: State, ds: seq<Directive>)
    requires AllAllowed(cfg, st, ds)
    ensures Parse(cfg, st, Print(ds)) == Outcome(Replay(cfg, st, ds), None)
    decreases |ds|
  {
    if ds != [] {
      DirectiveSteps(cfg, st, ds[0], Print(ds[1..]));
      ParseInvertsPrint(cfg, Effect(cfg, st, ds[0]), ds[1..]);
    }
  }

  /** Parsing then printing: an accepted command line is the print-out of allowed
      directives, every token belongs to exactly one of them, and their effects are
      the result. */
  lemma {:induction false} PrintInvertsParse(cfg: Config, st: State, ts: seq<string>) returns (ds: seq<Directive>)
    requires Parse(cfg, st, ts).error == None
    ensures AllAllowed(cfg, st, ds) && Print(ds) == ts && Parse(cfg, st, ts).st == Replay(cfg, st, ds)
    decreases |ts|
  {
    if ts == [] {
      ds := [];
    } else {
      StepConsumes(cfg, st, ts);
      StepReadsDirective(cfg, st, ts);
      var step := Step(cfg, st, ts);
      var tail := PrintInvertsParse(cfg, step.st, step.rest);
      ds := [Recognised(cfg, st, ts)] + tail;
      assert ds[1..] == tail;
    }
  }

  /** A command line is accepted exactly when it prints allowed directives. */
  lemma AcceptedIffPrinted(cfg: Config, st: State, ts: seq<string>)
    ensures Parse(cfg, st, ts).error == None <==> exists ds :: AllAllowed(cfg, st, ds) && Print(ds) == ts
  {
    if Parse(cfg, st, ts).error == None {
      var ds := PrintInvertsParse(cfg, st, ts);
    }
    forall ds | AllAllowed(cfg, st, ds) && Print(ds) == ts ensures Parse(cfg, st, ts).error == None {
      ParseInvertsPrint(cfg, st, ds);
    }
  }

  // ---- errors ----------------------------------------------------------------------------------

  /** What each error says about the token at which it is raised. */
  predicate Explains(cfg: Config, st: State, ts: seq<string>, error: Error)
    requires ts != []
  {
    match error
    case UnexpectedArgument(t) => t == ts[0] && st.inputFile != "" && st.runArgs == None
    case UnknownLong(n) => LongKind(cfg, n) == None && st.passthrough == None
    case NoValueLong(n) => LongKind(cfg, n) == Some(Flag) && "--" + n + "=" <= ts[0]
    case MissingLong(n) =>
      (LongKind(cfg, n) == Some(Value) || LongKind(cfg, n) == Some(ValueList)) && ts == ["--" + n]
    case InvalidLong(n) => LongKind(cfg, n).Some?
    case UnknownFeature(n) => LongKind(cfg, n) == None && st.passthrough == None
    case NotBoolean(n) => LongKind(cfg, n).Some? && LongKind(cfg, n) != Some(Flag)
    case InvalidFeature(n) => LongKind(cfg, n) == Some(Flag)
    case UnknownShort(c) => ShortKind(cfg, c) == None
    case NoValueShort(c) => ShortKind(cfg, c) == Some(Flag) && "-" + [c] < ts[0]
    case MissingShort(c) => ShortKind(cfg, c).Some? && ShortKind(cfg, c) != Some(Flag) && ts == ["-" + [c]]
    case InvalidShort(c) => ShortKind(cfg, c).Some?
  }

  predicate RefusedByCallback(error: Error) {
    error.InvalidLong? || error.InvalidFeature? || error.InvalidShort?
  }

  /** The callback saw the refused call; otherwise nothing was changed. */
  predicate StateAtError(cfg: Config, st: State, r: StepResult)
    requires r.Fail?
  {
    if RefusedByCallback(r.error) then
      |r.st.calls| == |st.calls| + 1 && !cfg.accept(r.st.calls) && r.st.(calls := st.calls) == st
    else r.st == st
  }

  /** A long token is its name, or its name, '=' and a value. */
  lemma LongFront(tok: string)
    requires ShapeOf(tok) == LongShape
    ensures var body := tok[2..];
            var name := body[..EqualsAt(body)];
            if EqualsAt(body) < |body| then "--" + name + "=" <= tok else tok == "--" + name
  {
    var body := tok[2..];
    var eq := EqualsAt(body);
    EqualsPrefix(body);
    assert tok == "--" + body;
    if eq < |body| {
      assert tok == ("--" + body[..eq] + "=") + body[eq + 1..];
    } else {
      assert body[..eq] == body;
    }
  }

  lemma LongError(cfg: Config, st: State, ts: seq<string>)
    requires ts != [] && ShapeOf(ts[0]) == LongShape && StepLong(cfg, st, ts[0], ts[1..]).Fail?
    ensures var r := StepLong(cfg, st, ts[0], ts[1..]);
            Explains(cfg, st, ts, r.error) && StateAtError(cfg, st, r)
  {
    LongFront(ts[0]);
    if ts[1..] == [] {
      assert ts == [ts[0]];
    }
  }

  lemma FeatureError(cfg: Config, st: State, ts: seq<string>)
    requires ts != [] && ShapeOf(ts[0]) == FeatureShape && StepFeature(cfg, st, ts[0], ts[1..]).Fail?
    ensures var r := StepFeature(cfg, st, ts[0], ts[1..]);
            Explains(cfg, st, ts, r.error) && StateAtError(cfg, st, r)
  {
  }

  lemma ShortError(cfg: Config, st: State, ts: seq<string>)
    requires ts != [] && ShapeOf(ts[0]) == ShortShape && StepShort(cfg, st, ts[0], ts[1..]).Fail?
    ensures var r := StepShort(cfg, st, ts[0], ts[1..]);
            Explains(cfg, st, ts, r.error) && StateAtError(cfg, st, r)
  {
    var tok := ts[0];
    var front := "-" + [tok[1]];
    assert tok == front + tok[2..];
    if |tok| == 2 {
      assert tok == front;
    }
    if ts[1..] == [] {
      assert ts == [tok];
    }
  }

  lemma ErrorMeaning(cfg: Config, st: State, ts: seq<string>)
    requires ts != [] && Step(cfg, st, ts).Fail?
    ensures var r := Step(cfg, st, ts);
            Explains(cfg, st, ts, r.error) && StateAtError(cfg, st, r)
  {
    if !st.positionalOnly {
      match ShapeOf(ts[0])
      case LongShape => LongError(cfg, st, ts);
      case FeatureShape => FeatureError(cfg, st, ts);
      case ShortShape => ShortError(cfg, st, ts);
      case _ =>
    }
  }

  lemma NoDirectiveFits(cfg: Config, st: State, ts: seq<string>, d: Directive)
    requires ts != [] && Step(cfg, st, ts).Fail? && Allowed(cfg, st, d)
    ensures !(Tokens(d) <= ts)
  {
    var n := |Tokens(d)|;
    if n <= |ts| {
      DirectiveSteps(cfg, st, d, ts[n..]);
      assert ts == ts[..n] + ts[n..];
    }
  }

  /** An error is raised at the first place where no allowed directive can be read;
      everything before it has been applied, and the error says what is wrong there. */
  lemma {:induction false} ErrorIsFirst(cfg: Config, st: State, ts: seq<string>)
    returns (ds: seq<Directive>, rest: seq<string>)
    requires Parse(cfg, st, ts).error.Some?
    ensures AllAllowed(cfg, st, ds) && ts == Print(ds) + rest && rest != []
    ensures var before := Replay(cfg, st, ds);
            && (forall d :: Allowed(cfg, before, d) ==> !(Tokens(d) <= rest))
            && Explains(cfg, before, rest, Parse(cfg, st, ts).error.value)
            && Parse(cfg, st, ts).st.(calls := before.calls) == before
    decreases |ts|
  {
    StepConsumes(cfg, st, ts);
    var step := Step(cfg, st, ts);
    if step.Fail? {
      ds, rest := [], ts;
      ErrorMeaning(cfg, st, ts);
      forall d | Allowed(cfg, st, d) ensures !(Tokens(d) <= ts) {
        NoDirectiveFits(cfg, st, ts, d);
      }
    } else {
      StepReadsDirective(cfg, st, ts);
      var tail;
      tail, rest := ErrorIsFirst(cfg, step.st, step.rest);
      ds := [Recognised(cfg, st, ts)] + tail;
      assert ds[1..] == tail;
    }
  }

  // ---- composition -----------------------------------------------------------------------------

  /** Parsing composes: after a prefix that parses, the rest is parsed from the state
      the prefix left, error or not. */
  lemma {:induction false} ParseComposes(cfg: Config, st: State, prefix: seq<string>, suffix: seq<string>)
    requires Parse(cfg, st, prefix).error == None
    ensures Parse(cfg, st, prefix + suffix) == Parse(cfg, Parse(cfg, st, prefix).st, suffix)
    decreases |prefix|
  {
    if prefix == [] {
      assert prefix + suffix == suffix;
    } else {
      StepConsumes(cfg, st, prefix);
      StepReadsDirective(cfg, st, prefix);
      var d, step := Recognised(cfg, st, prefix), Step(cfg, st, prefix);
      DirectiveSteps(cfg, st, d, step.rest + suffix);
      assert prefix + suffix == Tokens(d) + (step.rest + suffix);
      ParseComposes(cfg, step.st, step.rest, suffix);
    }
  }

  // ---- canonical command lines -----------------------------------------------------------------

  function OneCall(cfg: Config, d: Directive): seq<Call> {
    match CallOf(cfg, d) case None => [] case Some(call) => [call]
  }

  function OneDiagnostic(d: Directive): seq<string> {
    if d.Diagnostic? then [d.tok] else []
  }

  function OnePositional(d: Directive): seq<string> {
    if d.Plain? then [d.tok] else []
  }

  function Calls(cfg: Config, ds: seq<Directive>): seq<Call> {
    if ds == [] then [] else OneCall(cfg, ds[0]) + Calls(cfg, ds[1..])
  }

  function Diagnostics(ds: seq<Directive>): seq<string> {
    if ds == [] then [] else OneDiagnostic(ds[0]) + Diagnostics(ds[1..])
  }

  function Positionals(ds: seq<Directive>): seq<string> {
    if ds == [] then [] else OnePositional(ds[0]) + Positionals(ds[1..])
  }

  /** Input file and program arguments read so far, in order. */
  function Collected(st: State): seq<string> {
    if st.inputFile == "" then [] else [st.inputFile] + (match st.runArgs case None => [] case Some(list) => list)
  }

  /** Fresh, or already past the input file; program arguments are collected. */
  predicate Running(st: State) {
    st.runArgs.Some? && (st.inputFile == "" ==> st.runArgs == Some([]))
  }

  lemma EffectProjects(cfg: Config, st: State, d: Directive)
    requires Running(st) && (d.Plain? ==> d.tok != "")
    ensures var r := Effect(cfg, st, d);
            Running(r) && r.calls == st.calls + OneCall(cfg, d) && r.diagArgs == st.diagArgs + OneDiagnostic(d)
            && Collected(r) == Collected(st) + OnePositional(d)
  {
  }

  /** The three projections of a result, relative to the state it started from. */
  ghost predicate Grew(cfg: Config, st: State, r: State, ds: seq<Directive>) {
    r.calls == st.calls + Calls(cfg, ds) && r.diagArgs == st.diagArgs + Diagnostics(ds)
    && Collected(r) == Collected(st) + Positionals(ds)
  }

  lemma {:induction false} ReplayProjects(cfg: Config, st: State, ds: seq<Directive>)
    requires Running(st) && forall d :: d in ds && d.Plain? ==> d.tok != ""
    ensures Grew(cfg, st, Replay(cfg, st, ds), ds)
    decreases |ds|
  {
    if ds != [] {
      var next := Effect(cfg, st, ds[0]);
      EffectProjects(cfg, st, ds[0]);
      ReplayProjects(cfg, next, ds[1..]);
      Regroup(st.calls, OneCall(cfg, ds[0]), Calls(cfg, ds[1..]));
      Regroup(st.diagArgs, OneDiagnostic(ds[0]), Diagnostics(ds[1..]));
      Regroup(Collected(st), OnePositional(ds[0]), Positionals(ds[1..]));
    }
  }

  lemma Regroup<T>(a: seq<T>, b: seq<T>, c: seq<T>)
    ensures a + b + c == a + (b + c)
  {
  }

  function PlainAll(toks: seq<string>): seq<Directive> {
    seq(|toks|, i requires 0 <= i < |toks| => Plain(toks[i]))
  }

  /** Options, diagnostics and positionals in any order and any allowed form. */
  predicate CanonicalForms(cfg: Config, ds: seq<Directive>) {
    forall d :: d in ds ==> FormFits(cfg, d) && !d.Separator? && !d.Foreign? && (d.Plain? ==> d.tok != "")
  }

  lemma {:induction false} CanonicalAllowed(cfg: Config, st: State, ds: seq<Directive>, tail: seq<string>)
    requires forall calls :: cfg.accept(calls)
    requires st.runArgs.Some? && !st.positionalOnly && CanonicalForms(cfg, ds)
    ensures AllAllowed(cfg, st, ds + [Separator] + PlainAll(tail))
    decreases |ds|
  {
    var all := ds + [Separator] + PlainAll(tail);
    if ds == [] {
      assert all[1..] == PlainAll(tail);
      PlainAllowed(cfg, Effect(cfg, st, Separator), tail);
    } else {
      assert all[1..] == ds[1..] + [Separator] + PlainAll(tail);
      assert ds[0] in ds && forall d :: d in ds[1..] ==> d in ds;
      CanonicalAllowed(cfg, Effect(cfg, st, ds[0]), ds[1..], tail);
    }
  }

  lemma {:induction false} PlainAllowed(cfg: Config, st: State, toks: seq<string>)
    requires st.runArgs.Some? && st.positionalOnly
    ensures AllAllowed(cfg, st, PlainAll(toks))
    decreases |toks|
  {
    if toks != [] {
      assert PlainAll(toks)[1..] == PlainAll(toks[1..]);
      PlainAllowed(cfg, Effect(cfg, st, Plain(toks[0])), toks[1..]);
    }
  }

  /** A canonical command line with a "--" tail is parsed without error into exactly
      its callback calls, its diagnostics, and its positionals: the first one is the
      input file and the others are the program's arguments. */
  lemma CanonicalRoundTrip(cfg: Config, st: State, ds: seq<Directive>, tail: seq<string>)
    requires forall calls :: cfg.accept(calls)
    requires Running(st) && !st.positionalOnly && CanonicalForms(cfg, ds) && "" !in tail
    ensures var all := ds + [Separator] + PlainAll(tail);
            var out := Parse(cfg, st, Print(all));
            && out.error == None
            && out.st.calls == st.calls + Calls(cfg, all)
            && out.st.diagArgs == st.diagArgs + Diagnostics(all)
            && Collected(out.st) == Collected(st) + Positionals(all)
  {
    var all := ds + [Separator] + PlainAll(tail);
    CanonicalAllowed(cfg, st, ds, tail);
    ParseInvertsPrint(cfg, st, all);
    forall d | d in all && d.Plain? ensures d.tok != "" {
      if d !in ds {
        var i :| 0 <= i < |tail| && PlainAll(tail)[i] == d;
      }
    }
    ReplayProjects(cfg, st, all);
  }

  lemma FrontToken(tok: string, next: string, rest: seq<string>)
    ensures [tok, next] + rest == [tok] + ([next] + rest)
  {
  }

  lemma EqualsForm(cfg: Config, st: State, o: DriverOption, v: string, next: string, rest: seq<string>)
    requires o.kind == OptionalValue && !st.positionalOnly && forall calls :: cfg.accept(calls)
    requires FindLong(cfg.table, o.name) == Some(o) && LongName(o.name)
    ensures Step(cfg, st, ["--" + o.name + "=" + v, next] + rest) ==
            Next(st.(calls := st.calls + [Call(o.id, v)]), [next] + rest)
  {
    DirectiveSteps(cfg, st, LongEquals(o.name, v), [next] + rest);
    FrontToken("--" + o.name + "=" + v, next, rest);
  }

  lemma AttachedForm(cfg: Config, st: State, o: DriverOption, c: char, v: string, next: string, rest: seq<string>)
    requires o.kind == OptionalValue && !st.positionalOnly && forall calls :: cfg.accept(calls)
    requires FindShort(cfg.table, c) == Some(o) && ShortLetter(c) && v != "" && c != 'f'
    ensures Step(cfg, st, ["-" + [c] + v, next] + rest) ==
            Next(st.(calls := st.calls + [Call(o.id, v)]), [next] + rest)
  {
    DirectiveSteps(cfg, st, ShortAttached(c, v), [next] + rest);
    FrontToken("-" + [c] + v, next, rest);
  }

  lemma BareForms(cfg: Config, st: State, o: DriverOption, c: char, next: string, rest: seq<string>)
    requires o.kind == OptionalValue && !st.positionalOnly && forall calls :: cfg.accept(calls)
    requires FindLong(cfg.table, o.name) == Some(o) && o.name != "" && LongName(o.name)
    requires FindShort(cfg.table, c) == Some(o) && ShortLetter(c)
    ensures Step(cfg, st, ["--" + o.name, next] + rest) ==
            Next(st.(calls := st.calls + [Call(o.id, "")]), [next] + rest)
    ensures Step(cfg, st, ["-" + [c], next] + rest) ==
            Next(st.(calls := st.calls + [Call(o.id, next)]), rest)
    ensures Step(cfg, st, ["-" + [c]]) == Fail(st, MissingShort(c))
  {
    DirectiveSteps(cfg, st, LongBare(o.name), [next] + rest);
    FrontToken("--" + o.name, next, rest);
    DirectiveSteps(cfg, st, ShortSpace(c, next), rest);
  }

  /** An option with an optional value takes the next token as its value exactly in
      the bare short form: the long forms and the attached short form leave it alone. */
  lemma OptionalValueForms(cfg: Config, st: State, o: DriverOption, c: char, v: string, next: string, rest: seq<string>)
    requires o.kind == OptionalValue && !st.positionalOnly && forall calls :: cfg.accept(calls)
    requires FindLong(cfg.table, o.name) == Some(o) && o.name != "" && LongName(o.name)
    requires FindShort(cfg.table, c) == Some(o) && ShortLetter(c)
    ensures Step(cfg, st, ["--" + o.name, next] + rest) ==
            Next(st.(calls := st.calls + [Call(o.id, "")]), [next] + rest)
    ensures Step(cfg, st, ["--" + o.name + "=" + v, next] + rest) ==
            Next(st.(calls := st.calls + [Call(o.id, v)]), [next] + rest)
    ensures v != "" && c != 'f' ==> Step(cfg, st, ["-" + [c] + v, next] + rest) ==
                                    Next(st.(calls := st.calls + [Call(o.id, v)]), [next] + rest)
    ensures Step(cfg, st, ["-" + [c], next] + rest) ==
            Next(st.(calls := st.calls + [Call(o.id, next)]), rest)
    ensures Step(cfg, st, ["-" + [c]]) == Fail(st, MissingShort(c))
  {
    BareForms(cfg, st, o, c, next, rest);
    EqualsForm(cfg, st, o, v, next, rest);
    if v != "" && c != 'f' { AttachedForm(cfg, st, o, c, v, next, rest); }
  }

  // ---- tokens and help requests ---------------------------------------------------------------

  /** What a token is, by its first characters. */
  lemma TokenShapes(tok: string)
    ensures ShapeOf(tok) == SeparatorShape <==> tok == "--"
    ensures ShapeOf(tok) == LongShape <==> |tok| > 2 && tok[0] == '-' && tok[1] == '-'
    ensures ShapeOf(tok) == FeatureShape <==> |tok| > 2 && tok[0] == '-' && tok[1] == 'f'
    ensures ShapeOf(tok) == DiagnosticShape <==> |tok| > 1 && tok[0] == '-' && tok[1] == 'W'
    ensures ShapeOf(tok) == PlainShape <==> |tok| < 2 || tok[0] != '-'
  {
    if |tok| == 2 && tok[0] == '-' && tok[1] == '-' {
      assert tok == "--";
    }
  }

  predicate SameDiagnostics(a: State, b: State) {
    a.diagArgs == b.diagArgs && a.diagHelp == b.diagHelp
  }

  lemma LongKeepsDiagnostics(cfg: Config, st: State, tok: string, rest: seq<string>)
    requires |tok| >= 2
    ensures SameDiagnostics(StepLong(cfg, st, tok, rest).st, st)
  {
  }

  lemma FeatureKeepsDiagnostics(cfg: Config, st: State, tok: string, rest: seq<string>)
    requires |tok| >= 2
    ensures SameDiagnostics(StepFeature(cfg, st, tok, rest).st, st)
  {
  }

  lemma ShortKeepsDiagnostics(cfg: Config, st: State, tok: string, rest: seq<string>)
    requires |tok| >= 2
    ensures SameDiagnostics(StepShort(cfg, st, tok, rest).st, st)
  {
  }

  predicate IsDiagnostic(st: State, tok: string) {
    !st.positionalOnly && |tok| > 1 && tok[0] == '-' && tok[1] == 'W'
  }

  /** Only a token that starts with "-W" touches the diagnostics, and it is collected
      whole. */
  lemma DiagnosticStep(cfg: Config, st: State, ts: seq<string>)
    requires ts != []
    ensures IsDiagnostic(st, ts[0]) ==>
              Step(cfg, st, ts) == Next(st.(diagArgs := st.diagArgs + [ts[0]],
                                            diagHelp := st.diagHelp || IsHelpRequest(ts[0])), ts[1..])
    ensures !IsDiagnostic(st, ts[0]) ==> SameDiagnostics(Step(cfg, st, ts).st, st)
  {
    var tok, rest := ts[0], ts[1..];
    TokenShapes(tok);
    match ShapeOf(tok) {
      case LongShape => LongKeepsDiagnostics(cfg, st, tok, rest);
      case FeatureShape => FeatureKeepsDiagnostics(cfg, st, tok, rest);
      case ShortShape => ShortKeepsDiagnostics(cfg, st, tok, rest);
      case _ =>
    }
  }

  predicate AsksForHelp(toks: seq<string>) {
    exists t :: t in toks && t in ["-Whelp", "-Whelp-dsl", "-Whelp-predef-macros", "-Whelp-check-areas"]
  }

  lemma HelpPrefix(t: string, toks: seq<string>)
    ensures AsksForHelp([t] + toks) <==> IsHelpRequest(t) || AsksForHelp(toks)
  {
    assert t in [t] + toks;
    if AsksForHelp(toks) {
      var h :| h in toks && h in ["-Whelp", "-Whelp-dsl", "-Whelp-predef-macros", "-Whelp-check-areas"];
      assert h in [t] + toks;
    }
  }

  /** The later tokens ask for help, or the first one does. */
  lemma HelpBehind(was: seq<string>, t: string, now: seq<string>, help: bool, later: bool)
    requires was + [t] <= now && (later <==> (help || IsHelpRequest(t)) || AsksForHelp(now[|was| + 1..]))
    ensures was <= now && (later <==> help || AsksForHelp(now[|was|..]))
  {
    assert now[|was|..] == [t] + now[|was| + 1..];
    HelpPrefix(t, now[|was| + 1..]);
  }

  /** The diagnostic tokens are collected in order, and help is asked for exactly when
      one of them is one of the four requests. */
  lemma {:induction false} HelpIsCollected(cfg: Config, st: State, ts: seq<string>)
    ensures var now := Parse(cfg, st, ts).st;
            && st.diagArgs <= now.diagArgs
            && (now.diagHelp <==> st.diagHelp || AsksForHelp(now.diagArgs[|st.diagArgs|..]))
    decreases |ts|
  {
    if ts != [] {
      var step, now := Step(cfg, st, ts), Parse(cfg, st, ts).st;
      StepConsumes(cfg, st, ts);
      DiagnosticStep(cfg, st, ts);
      if step.Next? {
        HelpIsCollected(cfg, step.st, step.rest);
      } else {
        assert now == step.st;
      }
      if IsDiagnostic(st, ts[0]) {
        HelpBehind(st.diagArgs, ts[0], now.diagArgs, st.diagHelp, now.diagHelp);
      }
    }
  }
}

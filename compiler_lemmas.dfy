/** Properties of the stack-statement compiler: the state invariant, the
    variable map, deferred execution, the save guard, node statements in
    input order, abort on the first error, and the shape of the output. */
module CompilerLemmas {
  import opened Results
  import opened Text
  import opened Tokenizer
  import opened NodeIds
  import opened Compiler
  import Resolver

  // ---------------------------------------------------------------------
  // The state invariant

  /** id was handed out before the counter reached n. */
  predicate IdBelow(id: string, n: nat) {
    var k := ParseNodeId(id);
    k.Some? && k.value < n
  }

  /** "0" stays bound; every identifier in use was handed out earlier; the
      pending executions have distinct identifiers, each captured by a
      statement already emitted. */
  predicate Wf(st: State) {
    "0" in st.vars
    && (forall x :: x in st.vars ==> st.vars[x] == "0" || IdBelow(st.vars[x], st.nextId))
    && (forall k :: 0 <= k < |st.execs| ==> IdBelow(st.execs[k].id, st.nextId))
    && (forall k, l :: 0 <= k < l < |st.execs| ==> st.execs[k].id != st.execs[l].id)
    && (forall k :: 0 <= k < |st.execs| ==> CaptureStmt(st.execs[k].id) in st.stmts)
  }

  /** The next identifier is not bound to any variable and no pending
      execution uses it. */
  lemma FreshId(st: State)
    requires Wf(st)
    ensures forall x :: x in st.vars ==> st.vars[x] != NodeId(st.nextId)
    ensures forall k :: 0 <= k < |st.execs| ==> st.execs[k].id != NodeId(st.nextId)
  {
    NodeIdRoundTrip(st.nextId);
  }

  /** The frame range an `-execute` segment gives: its first argument, if any. */
  function RangeOf(c: Command): Option<string> {
    if c.args != [] then Some(c.args[0]) else None
  }

  /** The execution a segment registers: one for `-execute`, none otherwise. */
  function Registered(st: State, c: Command): seq<Exec> {
    if c.name == "execute" then [Exec(NodeId(st.nextId), RangeOf(c))] else []
  }

  /** What a segment with command c may do to the state: only `-set x`
      changes the variables, only `-execute` registers an execution, at most
      one statement is emitted, and statements and notes are only appended
      to; a registered execution comes with its capture statement. */
  predicate Effect(st: State, next: State, c: Command) {
    next.execs == st.execs + Registered(st, c)
    && (if c.name == "set" && |c.args| == 1 then next.vars == st.vars[c.args[0] := NodeId(st.nextId)]
        else next.vars == st.vars)
    && next.nextId == st.nextId + (if (c.name == "set" && |c.args| == 1) || c.name == "execute" then 1 else 0)
    && st.stmts <= next.stmts && |next.stmts| <= |st.stmts| + 1 && st.notes <= next.notes
    && (next.execs != st.execs ==> next.stmts == st.stmts + [CaptureStmt(NodeId(st.nextId))])
  }

  /** The effect of dispatching one parsed command. */
  lemma DispatchEffect(st: State, cmd: string, args: seq<string>, env: Env)
    requires Dispatch(st, cmd, args, env).Ok?
    ensures Effect(st, Dispatch(st, cmd, args, env).value, Command(cmd, args))
  {
    var r := Dispatch(st, cmd, args, env);
    if cmd == "set" && |args| == 1 {
      assert r == Ok(SetStep(st, args[0]));
    } else if cmd == "push" && |args| == 1 {
      assert r == PushStep(st, args[0]);
    } else if cmd == "execute" {
      assert r == Ok(ExecuteStep(st, args));
    } else if cmd == "save" {
      assert r == SaveStep(st, args, env);
    } else {
      assert r == NodeStep(st, cmd, args, env);
    }
  }

  /** What one segment does to the state. */
  lemma StepEffect(st: State, line: string, env: Env)
    requires Step(st, line, env).Ok?
    ensures Effect(st, Step(st, line, env).value, ParseLine(line).value)
  {
    var c := ParseLine(line).value;
    assert Step(st, line, env) == Dispatch(st, c.name, c.args, env);
    DispatchEffect(st, c.name, c.args, env);
  }

  /** A step with that effect keeps the invariant. */
  lemma EffectPreserves(st: State, next: State, c: Command)
    requires Wf(st) && Effect(st, next, c)
    ensures Wf(next)
  {
    FreshId(st);
    NodeIdRoundTrip(st.nextId);
    assert forall k :: 0 <= k < |st.execs| ==> CaptureStmt(st.execs[k].id) in next.stmts by {
      assert st.stmts <= next.stmts;
    }
    var id := NodeId(st.nextId);
    assert IdBelow(id, st.nextId + 1);
    forall x | x in next.vars
      ensures next.vars[x] == "0" || IdBelow(next.vars[x], next.nextId)
    {
    }
    if next.execs != st.execs {
      assert next.execs == st.execs + [next.execs[|st.execs|]];
      assert CaptureStmt(id) in next.stmts;
    }
  }

  /** One segment keeps the invariant. */
  lemma StepPreserves(st: State, line: string, env: Env)
    requires Wf(st)
    requires Step(st, line, env).Ok?
    ensures var next := Step(st, line, env).value;
      Wf(next) && st.stmts <= next.stmts && st.execs <= next.execs && st.notes <= next.notes
  {
    var next := Step(st, line, env).value;
    StepEffect(st, line, env);
    EffectPreserves(st, next, ParseLine(line).value);
  }

  /** A walk from a well-formed state keeps the invariant and only appends. */
  lemma {:induction false} RunPreserves(st: State, lines: seq<string>, env: Env)
    requires Wf(st)
    requires Run(st, lines, env).Ok?
    ensures var last := Run(st, lines, env).value;
      Wf(last) && st.stmts <= last.stmts && st.execs <= last.execs && st.notes <= last.notes
    decreases |lines|
  {
    if lines != [] {
      StepPreserves(st, lines[0], env);
      RunPreserves(Step(st, lines[0], env).value, lines[1..], env);
    }
  }

  lemma InitWf()
    ensures Wf(Init)
  {
  }

  /** Walking a + b is walking a, then walking b from where a stopped. */
  lemma {:induction false} RunAppend(st: State, a: seq<string>, b: seq<string>, env: Env)
    ensures Run(st, a + b, env) ==
      match Run(st, a, env)
      case Err(e) => Err(e)
      case Ok(mid) => Run(mid, b, env)
    decreases |a|
  {
    if a == [] {
      assert a + b == b;
    } else {
      assert (a + b)[0] == a[0] && (a + b)[1..] == a[1..] + b;
      if Step(st, a[0], env).Ok? {
        RunAppend(Step(st, a[0], env).value, a[1..], b, env);
      }
    }
  }

  /** Walking one segment is taking that step. */
  lemma RunOne(st: State, line: string, env: Env)
    ensures Run(st, [line], env) == Step(st, line, env)
  {
    assert [line][1..] == [];
  }

  /** A segment whose tokens are known is dispatched on them. */
  lemma StepOnTokens(st: State, line: string, env: Env, cmd: string, args: seq<string>)
    requires Tokens(line) == [cmd] + args
    ensures Step(st, line, env) == Dispatch(st, cmd, args, env)
  {
    assert ([cmd] + args)[0] == cmd && ([cmd] + args)[1..] == args;
  }

  /** The four keywords in their keyword form. */
  lemma DispatchKeywords(st: State, args: seq<string>, env: Env)
    ensures |args| == 1 ==> Dispatch(st, "set", args, env) == Ok(SetStep(st, args[0]))
    ensures |args| == 1 ==> Dispatch(st, "push", args, env) == PushStep(st, args[0])
    ensures Dispatch(st, "execute", args, env) == Ok(ExecuteStep(st, args))
    ensures Dispatch(st, "save", args, env) == SaveStep(st, args, env)
  {
  }

  lemma SeqAssoc<T>(a: seq<T>, b: seq<T>, c: seq<T>)
    ensures a + b + c == a + (b + c)
  {
  }

  // ---------------------------------------------------------------------
  // Errors abort the whole compilation

  /** The first segment that fails stops the walk with its error. */
  lemma RunStopsAtError(st: State, prefix: seq<string>, line: string, suffix: seq<string>, env: Env)
    requires Run(st, prefix, env).Ok?
    requires Step(Run(st, prefix, env).value, line, env).Err?
    ensures Run(st, prefix + [line] + suffix, env) == Err(Step(Run(st, prefix, env).value, line, env).error)
  {
    var mid := Run(st, prefix, env).value;
    var tail := [line] + suffix;
    assert prefix + [line] + suffix == prefix + tail;
    assert tail[0] == line;
    RunAppend(st, prefix, tail, env);
  }

  /** The first segment that fails aborts the compilation with its error:
      no program is produced. */
  lemma FirstErrorAborts(raw: string, env: Env, prefix: seq<string>, line: string, suffix: seq<string>)
    requires Segments(raw) == prefix + [line] + suffix
    requires Run(Init, prefix, env).Ok?
    requires Step(Run(Init, prefix, env).value, line, env).Err?
    ensures CompileSpec(raw, env) == Err(Step(Run(Init, prefix, env).value, line, env).error)
  {
    RunStopsAtError(Init, prefix, line, suffix, env);
  }

  /** A node class that cannot be resolved aborts the compilation with the
      resolver's error. */
  lemma ResolutionFailureAborts(raw: string, env: Env, prefix: seq<string>, line: string, suffix: seq<string>)
    requires Segments(raw) == prefix + [line] + suffix
    requires Run(Init, prefix, env).Ok?
    requires ParseLine(line).Some? && IsNodeCommand(ParseLine(line).value)
    requires Resolver.ResolveSpec(env.catalog, ParseLine(line).value.name).Err?
    ensures CompileSpec(raw, env)
      == Err(Unresolved(Resolver.ResolveSpec(env.catalog, ParseLine(line).value.name).error))
  {
    FirstErrorAborts(raw, env, prefix, line, suffix);
  }

  // ---------------------------------------------------------------------
  // set and push

  /** No segment of lines is `set x`. */
  predicate NoSetOf(lines: seq<string>, x: string) {
    forall k :: 0 <= k < |lines| ==> Tokens(lines[k]) != ["set", x]
  }

  lemma SetLine(st: State, line: string, env: Env, x: string)
    requires Tokens(line) == ["set", x]
    ensures Step(st, line, env) == Ok(SetStep(st, x))
  {
    StepOnTokens(st, line, env, "set", [x]);
    DispatchKeywords(st, [x], env);
  }

  /** `set x` binds x to a fresh identifier (replacing any earlier binding)
      and emits exactly one capture statement for it. */
  lemma SetBindsFreshId(st: State, line: string, env: Env, x: string)
    requires Wf(st)
    requires Tokens(line) == ["set", x]
    ensures var id := NodeId(st.nextId);
      Step(st, line, env) == Ok(st.(vars := st.vars[x := id], stmts := st.stmts + [CaptureStmt(id)],
                                    nextId := st.nextId + 1))
      && (forall y :: y in st.vars ==> st.vars[y] != id)
      && (forall k :: 0 <= k < |st.execs| ==> st.execs[k].id != id)
  {
    SetLine(st, line, env, x);
    FreshId(st);
  }

  /** Segments other than `set x` leave the binding of x as it was. */
  lemma {:induction false} BindingKeptWithoutSet(st: State, lines: seq<string>, env: Env, x: string)
    requires Run(st, lines, env).Ok?
    requires NoSetOf(lines, x)
    ensures var last := Run(st, lines, env).value;
      (x in last.vars <==> x in st.vars) && (x in st.vars ==> last.vars[x] == st.vars[x])
    decreases |lines|
  {
    if lines != [] {
      var next := Step(st, lines[0], env).value;
      RunFirst(st, lines, env, next);
      StepEffect(st, lines[0], env);
      var c := ParseLine(lines[0]).value;
      if c.name == "set" && |c.args| == 1 {
        assert Tokens(lines[0]) == [c.name] + c.args;
        assert c.args == [c.args[0]];
        assert c.args[0] != x;
      }
      assert NoSetOf(lines[1..], x) by {
        forall k | 0 <= k < |lines[1..]|
          ensures Tokens(lines[1..][k]) != ["set", x]
        {
          assert lines[1..][k] == lines[k + 1];
        }
      }
      BindingKeptWithoutSet(next, lines[1..], env, x);
    }
  }

  /** After `set x`, a later `push x` (x other than "0", with no other
      `set x` in between) pushes the identifier that `set x` captured. */
  lemma SetThenPush(st: State, setLine: string, middle: seq<string>, pushLine: string, env: Env, x: string)
    requires Tokens(setLine) == ["set", x] && x != "0"
    requires Tokens(pushLine) == ["push", x]
    requires NoSetOf(middle, x)
    requires Run(st, [setLine] + middle, env).Ok?
    ensures var before := Run(st, [setLine] + middle, env).value;
      Run(st, [setLine] + middle + [pushLine], env)
        == Ok(before.(stmts := before.stmts + [PushStmt(NodeId(st.nextId))]))
  {
    SetLine(st, setLine, env, x);
    var s1 := SetStep(st, x);
    RunOne(st, setLine, env);
    RunAppend(st, [setLine], middle, env);
    BindingKeptWithoutSet(s1, middle, env, x);
    var before := Run(st, [setLine] + middle, env).value;
    RunAppend(st, [setLine] + middle, [pushLine], env);
    RunOne(before, pushLine, env);
    StepOnTokens(before, pushLine, env, "push", [x]);
    DispatchKeywords(before, [x], env);
  }

  /** `push x` of a name that no earlier segment set (and that is not "0")
      fails with an undefined-variable error. */
  lemma PushUnsetFails(lines: seq<string>, line: string, env: Env, x: string)
    requires x != "0"
    requires NoSetOf(lines, x)
    requires Run(Init, lines, env).Ok?
    requires Tokens(line) == ["push", x]
    ensures Run(Init, lines + [line], env) == Err(UndefinedVariable(x))
  {
    BindingKeptWithoutSet(Init, lines, env, x);
    var mid := Run(Init, lines, env).value;
    RunAppend(Init, lines, [line], env);
    RunOne(mid, line, env);
    StepOnTokens(mid, line, env, "push", [x]);
    DispatchKeywords(mid, [x], env);
  }

  /** `push 0` always emits the null placeholder, whether or not "0" was
      ever set, because the map starts with "0" bound. */
  lemma PushZeroIsPlaceholder(lines: seq<string>, line: string, env: Env)
    requires Run(Init, lines, env).Ok?
    requires Tokens(line) == ["push", "0"]
    ensures var st := Run(Init, lines, env).value;
      Run(Init, lines + [line], env) == Ok(st.(stmts := st.stmts + [PushNull]))
  {
    InitWf();
    RunPreserves(Init, lines, env);
    var mid := Run(Init, lines, env).value;
    RunAppend(Init, lines, [line], env);
    RunOne(mid, line, env);
    StepOnTokens(mid, line, env, "push", ["0"]);
    DispatchKeywords(mid, ["0"], env);
  }

  // ---------------------------------------------------------------------
  // Node creation

  /** A command that is not one of the four keywords in its keyword form. */
  predicate IsNodeCommand(c: Command) {
    !(c.name == "set" && |c.args| == 1) && !(c.name == "push" && |c.args| == 1)
    && c.name != "execute" && c.name != "save"
  }

  predicate ResolvableNode(line: string, catalog: seq<string>) {
    ParseLine(line).Some? && IsNodeCommand(ParseLine(line).value)
    && Resolver.ResolveSpec(catalog, ParseLine(line).value.name).Ok?
  }

  /** The creation statement of a resolvable node segment. */
  function NodeLineStmt(line: string, catalog: seq<string>): string
    requires ResolvableNode(line, catalog)
  {
    var c := ParseLine(line).value;
    NodeStmt(Resolver.ResolveSpec(catalog, c.name).value, c.args)
  }

  /** One resolvable node segment appends its creation statement and
      changes nothing else. */
  lemma NodeLineStep(st: State, line: string, env: Env)
    requires ResolvableNode(line, env.catalog)
    ensures Step(st, line, env) == Ok(st.(stmts := st.stmts + [NodeLineStmt(line, env.catalog)]))
  {
    var c := ParseLine(line).value;
    assert Step(st, line, env) == Dispatch(st, c.name, c.args, env);
    assert Dispatch(st, c.name, c.args, env) == NodeStep(st, c.name, c.args, env);
  }

  /** The creation statements of a run of resolvable node segments, one
      per segment, in input order. */
  function NodeStmts(lines: seq<string>, catalog: seq<string>): (made: seq<string>)
    requires forall k :: 0 <= k < |lines| ==> ResolvableNode(lines[k], catalog)
    ensures |made| == |lines|
    ensures forall k :: 0 <= k < |lines| ==> made[k] == NodeLineStmt(lines[k], catalog)
    decreases |lines|
  {
    if lines == [] then []
    else
      assert forall k :: 0 <= k < |lines[1..]| ==> lines[1..][k] == lines[k + 1];
      [NodeLineStmt(lines[0], catalog)] + NodeStmts(lines[1..], catalog)
  }

  /** Node segments that resolve emit exactly one creation statement each,
      in input order, and change nothing else. */
  lemma {:induction false} NodeCommandsInOrder(st: State, lines: seq<string>, env: Env)
    requires forall k :: 0 <= k < |lines| ==> ResolvableNode(lines[k], env.catalog)
    ensures Run(st, lines, env) == Ok(st.(stmts := st.stmts + NodeStmts(lines, env.catalog)))
    decreases |lines|
  {
    if lines == [] {
      assert st.stmts + [] == st.stmts;
    } else {
      var head := NodeLineStmt(lines[0], env.catalog);
      var next := st.(stmts := st.stmts + [head]);
      NodeLineStep(st, lines[0], env);
      RunFirst(st, lines, env, next);
      assert forall k :: 0 <= k < |lines[1..]| ==> lines[1..][k] == lines[k + 1];
      NodeCommandsInOrder(next, lines[1..], env);
      var rest := NodeStmts(lines[1..], env.catalog);
      assert NodeStmts(lines, env.catalog) == [head] + rest;
      SeqAssoc(st.stmts, [head], rest);
    }
  }

  // ---------------------------------------------------------------------
  // Deferred execution

  /** `-execute [range]` captures the stack top under a fresh identifier at
      once and registers the execution with its first argument, if any, as
      the range; the variables are untouched. */
  lemma ExecuteCapturesNow(st: State, line: string, env: Env, args: seq<string>)
    requires Wf(st)
    requires Tokens(line) == ["execute"] + args
    ensures var id := NodeId(st.nextId);
      var range := if args != [] then Some(args[0]) else None;
      Step(st, line, env) == Ok(st.(execs := st.execs + [Exec(id, range)],
                                    stmts := st.stmts + [CaptureStmt(id)], nextId := st.nextId + 1))
      && (forall k :: 0 <= k < |st.execs| ==> st.execs[k].id != id)
  {
    StepOnTokens(st, line, env, "execute", args);
    DispatchKeywords(st, args, env);
    FreshId(st);
  }

  /** The ranges of the `-execute` segments of lines, in input order. */
  function ExecRanges(lines: seq<string>): seq<Option<string>>
    decreases |lines|
  {
    if lines == [] then []
    else
      var c := ParseLine(lines[0]);
      (if c.Some? && c.value.name == "execute" then [RangeOf(c.value)] else [])
      + ExecRanges(lines[1..])
  }

  function Ranges(execs: seq<Exec>): seq<Option<string>> {
    seq(|execs|, k requires 0 <= k < |execs| => execs[k].range)
  }

  lemma RangesAppend(a: seq<Exec>, b: seq<Exec>)
    ensures Ranges(a + b) == Ranges(a) + Ranges(b)
  {
  }

  /** The pending executions are the `-execute` segments, in the order they
      were met, each with the range it was given. */
  lemma {:induction false} ExecutesInEncounterOrder(st: State, lines: seq<string>, env: Env)
    requires Run(st, lines, env).Ok?
    ensures Ranges(Run(st, lines, env).value.execs) == Ranges(st.execs) + ExecRanges(lines)
    decreases |lines|
  {
    if lines != [] {
      var next := Step(st, lines[0], env).value;
      RunFirst(st, lines, env, next);
      ExecutesInEncounterOrder(next, lines[1..], env);
      StepEffect(st, lines[0], env);
      var c := ParseLine(lines[0]).value;
      var head := if c.name == "execute" then [RangeOf(c)] else [];
      assert ExecRanges(lines) == head + ExecRanges(lines[1..]);
      RangesAppend(st.execs, Registered(st, c));
      assert Ranges(Registered(st, c)) == head;
      SeqAssoc(Ranges(st.execs), head, ExecRanges(lines[1..]));
    }
  }

  /** The program: the main statements, then one execute statement per
      `-execute` segment in encounter order, each for an identifier captured
      earlier by the main statements, all identifiers distinct. With a range
      the range is embedded verbatim; without one the node's first and last
      knobs are read. */
  lemma DeferredExecutesLast(raw: string, env: Env)
    requires Run(Init, Segments(raw), env).Ok?
    ensures var st := Run(Init, Segments(raw), env).value;
      var all := st.stmts + Deferred(st.execs);
      var ranges := ExecRanges(Segments(raw));
      CompileSpec(raw, env) == Ok(Compiled(Emit(all), st.notes))
      && |all| == |st.stmts| + |ranges|
      && (forall k :: 0 <= k < |ranges| ==>
            var id := st.execs[k].id;
            CaptureStmt(id) in st.stmts
            && all[|st.stmts| + k] == (match ranges[k]
                case Some(r) => "execute $" + id + " " + r
                case None => "execute $" + id + " [value $" + id + ".first]-[value $" + id + ".last]"))
      && (forall k, l :: 0 <= k < l < |ranges| ==> st.execs[k].id != st.execs[l].id)
  {
    var lines := Segments(raw);
    DeferredAfterRun(lines, env);
  }

  /** DeferredExecutesLast, for any list of segments. */
  lemma DeferredAfterRun(lines: seq<string>, env: Env)
    requires Run(Init, lines, env).Ok?
    ensures var st := Run(Init, lines, env).value;
      var all := st.stmts + Deferred(st.execs);
      var ranges := ExecRanges(lines);
      |all| == |st.stmts| + |ranges|
      && (forall k :: 0 <= k < |ranges| ==>
            var id := st.execs[k].id;
            CaptureStmt(id) in st.stmts
            && all[|st.stmts| + k] == (match ranges[k]
                case Some(r) => "execute $" + id + " " + r
                case None => "execute $" + id + " [value $" + id + ".first]-[value $" + id + ".last]"))
      && (forall k, l :: 0 <= k < l < |ranges| ==> st.execs[k].id != st.execs[l].id)
  {
    InitWf();
    RunPreserves(Init, lines, env);
    ExecsFollowSegments(lines, env);
  }

  /** After a walk from the start, the pending executions carry the ranges
      of the `-execute` segments, in order. */
  lemma ExecsFollowSegments(lines: seq<string>, env: Env)
    requires Run(Init, lines, env).Ok?
    ensures var st := Run(Init, lines, env).value;
      var ranges := ExecRanges(lines);
      |st.execs| == |ranges|
      && (forall k :: 0 <= k < |ranges| ==> st.execs[k].range == ranges[k])
  {
    var st := Run(Init, lines, env).value;
    ExecutesInEncounterOrder(Init, lines, env);
    assert Ranges(Init.execs) == [];
    var ranges := ExecRanges(lines);
    assert |Ranges(st.execs)| == |ranges|;
    forall k | 0 <= k < |ranges|
      ensures st.execs[k].range == ranges[k]
    {
      assert Ranges(st.execs)[k] == st.execs[k].range;
    }
  }

  /** When the last segment is `-execute` with a range, the program's last
      statement executes the node captured there over that range, verbatim. */
  lemma LastExecuteIsFinal(lines: seq<string>, line: string, env: Env, args: seq<string>)
    requires Tokens(line) == ["execute"] + args && args != []
    requires Run(Init, lines + [line], env).Ok?
    ensures var st := Run(Init, lines + [line], env).value;
      var all := st.stmts + Deferred(st.execs);
      |st.execs| > 0 && all[|all| - 1] == "execute $" + st.execs[|st.execs| - 1].id + " " + args[0]
  {
    RunAppend(Init, lines, [line], env);
    var mid := Run(Init, lines, env).value;
    RunOne(mid, line, env);
    StepOnTokens(mid, line, env, "execute", args);
    DispatchKeywords(mid, args, env);
    var st := Run(Init, lines + [line], env).value;
    assert st.execs == mid.execs + [Exec(NodeId(mid.nextId), Some(args[0]))];
  }

  // ---------------------------------------------------------------------
  // The save guard

  /** The save guard on an argument list [path] + rest. */
  lemma SaveStepEffect(st: State, path: string, rest: seq<string>, env: Env)
    ensures SaveStep(st, [path] + rest, env).Ok?
    ensures var next := SaveStep(st, [path] + rest, env).value;
      next.vars == st.vars && next.execs == st.execs && next.nextId == st.nextId
      && (SaveAllowed(path, rest, env) ==> next.stmts == st.stmts + ["script_save {" + path + "}"])
      && (!SaveAllowed(path, rest, env) ==> next.stmts == st.stmts && |next.notes| > |st.notes|)
      && (env.isDir(path) ==> next.notes == st.notes + [DirectoryIgnored(path)])
  {
    assert ([path] + rest)[0] == path && ([path] + rest)[1..] == rest;
  }

  /** `-save path [arg]` never aborts; it emits exactly one `script_save`
      statement when the path is not a directory and either does not exist
      or is followed by "force", and otherwise emits nothing and records
      warnings. Variables and executions are untouched. */
  lemma SaveGuard(st: State, line: string, env: Env, path: string, rest: seq<string>)
    requires Tokens(line) == ["save", path] + rest
    ensures Step(st, line, env).Ok?
    ensures var next := Step(st, line, env).value;
      next.vars == st.vars && next.execs == st.execs && next.nextId == st.nextId
      && (SaveAllowed(path, rest, env) ==> next.stmts == st.stmts + ["script_save {" + path + "}"])
      && (!SaveAllowed(path, rest, env) ==> next.stmts == st.stmts && |next.notes| > |st.notes|)
      && (env.isDir(path) ==> next.notes == st.notes + [DirectoryIgnored(path)])
  {
    StepOnTokens(st, line, env, "save", [path] + rest);
    DispatchKeywords(st, [path] + rest, env);
    SaveStepEffect(st, path, rest, env);
  }

  /** `-save` with no path fails, as popping from an empty argument list does. */
  lemma SaveWithoutPathFails(st: State, line: string, env: Env)
    requires Tokens(line) == ["save"]
    ensures Step(st, line, env) == Err(MissingSavePath)
  {
    StepOnTokens(st, line, env, "save", []);
    DispatchKeywords(st, [], env);
  }

  // ---------------------------------------------------------------------
  // The emitted program

  /** Each statement followed by ';'. */
  function Terminated(stmts: seq<string>): string
    decreases |stmts|
  {
    if stmts == [] then "" else stmts[0] + ";" + Terminated(stmts[1..])
  }

  /** The program is every statement followed by ';', in order; with no
      statement at all it is the single ';'. */
  lemma {:induction false} EmitTerminated(stmts: seq<string>)
    ensures stmts != [] ==> Emit(stmts) == Terminated(stmts)
    ensures stmts == [] ==> Emit(stmts) == ";"
    decreases |stmts|
  {
    if |stmts| == 1 {
      assert Terminated(stmts[1..]) == "";
    } else if |stmts| > 1 {
      EmitTerminated(stmts[1..]);
      assert Join(stmts, ";") == stmts[0] + ";" + Join(stmts[1..], ";");
      assert Emit(stmts) == stmts[0] + ";" + Emit(stmts[1..]);
    }
  }

  /** An empty command line is a single blank segment, which aborts. */
  lemma EmptyCommandLineFails(env: Env)
    ensures CompileSpec("", env) == Err(BlankCommand)
  {
    assert Segments("") == [""];
  }
}

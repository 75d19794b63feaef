/** The stack-statement compiler `parseCLI`: walks the command segments,
    keeping a variable map seeded with "0" -> "0", a list of statements and
    a list of pending executions, then appends one execute statement per
    pending execution and joins everything with ';'. */
module Compiler {
  import opened Results
  import opened Text
  import opened Tokenizer
  import opened NodeIds
  import Resolver

  /** The host collaborators: the plugin catalog and the two filesystem
      queries the save guard makes (`os.path.isdir`, `os.path.exists`). */
  datatype Env = Env(catalog: seq<string>, isDir: string -> bool, pathExists: string -> bool)

  /** A pending execution: the identifier the node was captured under and the
      frame range given with `-execute`, if any. */
  datatype Exec = Exec(id: string, range: Option<string>)

  /** The warnings the save guard prints. */
  datatype SaveNote =
    | DirectoryIgnored(path: string)
    | AlreadyExists(path: string)
    | NoForce
    | InvalidSyntax
    | Forcing

  /** The compiler's state between two segments; nextId counts the
      identifiers handed out so far. */
  datatype State = State(
    vars: map<string, string>,
    stmts: seq<string>,
    execs: seq<Exec>,
    nextId: nat,
    notes: seq<SaveNote>)

  /** The exceptions that abort a compilation: the IndexError of a blank
      segment, the KeyError of an unknown `-push` name, the IndexError of a
      `-save` without a path, and the ValueError of the resolver. */
  datatype CompileError =
    | BlankCommand
    | UndefinedVariable(name: string)
    | MissingSavePath
    | Unresolved(cause: Resolver.ResolveError)

  datatype Compiled = Compiled(tcl: string, notes: seq<SaveNote>)

  const Init: State := State(map["0" := "0"], [], [], 0, [])

  function CaptureStmt(id: string): string { "set " + id + " [stack 0]" }
  function PushStmt(id: string): string { "push $" + id }
  const PushNull: string := "push 0"
  function SaveStmt(path: string): string { "script_save {" + path + "}" }
  function NodeStmt(cls: string, args: seq<string>): string { cls + " {" + Join(args, " ") + "}" }

  function ExecuteStmt(e: Exec): string {
    match e.range
    case Some(r) => "execute $" + e.id + " " + r
    case None => "execute $" + e.id + " [value $" + e.id + ".first]-[value $" + e.id + ".last]"
  }

  /** Whether a save goes ahead: the path is not a directory and either does
      not exist or is followed by the literal argument "force". */
  predicate SaveAllowed(path: string, rest: seq<string>, env: Env) {
    !env.isDir(path) && (!env.pathExists(path) || (rest != [] && rest[0] == "force"))
  }

  /** One iteration of the main loop of `parseCLI`. */
  function Step(st: State, line: string, env: Env): Result<State, CompileError> {
    match ParseLine(line)
    case None => Err(BlankCommand)
    case Some(Command(cmd, args)) => Dispatch(st, cmd, args, env)
  }

  /** The dispatch on the command word of one parsed segment. */
  function Dispatch(st: State, cmd: string, args: seq<string>, env: Env): Result<State, CompileError> {
    if cmd == "set" && |args| == 1 then Ok(SetStep(st, args[0]))
    else if cmd == "push" && |args| == 1 then PushStep(st, args[0])
    else if cmd == "execute" then Ok(ExecuteStep(st, args))
    else if cmd == "save" then SaveStep(st, args, env)
    else NodeStep(st, cmd, args, env)
  }

  /** `-set name`: bind name to a fresh identifier and capture the stack top under it. */
  function SetStep(st: State, name: string): State {
    var id := NodeId(st.nextId);
    st.(vars := st.vars[name := id], stmts := st.stmts + [CaptureStmt(id)], nextId := st.nextId + 1)
  }

  /** `-push name`: push the node bound to name, or the null placeholder for "0". */
  function PushStep(st: State, name: string): Result<State, CompileError> {
    if name !in st.vars then Err(UndefinedVariable(name))
    else if name != "0" then Ok(st.(stmts := st.stmts + [PushStmt(st.vars[name])]))
    else Ok(st.(stmts := st.stmts + [PushNull]))
  }

  /** `-execute [range]`: capture the stack top now, register the execution for later. */
  function ExecuteStep(st: State, args: seq<string>): State {
    var id := NodeId(st.nextId);
    var range := if args != [] then Some(args[0]) else None;
    st.(execs := st.execs + [Exec(id, range)], stmts := st.stmts + [CaptureStmt(id)],
        nextId := st.nextId + 1)
  }

  /** `-save path [force]`, with its guard. */
  function SaveStep(st: State, args: seq<string>, env: Env): Result<State, CompileError> {
    if args == [] then Err(MissingSavePath)
    else
      var path, rest := args[0], args[1..];
      if env.isDir(path) then Ok(st.(notes := st.notes + [DirectoryIgnored(path)]))
      else if env.pathExists(path) && rest == [] then
        Ok(st.(notes := st.notes + [AlreadyExists(path)] + [NoForce]))
      else if env.pathExists(path) && rest[0] != "force" then
        Ok(st.(notes := st.notes + [AlreadyExists(path)] + [InvalidSyntax]))
      else if env.pathExists(path) then
        Ok(st.(notes := st.notes + [AlreadyExists(path)] + [Forcing], stmts := st.stmts + [SaveStmt(path)]))
      else Ok(st.(stmts := st.stmts + [SaveStmt(path)]))
  }

  /** Any other command word names a node class: resolve it and create the node. */
  function NodeStep(st: State, cmd: string, args: seq<string>, env: Env): Result<State, CompileError> {
    match Resolver.ResolveSpec(env.catalog, cmd)
    case Err(e) => Err(Unresolved(e))
    case Ok(cls) => Ok(st.(stmts := st.stmts + [NodeStmt(cls, args)]))
  }

  /** The main loop over a list of segments; the first error aborts it. */
  function Run(st: State, lines: seq<string>, env: Env): Result<State, CompileError>
    decreases |lines|
  {
    if lines == [] then Ok(st)
    else
      match Step(st, lines[0], env)
      case Err(e) => Err(e)
      case Ok(next) => Run(next, lines[1..], env)
  }

  /** The execute statements appended after the main loop, one per pending
      execution, in the order they were registered. */
  function Deferred(execs: seq<Exec>): (ds: seq<string>)
    ensures |ds| == |execs|
  {
    seq(|execs|, k requires 0 <= k < |execs| => ExecuteStmt(execs[k]))
  }

  /** `';'.join(stmts) + ';'`. */
  function Emit(stmts: seq<string>): (tcl: string)
    ensures |tcl| >= 1 && tcl[|tcl| - 1] == ';'
  {
    Join(stmts, ";") + ";"
  }

  /** What `parseCLI(raw)` returns, or the exception it raises. */
  function CompileSpec(raw: string, env: Env): Result<Compiled, CompileError> {
    match Run(Init, Segments(raw), env)
    case Err(e) => Err(e)
    case Ok(st) => Ok(Compiled(Emit(st.stmts + Deferred(st.execs)), st.notes))
  }

  /** Running from a state whose next segment steps to `next` is running from `next`. */
  lemma RunFirst(st: State, lines: seq<string>, env: Env, next: State)
    requires lines != [] && Step(st, lines[0], env) == Ok(next)
    ensures Run(st, lines, env) == Run(next, lines[1..], env)
  {
  }

  lemma DeferredSnoc(execs: seq<Exec>, e: Exec)
    ensures Deferred(execs + [e]) == Deferred(execs) + [ExecuteStmt(e)]
  {
    assert forall k :: 0 <= k < |execs| ==> (execs + [e])[k] == execs[k];
  }

  /** One iteration of the main loop of `parseCLI`: parse the segment and
      dispatch on its command word. */
  method CompileSegment(st: State, line: string, env: Env) returns (r: Result<State, CompileError>)
    ensures r == Step(st, line, env)
  {
    var parsed := ParseLine(line);
    if parsed.None? {
      return Err(BlankCommand);
    }
    var cmd, args := parsed.value.name, parsed.value.args;
    var varMap, cmdStack, execNodes, counter := st.vars, st.stmts, st.execs, st.nextId;
    if cmd == "set" && |args| == 1 {
      var varName := args[0];
      var varId := NodeId(counter);
      counter := counter + 1;
      varMap := varMap[varName := varId];
      cmdStack := cmdStack + [CaptureStmt(varId)];
    } else if cmd == "push" && |args| == 1 {
      var varName := args[0];
      if varName !in varMap {
        return Err(UndefinedVariable(varName));
      }
      var varId := varMap[varName];
      if varName != "0" {
        cmdStack := cmdStack + [PushStmt(varId)];
      } else {
        cmdStack := cmdStack + [PushNull];
      }
    } else if cmd == "execute" {
      var varId := NodeId(counter);
      counter := counter + 1;
      execNodes := execNodes + [Exec(varId, if args != [] then Some(args[0]) else None)];
      cmdStack := cmdStack + [CaptureStmt(varId)];
    } else if cmd == "save" {
      r := Save(st, args, env);
      return;
    } else {
      var node := Resolver.Resolve(env.catalog, cmd);
      if node.Err? {
        return Err(Unresolved(node.error));
      }
      cmdStack := cmdStack + [NodeStmt(node.value, args)];
    }
    return Ok(st.(vars := varMap, stmts := cmdStack, execs := execNodes, nextId := counter));
  }

  /** The main loop of `parseCLI` over the segments of the command line. */
  method Walk(cli: seq<string>, env: Env) returns (r: Result<State, CompileError>)
    ensures r == Run(Init, cli, env)
  {
    var st := Init;
    for i := 0 to |cli|
      invariant Run(Init, cli, env) == Run(st, cli[i..], env)
    {
      assert cli[i..][0] == cli[i] && cli[i..][1..] == cli[i + 1..];
      var stepped := CompileSegment(st, cli[i], env);
      if stepped.Err? {
        return Err(stepped.error);
      }
      RunFirst(st, cli[i..], env, stepped.value);
      st := stepped.value;
    }
    assert cli[|cli|..] == [];
    return Ok(st);
  }

  /** The `-save` branch of the main loop: the path guard, with its warnings. */
  method Save(st: State, args: seq<string>, env: Env) returns (r: Result<State, CompileError>)
    ensures r == SaveStep(st, args, env)
  {
    if args == [] {
      return Err(MissingSavePath);
    }
    var saveFile := args[0];
    var rest := args[1..];
    var notes := st.notes;
    if env.isDir(saveFile) {
      notes := notes + [DirectoryIgnored(saveFile)];
      return Ok(st.(notes := notes));
    }
    if env.pathExists(saveFile) {
      notes := notes + [AlreadyExists(saveFile)];
      if rest == [] {
        notes := notes + [NoForce];
        return Ok(st.(notes := notes));
      }
      if rest[0] != "force" {
        notes := notes + [InvalidSyntax];
        return Ok(st.(notes := notes));
      }
      notes := notes + [Forcing];
    }
    return Ok(st.(notes := notes, stmts := st.stmts + [SaveStmt(saveFile)]));
  }

  /** The loop after the main walk: one execute statement per pending
      execution, appended in registration order. */
  method AppendDeferred(main: seq<string>, execNodes: seq<Exec>) returns (cmdStack: seq<string>)
    ensures cmdStack == main + Deferred(execNodes)
  {
    cmdStack := main;
    for j := 0 to |execNodes|
      invariant cmdStack == main + Deferred(execNodes[..j])
    {
      assert execNodes[..j + 1] == execNodes[..j] + [execNodes[j]];
      DeferredSnoc(execNodes[..j], execNodes[j]);
      cmdStack := cmdStack + [ExecuteStmt(execNodes[j])];
    }
    assert execNodes[..|execNodes|] == execNodes;
  }

  /** `parseCLI`: the main walk, then the deferred execute statements, then the join. */
  method Compile(raw: string, env: Env) returns (r: Result<Compiled, CompileError>)
    ensures r == CompileSpec(raw, env)
  {
    var cli := Segments(raw);
    var walked := Walk(cli, env);
    if walked.Err? {
      return Err(walked.error);
    }
    var cmdStack := AppendDeferred(walked.value.stmts, walked.value.execs);
    r := Ok(Compiled(Emit(cmdStack), walked.value.notes));
  }
}

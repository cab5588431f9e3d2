/**
 * From a command line to the list of Command descriptors: parse_command cuts
 * the line at '|', set_linked_list builds one Command per stage, and
 * handle_redirection_command_initialization fills in its executable path and
 * redirections.
 */
module Pipeline {
  import opened Wrappers
  import opened Variables
  import opened Strtok
  import opened Expansion
  import opened Resolver

  /** STDIN_FILENO and STDOUT_FILENO. */
  const StdinFileno: int := 0
  const StdoutFileno: int := 1

  /**
   * One pipeline stage. `args` is the NULL-terminated token array: one slot
   * per token and a final None, with None also in every slot that held a
   * redirection operator.
   */
  datatype Command = Command(
    args: seq<Option<string>>,
    execPath: Option<string>,
    redirIn: Option<string>,
    redirOut: Option<string>,
    append: bool,
    stdinFd: int,
    stdoutFd: int)

  /** The three redirection fields of a Command. */
  datatype Redirection = Redirection(redirIn: Option<string>, redirOut: Option<string>, append: bool)

  const NoRedirection := Redirection(None, None, false)

  predicate IsOutput(t: string) { t == ">" || t == ">>" }

  predicate IsOperator(t: string) { IsOutput(t) || t == "<" }

  /** The fields after the operator `op` with `file` after it. */
  function Apply(r: Redirection, op: string, file: string): Redirection
  {
    if op == ">" then Redirection(r.redirIn, Some(file), false)
    else if op == ">>" then Redirection(r.redirIn, Some(file), true)
    else if op == "<" then Redirection(Some(file), r.redirOut, false)
    else r
  }

  /**
   * The redirection loop after visiting toks[..n]: None once an operator has
   * no token after it.
   */
  function RedirectPrefix(toks: seq<string>, n: nat): Option<Redirection>
    requires n <= |toks|
  {
    if n == 0 then Some(NoRedirection)
    else match RedirectPrefix(toks, n - 1)
      case None => None
      case Some(r) =>
        if !IsOperator(toks[n - 1]) then Some(r)
        else if n == |toks| then None
        else Some(Apply(r, toks[n - 1], toks[n]))
  }

  /** The token array after the loop has visited toks[..n]. */
  function ClearedUpTo(toks: seq<string>, n: nat): (slots: seq<Option<string>>)
    ensures |slots| == |toks| + 1 && slots[|toks|] == None
  {
    seq(|toks| + 1, j requires 0 <= j <= |toks| =>
      if j == |toks| || (j < n && IsOperator(toks[j])) then None else Some(toks[j]))
  }

  /** The argv a NULL-terminated array stands for: the strings before the first NULL. */
  function Argv(slots: seq<Option<string>>): seq<string>
  {
    if slots == [] || slots[0].None? then [] else [slots[0].value] + Argv(slots[1..])
  }

  /** The position of the first redirection operator, or |toks|. */
  function FirstOperator(toks: seq<string>): (k: nat)
    ensures k <= |toks|
    ensures forall j :: 0 <= j < k ==> !IsOperator(toks[j])
    ensures k < |toks| ==> IsOperator(toks[k])
  {
    if toks == [] || IsOperator(toks[0]) then 0 else 1 + FirstOperator(toks[1..])
  }

  /**
   * handle_redirection_command_initialization on a stage with tokens `toks`:
   * the executable is resolved from the first token before any operator is
   * removed; None is the `false` return.
   */
  function CommandFor(toks: seq<string>, vars: seq<Variable>, fs: FileSystem): (r: Option<Command>)
    ensures r.None? <==> |toks| > 0 && IsOperator(toks[|toks| - 1])
    ensures r.Some? ==> Argv(r.value.args) == toks[..FirstOperator(toks)]
    ensures r.Some? ==> r.value.stdinFd == StdinFileno && r.value.stdoutFd == StdoutFileno
    ensures r.Some? ==> r.value.execPath == Resolve(if toks == [] then None else Some(toks[0]), PathEntry(vars), fs)
  {
    RedirectFails(toks);
    ArgvOfCleared(toks);
    match RedirectPrefix(toks, |toks|)
    case None => None
    case Some(red) =>
      var first := if toks == [] then None else Some(toks[0]);
      Some(Command(ClearedUpTo(toks, |toks|), Resolve(first, PathEntry(vars), fs),
                   red.redirIn, red.redirOut, red.append, StdinFileno, StdoutFileno))
  }

  /** The loop never stops before the last token. */
  lemma {:induction false} RedirectPrefixDefined(toks: seq<string>, n: nat)
    requires n < |toks|
    ensures RedirectPrefix(toks, n).Some?
  {
    if n > 0 {
      RedirectPrefixDefined(toks, n - 1);
    }
  }

  /** Initialisation fails exactly when the last token is an operator with no file after it. */
  lemma RedirectFails(toks: seq<string>)
    ensures RedirectPrefix(toks, |toks|).None? <==> |toks| > 0 && IsOperator(toks[|toks| - 1])
  {
    if |toks| > 0 {
      RedirectPrefixDefined(toks, |toks| - 1);
    }
  }

  /** Clearing every operator's slot leaves the tokens before the first operator as the argv. */
  lemma {:induction false} ArgvOfCleared(toks: seq<string>)
    ensures Argv(ClearedUpTo(toks, |toks|)) == toks[..FirstOperator(toks)]
    decreases |toks|
  {
    var slots := ClearedUpTo(toks, |toks|);
    if toks != [] && !IsOperator(toks[0]) {
      assert slots[1..] == ClearedUpTo(toks[1..], |toks| - 1);
      ArgvOfCleared(toks[1..]);
      assert toks[..FirstOperator(toks)] == [toks[0]] + toks[1..][..FirstOperator(toks[1..])];
    }
  }

  /** toks[k] is the last `>` or `>>` among toks[..n]. */
  predicate LastOutputAt(toks: seq<string>, n: nat, k: nat)
    requires n <= |toks|
  {
    k < n && IsOutput(toks[k]) && forall j :: k < j < n ==> !IsOutput(toks[j])
  }

  /** toks[k] is the last `<` among toks[..n]. */
  predicate LastInputAt(toks: seq<string>, n: nat, k: nat)
    requires n <= |toks|
  {
    k < n && toks[k] == "<" && forall j :: k < j < n ==> toks[j] != "<"
  }

  /**
   * The output file is the token after the last `>` or `>>`, and there is
   * none without such an operator.
   */
  lemma {:induction false} LastOutputWins(toks: seq<string>, n: nat)
    requires n <= |toks| && RedirectPrefix(toks, n).Some?
    ensures RedirectPrefix(toks, n).value.redirOut.None? <==>
            forall k :: 0 <= k < n ==> !IsOutput(toks[k])
    ensures forall k: nat :: LastOutputAt(toks, n, k) ==>
              k + 1 < |toks| && RedirectPrefix(toks, n).value.redirOut == Some(toks[k + 1])
  {
    if n > 0 {
      LastOutputWins(toks, n - 1);
      forall k: nat | LastOutputAt(toks, n, k)
        ensures k + 1 < |toks| && RedirectPrefix(toks, n).value.redirOut == Some(toks[k + 1])
      {
        if k < n - 1 {
          assert LastOutputAt(toks, n - 1, k);
        }
      }
    }
  }

  /**
   * The input file is the token after the last `<`, and there is none
   * without one.
   */
  lemma {:induction false} LastInputWins(toks: seq<string>, n: nat)
    requires n <= |toks| && RedirectPrefix(toks, n).Some?
    ensures RedirectPrefix(toks, n).value.redirIn.None? <==>
            forall k :: 0 <= k < n ==> toks[k] != "<"
    ensures forall k: nat :: LastInputAt(toks, n, k) ==>
              k + 1 < |toks| && RedirectPrefix(toks, n).value.redirIn == Some(toks[k + 1])
  {
    if n > 0 {
      LastInputWins(toks, n - 1);
      forall k: nat | LastInputAt(toks, n, k)
        ensures k + 1 < |toks| && RedirectPrefix(toks, n).value.redirIn == Some(toks[k + 1])
      {
        if k < n - 1 {
          assert LastInputAt(toks, n - 1, k);
        }
      }
    }
  }

  /** Append is set exactly when the last operator of any kind is `>>`: `>` and `<` both reset it. */
  lemma {:induction false} AppendFromLastOperator(toks: seq<string>, n: nat)
    requires n <= |toks| && RedirectPrefix(toks, n).Some?
    ensures RedirectPrefix(toks, n).value.append <==>
            exists k :: 0 <= k < n && toks[k] == ">>" && forall j :: k < j < n ==> !IsOperator(toks[j])
  {
    if n > 0 {
      AppendFromLastOperator(toks, n - 1);
      var r := RedirectPrefix(toks, n).value;
      if toks[n - 1] == ">>" {
        assert r.append;
      } else if IsOperator(toks[n - 1]) {
        assert !r.append;
      } else if r.append {
        var k :| 0 <= k < n - 1 && toks[k] == ">>" && forall j :: k < j < n - 1 ==> !IsOperator(toks[j]);
        assert forall j :: k < j < n ==> !IsOperator(toks[j]);
      }
    }
  }

  /**
   * The redirection fields of an initialised Command: the file after the last
   * `>` or `>>`, the file after the last `<`, and append exactly when the last
   * operator is `>>`.
   */
  lemma CommandRedirections(toks: seq<string>, vars: seq<Variable>, fs: FileSystem)
    requires CommandFor(toks, vars, fs).Some?
    ensures var c := CommandFor(toks, vars, fs).value;
            c.redirOut.None? <==> forall k :: 0 <= k < |toks| ==> !IsOutput(toks[k])
    ensures var c := CommandFor(toks, vars, fs).value;
            forall k: nat :: LastOutputAt(toks, |toks|, k) ==> k + 1 < |toks| && c.redirOut == Some(toks[k + 1])
    ensures var c := CommandFor(toks, vars, fs).value;
            c.redirIn.None? <==> forall k :: 0 <= k < |toks| ==> toks[k] != "<"
    ensures var c := CommandFor(toks, vars, fs).value;
            forall k: nat :: LastInputAt(toks, |toks|, k) ==> k + 1 < |toks| && c.redirIn == Some(toks[k + 1])
    ensures var c := CommandFor(toks, vars, fs).value;
            c.append <==>
            exists k :: 0 <= k < |toks| && toks[k] == ">>" && forall j :: k < j < |toks| ==> !IsOperator(toks[j])
  {
    RedirectFails(toks);
    LastOutputWins(toks, |toks|);
    LastInputWins(toks, |toks|);
    AppendFromLastOperator(toks, |toks|);
  }

  /** One step of the redirection loop, on the token at `index`. */
  lemma RedirectStep(toks: seq<string>, index: nat, red: Redirection)
    requires index < |toks| && RedirectPrefix(toks, index) == Some(red)
    ensures ClearedUpTo(toks, index)[index] == Some(toks[index])
    ensures !IsOperator(toks[index]) ==>
              RedirectPrefix(toks, index + 1) == Some(red) &&
              ClearedUpTo(toks, index + 1) == ClearedUpTo(toks, index)
    ensures IsOperator(toks[index]) && index + 1 == |toks| ==> RedirectPrefix(toks, |toks|) == None
    ensures IsOperator(toks[index]) && index + 1 < |toks| ==>
              ClearedUpTo(toks, index)[index + 1] == Some(toks[index + 1]) &&
              RedirectPrefix(toks, index + 1) == Some(Apply(red, toks[index], toks[index + 1])) &&
              ClearedUpTo(toks, index + 1) == ClearedUpTo(toks, index)[index := None]
  {
  }

  /**
   * handle_redirection_command_initialization: resolve the first token, then
   * walk the token array until its NULL, clearing each operator's slot and
   * recording the file after it.
   */
  method InitializeCommand(toks: seq<string>, vars: seq<Variable>, fs: FileSystem)
    returns (cmd: Option<Command>)
    ensures cmd == CommandFor(toks, vars, fs)
  {
    var first := if toks == [] then None else Some(toks[0]);
    var execPath := ResolveExecutable(first, PathEntry(vars), fs);
    var slots := ClearedUpTo(toks, 0);
    var red := NoRedirection;
    var index := 0;
    while slots[index].Some?
      invariant index <= |toks|
      invariant slots == ClearedUpTo(toks, index)
      invariant RedirectPrefix(toks, index) == Some(red)
      decreases |toks| - index
    {
      RedirectStep(toks, index, red);
      var t := slots[index].value;
      if IsOperator(t) {
        if slots[index + 1].None? {
          return None;
        }
        red := Apply(red, t, slots[index + 1].value);
        slots := slots[index := None];
      }
      index := index + 1;
    }
    cmd := Some(Command(slots, execPath, red.redirIn, red.redirOut, red.append, StdinFileno, StdoutFileno));
  }

  /** One stage of the line: expanded again (parse.c:243), split on spaces, initialised. */
  function StageFor(seg: string, vars: seq<Variable>, fs: FileSystem): Option<Command>
    requires Expand(seg, vars).Some?
  {
    CommandFor(Tokens(Expand(seg, vars).value, ' '), vars, fs)
  }

  /**
   * Every stage set_linked_list reaches expands: the stages up to and
   * including the first one whose initialisation fails. The C code does not
   * check this second expansion.
   */
  predicate StagesExpand(segs: seq<string>, vars: seq<Variable>, fs: FileSystem)
    decreases |segs|
  {
    segs == [] ||
    (Expand(segs[0], vars).Some? &&
     (StageFor(segs[0], vars, fs).Some? ==> StagesExpand(segs[1..], vars, fs)))
  }

  /** set_linked_list: one Command per segment, in order, or None (the -1 return) if one fails. */
  function BuildStages(segs: seq<string>, vars: seq<Variable>, fs: FileSystem): (r: Option<seq<Command>>)
    requires StagesExpand(segs, vars, fs)
    ensures r.Some? ==> |r.value| == |segs|
    decreases |segs|
  {
    if segs == [] then Some([])
    else match StageFor(segs[0], vars, fs)
      case None => None
      case Some(c) => Prepended([c], BuildStages(segs[1..], vars, fs))
  }

  /** The list set_linked_list builds holds, at each position, the stage of that segment. */
  lemma {:induction false} BuildStagesAt(segs: seq<string>, vars: seq<Variable>, fs: FileSystem)
    requires StagesExpand(segs, vars, fs)
    ensures BuildStages(segs, vars, fs).Some? ==> forall k :: 0 <= k < |segs| ==>
              Expand(segs[k], vars).Some? && StageFor(segs[k], vars, fs) == Some(BuildStages(segs, vars, fs).value[k])
    decreases |segs|
  {
    if segs != [] && BuildStages(segs, vars, fs).Some? {
      var tail := segs[1..];
      BuildStagesAt(tail, vars, fs);
      var r := BuildStages(segs, vars, fs).value;
      var cs := BuildStages(tail, vars, fs).value;
      assert r == [StageFor(segs[0], vars, fs).value] + cs;
      forall k | 1 <= k < |segs|
        ensures Expand(segs[k], vars).Some? && StageFor(segs[k], vars, fs) == Some(r[k])
      {
        assert segs[k] == tail[k - 1] && r[k] == cs[k - 1];
      }
    }
  }

  /** set_linked_list fails exactly when the stage of some segment fails. */
  lemma {:induction false} BuildStagesFails(segs: seq<string>, vars: seq<Variable>, fs: FileSystem)
    requires StagesExpand(segs, vars, fs)
    ensures BuildStages(segs, vars, fs).None? <==>
              exists k :: 0 <= k < |segs| && Expand(segs[k], vars).Some? && StageFor(segs[k], vars, fs).None?
    decreases |segs|
  {
    if segs != [] && StageFor(segs[0], vars, fs).Some? {
      var tail := segs[1..];
      BuildStagesFails(tail, vars, fs);
      if BuildStages(tail, vars, fs).None? {
        var k :| 0 <= k < |tail| && Expand(tail[k], vars).Some? && StageFor(tail[k], vars, fs).None?;
        assert tail[k] == segs[k + 1];
      } else {
        forall k | 0 <= k < |segs| && Expand(segs[k], vars).Some?
          ensures StageFor(segs[k], vars, fs).Some?
        {
          if k > 0 { assert segs[k] == tail[k - 1]; }
        }
      }
    }
  }

  function Prepended(cmds: seq<Command>, r: Option<seq<Command>>): Option<seq<Command>> {
    match r
    case None => None
    case Some(cs) => Some(cmds + cs)
  }

  lemma PrependedAppend(a: seq<Command>, b: seq<Command>, r: Option<seq<Command>>)
    ensures Prepended(a, Prepended(b, r)) == Prepended(a + b, r)
  {
    if r.Some? {
      assert a + (b + r.value) == (a + b) + r.value;
    }
  }

  lemma PrependedEmpty(r: Option<seq<Command>>)
    ensures Prepended([], r) == r
  {
    if r.Some? {
      assert [] + r.value == r.value;
    }
  }

  /** One iteration of set_linked_list, seen through BuildStages. */
  lemma BuildStep(segs: seq<string>, vars: seq<Variable>, fs: FileSystem)
    requires segs != [] && StagesExpand(segs, vars, fs)
    ensures Expand(segs[0], vars).Some?
    ensures StageFor(segs[0], vars, fs).None? ==> BuildStages(segs, vars, fs) == None
    ensures StageFor(segs[0], vars, fs).Some? ==>
              StagesExpand(segs[1..], vars, fs) &&
              BuildStages(segs, vars, fs) ==
              Prepended([StageFor(segs[0], vars, fs).value], BuildStages(segs[1..], vars, fs))
  {
  }

  /** The loop invariant of set_linked_list carried over one more segment. */
  lemma BuildAppend(segs: seq<string>, i: nat, cmds: seq<Command>, vars: seq<Variable>, fs: FileSystem)
    requires i < |segs| && StagesExpand(segs, vars, fs) && StagesExpand(segs[i..], vars, fs)
    requires BuildStages(segs, vars, fs) == Prepended(cmds, BuildStages(segs[i..], vars, fs))
    ensures Expand(segs[i], vars).Some?
    ensures StageFor(segs[i], vars, fs).None? ==> BuildStages(segs, vars, fs) == None
    ensures StageFor(segs[i], vars, fs).Some? ==>
              StagesExpand(segs[i + 1..], vars, fs) &&
              BuildStages(segs, vars, fs) ==
              Prepended(cmds + [StageFor(segs[i], vars, fs).value], BuildStages(segs[i + 1..], vars, fs))
  {
    BuildStep(segs[i..], vars, fs);
    assert segs[i..][0] == segs[i];
    assert segs[i..][1..] == segs[i + 1..];
    if StageFor(segs[i], vars, fs).Some? {
      PrependedAppend(cmds, [StageFor(segs[i], vars, fs).value], BuildStages(segs[i + 1..], vars, fs));
    }
  }

  /** The loop invariant of set_linked_list holds before the first segment. */
  lemma BuildStart(segs: seq<string>, vars: seq<Variable>, fs: FileSystem)
    requires StagesExpand(segs, vars, fs)
    ensures StagesExpand(segs[0..], vars, fs)
    ensures BuildStages(segs, vars, fs) == Prepended([], BuildStages(segs[0..], vars, fs))
  {
    assert segs[0..] == segs;
    PrependedEmpty(BuildStages(segs, vars, fs));
  }

  /** After the last segment the invariant of set_linked_list gives the whole list. */
  lemma BuildDone(segs: seq<string>, cmds: seq<Command>, vars: seq<Variable>, fs: FileSystem)
    requires StagesExpand(segs, vars, fs) && StagesExpand(segs[|segs|..], vars, fs)
    requires BuildStages(segs, vars, fs) == Prepended(cmds, BuildStages(segs[|segs|..], vars, fs))
    ensures BuildStages(segs, vars, fs) == Some(cmds)
  {
    assert segs[|segs|..] == [];
    assert cmds + [] == cmds;
  }

  /** The body of set_linked_list's loop: expand the segment, split it on spaces, initialise. */
  method InitializeStage(seg: string, vars: seq<Variable>, fs: FileSystem) returns (cmd: Option<Command>)
    requires Expand(seg, vars).Some?
    ensures cmd == StageFor(seg, vars, fs)
  {
    var replaced := ReplaceVariables(seg, vars);
    var toks := Split(replaced.value, ' ');
    cmd := InitializeCommand(toks, vars, fs);
  }

  /** set_linked_list: the loop over the segments, appending each stage at the tail. */
  method SetLinkedList(segs: seq<string>, vars: seq<Variable>, fs: FileSystem) returns (r: Option<seq<Command>>)
    requires StagesExpand(segs, vars, fs)
    ensures r == BuildStages(segs, vars, fs)
  {
    var cmds: seq<Command> := [];
    var i := 0;
    BuildStart(segs, vars, fs);
    while i < |segs|
      invariant i <= |segs|
      invariant StagesExpand(segs[i..], vars, fs)
      invariant BuildStages(segs, vars, fs) == Prepended(cmds, BuildStages(segs[i..], vars, fs))
    {
      BuildAppend(segs, i, cmds, vars, fs);
      var cmd := InitializeStage(segs[i], vars, fs);
      if cmd.None? {
        return None;
      }
      cmds := cmds + [cmd.value];
      i := i + 1;
    }
    BuildDone(segs, cmds, vars, fs);
    r := Some(cmds);
  }

  /** What parse_command (and parse_line) hand back: NULL, -1, or the head of a pipeline. */
  datatype Parsed = NoCommand | Failed | Pipeline(stages: seq<Command>)

  /** The condition under which parse_command is defined on `line`. */
  predicate Parsable(line: string, vars: seq<Variable>, fs: FileSystem) {
    PathEntry(vars).Some? ==> StagesExpand(Tokens(line, '|'), vars, fs)
  }

  /**
   * parse_command: -1 without a PATH variable; otherwise one stage per
   * non-empty '|' segment, NULL when there is none.
   */
  function PipelineFor(line: string, vars: seq<Variable>, fs: FileSystem): (r: Parsed)
    requires Parsable(line, vars, fs)
    ensures PathEntry(vars).None? ==> r == Failed
    ensures r == NoCommand <==> PathEntry(vars).Some? && forall k :: 0 <= k < |line| ==> line[k] == '|'
    ensures r.Pipeline? ==> |r.stages| == |Tokens(line, '|')| > 0
  {
    if PathEntry(vars).None? then Failed
    else match BuildStages(Tokens(line, '|'), vars, fs)
      case None => Failed
      case Some(cs) => if cs == [] then NoCommand else Pipeline(cs)
  }

  /** parse_command: check for PATH, split on '|', build the list. */
  method ParseCommand(line: string, vars: seq<Variable>, fs: FileSystem) returns (r: Parsed)
    requires Parsable(line, vars, fs)
    ensures r == PipelineFor(line, vars, fs)
  {
    if FindPathVariable(vars).None? {
      return Failed;
    }
    var segs := Split(line, '|');
    var stages := SetLinkedList(segs, vars, fs);
    match stages {
      case None => r := Failed;
      case Some(cs) => r := if cs == [] then NoCommand else Pipeline(cs);
    }
  }

  /** Segments free of '$' always expand: the second expansion is then the identity. */
  lemma {:induction false} StagesExpandDollarFree(segs: seq<string>, vars: seq<Variable>, fs: FileSystem)
    requires forall k :: 0 <= k < |segs| ==> '$' !in segs[k]
    ensures StagesExpand(segs, vars, fs)
    decreases |segs|
  {
    if segs != [] {
      StagesExpandDollarFree(segs[1..], vars, fs);
    }
  }

  /** parse_command is defined on every line without a '$'. */
  lemma ParsableDollarFree(line: string, vars: seq<Variable>, fs: FileSystem)
    requires '$' !in line
    ensures Parsable(line, vars, fs)
  {
    TokensAvoid(line, '|', '$');
    StagesExpandDollarFree(Tokens(line, '|'), vars, fs);
  }
}

/**
 * parse_line: one input line is ignored (blank or comment), stored as an
 * assignment `NAME=value`, or parsed as a pipeline after variable expansion.
 * Also the two read-only scans count_args and find_first_command.
 */
module Line {
  import opened Wrappers
  import opened Ascii
  import opened Variables
  import opened Strtok
  import opened Expansion
  import opened Resolver
  import opened Pipeline

  /** The line from its first non-space character on. */
  function TrimLeft(s: string): (r: string)
    ensures |r| <= |s| && r == s[|s| - |r|..]
    ensures r != [] ==> !IsSpace(r[0])
    ensures s != [] && IsSpace(s[0]) ==> |r| < |s|
    decreases |s|
  {
    if s != [] && IsSpace(s[0]) then TrimLeft(s[1..]) else s
  }

  /** TrimLeft removes white space and nothing else. */
  lemma {:induction false} TrimLeftRemovesSpaces(s: string)
    ensures forall k :: 0 <= k < |s| - |TrimLeft(s)| ==> IsSpace(s[k])
    decreases |s|
  {
    if s != [] && IsSpace(s[0]) {
      TrimLeftRemovesSpaces(s[1..]);
      forall k | 1 <= k < |s| - |TrimLeft(s)| ensures IsSpace(s[k]) {
        assert s[k] == s[1..][k - 1];
      }
    }
  }

  /** strchr: the first position of c in s. */
  function IndexOf(s: string, c: char): (r: Option<nat>)
    ensures r.None? <==> c !in s
    ensures r.Some? ==> r.value < |s| && s[r.value] == c && c !in s[..r.value]
  {
    if s == [] then None
    else if s[0] == c then Some(0)
    else match IndexOf(s[1..], c)
      case None => None
      case Some(k) =>
        assert s[..k + 1] == [s[0]] + s[1..][..k];
        Some(k + 1)
  }

  /** A variable name parse_line accepts: letters and '_' only. */
  predicate ValidName(name: string) {
    forall k :: 0 <= k < |name| ==> IsAlpha(name[k]) || name[k] == '_'
  }

  /** What parse_line decides to do with a line. */
  datatype Action = Ignore | Reject | Store(name: string, value: string) | Run(text: string)

  /**
   * The decision of parse_line (parse.c:335-398): None is a NULL line. An
   * assignment is any line with a '=', split at the first one.
   */
  function Classify(line: Option<string>): Action
  {
    if line.None? || line.value == [] || line.value[0] == '#' then Ignore
    else
      var t := TrimLeft(line.value);
      if t == [] || t[0] == '#' then Ignore
      else match IndexOf(t, '=')
        case None => Run(t)
        case Some(e) =>
          if e == 0 || !ValidName(t[..e]) then Reject
          else Store(t[..e], t[e + 1..])
  }

  /**
   * The four outcomes of the decision: blank and comment lines, assignments
   * split at the first '=', rejected assignments, and command lines, which
   * hold no '='.
   */
  lemma ClassifyCases(line: Option<string>)
    ensures Classify(line) == Ignore <==>
              line.None? || TrimLeft(line.value) == [] || TrimLeft(line.value)[0] == '#'
    ensures Classify(line).Store? ==>
              TrimLeft(line.value) == Classify(line).name + "=" + Classify(line).value &&
              Classify(line).name != [] && ValidName(Classify(line).name) && '=' !in Classify(line).name
    ensures Classify(line) == Reject <==>
              Classify(line) != Ignore && '=' in TrimLeft(line.value) &&
              var e := IndexOf(TrimLeft(line.value), '=').value;
              e == 0 || !ValidName(TrimLeft(line.value)[..e])
    ensures Classify(line).Run? ==>
              Classify(line).text == TrimLeft(line.value) && Classify(line).text != [] &&
              Classify(line).text[0] != '#' && '=' !in Classify(line).text
  {
    if line.Some? && line.value != [] && line.value[0] != '#' {
      var t := TrimLeft(line.value);
      if t != [] && t[0] != '#' && IndexOf(t, '=').Some? {
        SplitAt(t, IndexOf(t, '=').value);
      }
    }
  }

  /** s cut around position e. */
  lemma SplitAt(s: string, e: nat)
    requires e < |s|
    ensures s == s[..e] + [s[e]] + s[e + 1..]
  {
  }

  /** The value parse_line returns together with the variable list it leaves behind. */
  datatype Outcome = Outcome(result: Parsed, variables: seq<Variable>)

  /**
   * parse_line is defined on the line: the expanded command line is one on
   * which parse_command is defined.
   */
  predicate LineDefined(line: Option<string>, vars: seq<Variable>, fs: FileSystem) {
    match Classify(line)
    case Run(t) => Expand(t, vars).Some? ==> Parsable(Expand(t, vars).value, vars, fs)
    case _ => true
  }

  /** parse_line as a function of the line and the variable list before it. */
  function LineOutcome(line: Option<string>, vars: seq<Variable>, fs: FileSystem): (r: Outcome)
    requires LineDefined(line, vars, fs)
    ensures !Classify(line).Store? ==> r.variables == vars
    ensures Classify(line).Store? ==>
              r.result == NoCommand &&
              Lookup(r.variables, Classify(line).name) == Some(Classify(line).value) &&
              forall other :: other != Classify(line).name ==> Lookup(r.variables, other) == Lookup(vars, other)
    ensures UniqueNames(vars) ==> UniqueNames(r.variables)
    ensures Classify(line).Run? && PathEntry(vars).None? ==> r.result == Failed
    ensures Classify(line).Run? && Expand(Classify(line).text, vars).None? ==> r.result == Failed
    ensures Classify(line).Run? && Expand(Classify(line).text, vars).Some? ==>
              Parsable(Expand(Classify(line).text, vars).value, vars, fs) &&
              r.result == PipelineFor(Expand(Classify(line).text, vars).value, vars, fs)
    ensures Classify(line) == Ignore ==> r == Outcome(NoCommand, vars)
    ensures Classify(line) == Reject ==> r == Outcome(Failed, vars)
  {
    match Classify(line)
    case Ignore => Outcome(NoCommand, vars)
    case Reject => Outcome(Failed, vars)
    case Store(name, value) =>
      AssignedFacts(vars, name, value);
      Outcome(NoCommand, Assigned(vars, name, value))
    case Run(t) =>
      if '$' in t then
        match Expand(t, vars)
        case None => Outcome(Failed, vars)
        case Some(e) => Outcome(PipelineFor(e, vars, fs), vars)
      else
        Outcome(PipelineFor(t, vars, fs), vars)
  }

  /** A NULL, blank, white-space-only or comment line yields no pipeline and changes nothing. */
  lemma BlankOrCommentIgnored(line: Option<string>, vars: seq<Variable>, fs: FileSystem)
    requires line.None? || TrimLeft(line.value) == [] || TrimLeft(line.value)[0] == '#'
    ensures LineDefined(line, vars, fs)
    ensures LineOutcome(line, vars, fs) == Outcome(NoCommand, vars)
  {
    ClassifyCases(line);
  }

  lemma AssignedFacts(vars: seq<Variable>, name: string, value: string)
    ensures Lookup(Assigned(vars, name, value), name) == Some(value)
    ensures forall other :: other != name ==> Lookup(Assigned(vars, name, value), other) == Lookup(vars, other)
    ensures UniqueNames(vars) ==> UniqueNames(Assigned(vars, name, value))
  {
    AssignedLookup(vars, name, value, name);
    forall other | other != name
      ensures Lookup(Assigned(vars, name, value), other) == Lookup(vars, other)
    {
      AssignedLookup(vars, name, value, other);
    }
    if UniqueNames(vars) {
      AssignedUnique(vars, name, value);
    }
  }

  /**
   * parse_line: trims the line, stores an assignment in `store`, or expands
   * and parses a command line.
   */
  method ParseLine(line: Option<string>, store: VariableStore, fs: FileSystem) returns (r: Parsed)
    requires LineDefined(line, store.entries, fs)
    modifies store
    ensures Outcome(r, store.entries) == LineOutcome(line, old(store.entries), fs)
  {
    if line.None? || line.value == [] || line.value[0] == '#' {
      return NoCommand;
    }
    var trimmed := SkipSpaces(line.value);
    if trimmed != [] && trimmed[0] == '#' {
      return NoCommand;
    }
    if trimmed == [] {
      return NoCommand;
    }
    var equals := IndexOf(trimmed, '=');
    if equals.Some? {
      if equals.value == 0 {
        return Failed;
      }
      var name := trimmed[..equals.value];
      var value := trimmed[equals.value + 1..];
      var valid := CheckName(name);
      if !valid {
        return Failed;
      }
      store.Assign(name, value);
      return NoCommand;
    }
    if '$' in trimmed {
      var newLine := ReplaceVariables(trimmed, store.entries);
      if newLine.None? {
        return Failed;
      }
      var numArgs := CountArgs(newLine.value);
      r := ParseCommand(newLine.value, store.entries, fs);
      return;
    }
    var numArgs := CountArgs(trimmed);
    r := ParseCommand(trimmed, store.entries, fs);
  }

  /** The loop `while (isspace(*line)) line++` of parse_line. */
  method SkipSpaces(s: string) returns (t: string)
    ensures t == TrimLeft(s)
  {
    var i := 0;
    while i < |s| && IsSpace(s[i])
      invariant i <= |s|
      invariant TrimLeft(s[i..]) == TrimLeft(s)
    {
      i := i + 1;
    }
    t := s[i..];
  }

  /** The name-validation loop of parse_line. */
  method CheckName(name: string) returns (valid: bool)
    ensures valid == ValidName(name)
  {
    var p := 0;
    while p < |name|
      invariant p <= |name|
      invariant forall k :: 0 <= k < p ==> IsAlpha(name[k]) || name[k] == '_'
    {
      if !IsAlpha(name[p]) && name[p] != '_' {
        return false;
      }
      p := p + 1;
    }
    return true;
  }

  /** The decision once the trimmed line and its first '=' are known. */
  lemma ClassifiedAt(line: string, t: string, e: nat)
    requires line != [] && line[0] != '#' && TrimLeft(line) == t && t != [] && t[0] != '#'
    requires IndexOf(t, '=') == Some(e)
    ensures e == 0 || !ValidName(t[..e]) ==> Classify(Some(line)) == Reject
    ensures e > 0 && ValidName(t[..e]) ==> Classify(Some(line)) == Store(t[..e], t[e + 1..])
  {
  }

  /** `NAME=value` after leading white space is an assignment, split at the first '='. */
  lemma AssignmentClassified(pre: string, name: string, value: string)
    requires forall k :: 0 <= k < |pre| ==> IsSpace(pre[k])
    requires name != [] && ValidName(name)
    ensures Classify(Some(pre + (name + "=" + value))) == Store(name, value)
  {
    var t := name + "=" + value;
    NameHasNoEquals(name);
    AssignmentText(pre, t, name, value);
    ClassifiedAt(pre + t, t, |name|);
  }

  lemma NameHasNoEquals(name: string)
    requires ValidName(name)
    ensures '=' !in name
  {
    forall k | 0 <= k < |name| ensures name[k] != '=' {
      assert IsAlpha(name[k]) || name[k] == '_';
    }
  }

  /** White space in front of a line that does not start with '#' does not make it start with '#'. */
  lemma FirstNotHash(pre: string, t: string)
    requires forall k :: 0 <= k < |pre| ==> IsSpace(pre[k])
    requires t != [] && t[0] != '#'
    ensures pre + t != [] && (pre + t)[0] != '#'
  {
    if pre != [] {
      assert (pre + t)[0] == pre[0];
    } else {
      assert pre + t == t;
    }
  }

  /** `NAME=value` split at its first '='. */
  lemma SplitAtEquals(t: string, name: string, value: string)
    requires '=' !in name && t == name + "=" + value
    ensures IndexOf(t, '=') == Some(|name|) && t[..|name|] == name && t[|name| + 1..] == value
  {
    IndexOfAfter(name, '=', value);
  }

  /** What the classification sees of `pre NAME=value`: its trimmed text and first '='. */
  lemma AssignmentText(pre: string, t: string, name: string, value: string)
    requires forall k :: 0 <= k < |pre| ==> IsSpace(pre[k])
    requires name != [] && !IsSpace(name[0]) && name[0] != '#' && '=' !in name
    requires t == name + "=" + value
    ensures pre + t != [] && (pre + t)[0] != '#'
    ensures TrimLeft(pre + t) == t && t != [] && t[0] != '#'
    ensures IndexOf(t, '=') == Some(|name|) && t[..|name|] == name && t[|name| + 1..] == value
  {
    assert t[0] == name[0];
    TrimPrefix(pre, t);
    FirstNotHash(pre, t);
    SplitAtEquals(t, name, value);
  }

  /**
   * `NAME=value` after leading white space stores the value, spaces and '='
   * in it included, and returns no pipeline.
   */
  lemma AssignmentLine(pre: string, name: string, value: string, vars: seq<Variable>, fs: FileSystem)
    requires forall k :: 0 <= k < |pre| ==> IsSpace(pre[k])
    requires name != [] && ValidName(name)
    ensures LineDefined(Some(pre + (name + "=" + value)), vars, fs)
    ensures LineOutcome(Some(pre + (name + "=" + value)), vars, fs) ==
            Outcome(NoCommand, Assigned(vars, name, value))
  {
    AssignmentClassified(pre, name, value);
  }

  /** Leading white space is all TrimLeft removes. */
  lemma {:induction false} TrimPrefix(pre: string, t: string)
    requires forall k :: 0 <= k < |pre| ==> IsSpace(pre[k])
    requires t == [] || !IsSpace(t[0])
    ensures TrimLeft(pre + t) == t
    decreases |pre|
  {
    if pre != [] {
      assert (pre + t)[1..] == pre[1..] + t;
      TrimPrefix(pre[1..], t);
    } else {
      assert pre + t == t;
    }
  }

  /** strchr finds the character right after a prefix free of it. */
  lemma {:induction false} IndexOfAfter(a: string, c: char, b: string)
    requires c !in a
    ensures IndexOf(a + [c] + b, c) == Some(|a|)
    decreases |a|
  {
    var s := a + [c] + b;
    if a == [] {
      assert s[0] == c;
    } else {
      assert s[0] == a[0];
      assert s[1..] == a[1..] + [c] + b;
      IndexOfAfter(a[1..], c, b);
    }
  }

  /** A '=' as the first non-space character makes the line a rejected assignment. */
  lemma LeadingEqualsClassified(pre: string, rest: string)
    requires forall k :: 0 <= k < |pre| ==> IsSpace(pre[k])
    ensures Classify(Some(pre + ("=" + rest))) == Reject
  {
    var t := "=" + rest;
    TrimPrefix(pre, t);
    FirstNotHash(pre, t);
    IndexOfAfter([], '=', rest);
    assert [] + ['='] + rest == t;
    ClassifiedAt(pre + t, t, 0);
  }

  /** A '=' as the first non-space character is an error and leaves the list alone. */
  lemma LeadingEqualsRejected(pre: string, rest: string, vars: seq<Variable>, fs: FileSystem)
    requires forall k :: 0 <= k < |pre| ==> IsSpace(pre[k])
    ensures LineDefined(Some(pre + ("=" + rest)), vars, fs)
    ensures LineOutcome(Some(pre + ("=" + rest)), vars, fs) == Outcome(Failed, vars)
  {
    LeadingEqualsClassified(pre, rest);
  }

  /**
   * A name with a character other than a letter or '_' before the first '='
   * is an error.
   */
  lemma BadNameClassified(pre: string, name: string, value: string, k: nat)
    requires forall j :: 0 <= j < |pre| ==> IsSpace(pre[j])
    requires name != [] && !IsSpace(name[0]) && name[0] != '#' && '=' !in name
    requires k < |name| && !IsAlpha(name[k]) && name[k] != '_'
    ensures Classify(Some(pre + (name + "=" + value))) == Reject
  {
    var t := name + "=" + value;
    AssignmentText(pre, t, name, value);
    ClassifiedAt(pre + t, t, |name|);
  }

  /** A rejected assignment returns -1 and leaves the list alone. */
  lemma BadNameRejected(pre: string, name: string, value: string, k: nat, vars: seq<Variable>, fs: FileSystem)
    requires forall j :: 0 <= j < |pre| ==> IsSpace(pre[j])
    requires name != [] && !IsSpace(name[0]) && name[0] != '#' && '=' !in name
    requires k < |name| && !IsAlpha(name[k]) && name[k] != '_'
    ensures LineDefined(Some(pre + (name + "=" + value)), vars, fs)
    ensures LineOutcome(Some(pre + (name + "=" + value)), vars, fs) == Outcome(Failed, vars)
  {
    BadNameClassified(pre, name, value, k);
  }

  /** Any '=' makes a line an assignment: `echo a=b` is rejected for its name "echo a". */
  lemma EchoWithEqualsRejected(vars: seq<Variable>, fs: FileSystem)
    ensures LineOutcome(Some("echo a=b"), vars, fs) == Outcome(Failed, vars)
  {
    assert "" + ("echo a" + "=" + "b") == "echo a=b";
    BadNameClassified("", "echo a", "b", 4);
  }

  /**
   * With no '$' in any value, parse_line is defined on every line: the
   * second expansion of each stage then changes nothing.
   */
  lemma DollarFreeDefined(line: Option<string>, vars: seq<Variable>, fs: FileSystem)
    requires DollarFreeValues(vars)
    ensures LineDefined(line, vars, fs)
  {
    match Classify(line)
    case Run(t) =>
      if Expand(t, vars).Some? {
        ExpandDollarFree(t, vars);
        ParsableDollarFree(Expand(t, vars).value, vars, fs);
      }
    case _ =>
  }

  /** Trimming removes characters, it never adds one. */
  lemma {:induction false} TrimLeftAvoids(s: string, c: char)
    requires c !in s
    ensures c !in TrimLeft(s)
    decreases |s|
  {
    if s != [] && IsSpace(s[0]) {
      TrimLeftAvoids(s[1..], c);
    }
  }

  /** A command line without '$' is parsed as it stands. */
  lemma PlainCommandLine(line: string, vars: seq<Variable>, fs: FileSystem)
    requires Classify(Some(line)).Run? && '$' !in line
    ensures LineDefined(Some(line), vars, fs) && Parsable(TrimLeft(line), vars, fs)
    ensures LineOutcome(Some(line), vars, fs) == Outcome(PipelineFor(TrimLeft(line), vars, fs), vars)
  {
    var t := Classify(Some(line)).text;
    assert t == TrimLeft(line);
    TrimLeftAvoids(line, '$');
    ParsableDollarFree(t, vars, fs);
  }

  /**
   * count_args: one plus the number of white-space runs whose first
   * character is not followed by '<' or '>'.
   */
  function ArgCount(s: string): (n: nat)
    ensures n >= 1
  {
    1 + Boundaries(s)
  }

  function Boundaries(s: string): nat
    decreases |s|
  {
    if s == [] then 0
    else if IsSpace(s[0]) then
      (if |s| > 1 && (s[1] == '<' || s[1] == '>') then 0 else 1) + Boundaries(TrimLeft(s))
    else Boundaries(s[1..])
  }

  /** count_args: the scan with its inner loop over a white-space run. */
  method CountArgs(line: string) returns (n: nat)
    ensures n == ArgCount(line)
  {
    n := 1;
    var ptr := line;
    while ptr != []
      invariant n + Boundaries(ptr) == ArgCount(line)
      decreases |ptr|
    {
      if IsSpace(ptr[0]) {
        if !(|ptr| > 1 && (ptr[1] == '<' || ptr[1] == '>')) {
          n := n + 1;
        }
        var q := ptr;
        while q != [] && IsSpace(q[0])
          invariant TrimLeft(q) == TrimLeft(ptr)
          decreases |q|
        {
          q := q[1..];
        }
        ptr := q;
      } else {
        ptr := ptr[1..];
      }
    }
  }

  /** A word free of white space adds no boundary. */
  lemma {:induction false} BoundariesSkipWord(w: string, x: string)
    requires forall k :: 0 <= k < |w| ==> !IsSpace(w[k])
    ensures Boundaries(w + x) == Boundaries(x)
    decreases |w|
  {
    if w != [] {
      assert (w + x)[0] == w[0];
      assert (w + x)[1..] == w[1..] + x;
      BoundariesSkipWord(w[1..], x);
    } else {
      assert w + x == x;
    }
  }

  /**
   * Words separated by single spaces count one each, as long as no word
   * starts with a redirection character.
   */
  lemma {:induction false} ArgCountOfWords(ws: seq<string>)
    requires |ws| > 0
    requires forall k :: 0 <= k < |ws| ==> ws[k] != [] && ws[k][0] != '<' && ws[k][0] != '>'
    requires forall k, m :: 0 <= k < |ws| && 0 <= m < |ws[k]| ==> !IsSpace(ws[k][m])
    ensures ArgCount(Join(ws, ' ')) == |ws|
    decreases |ws|
  {
    if |ws| == 1 {
      BoundariesSkipWord(ws[0], []);
      assert ws[0] + [] == ws[0];
    } else {
      var rest := Join(ws[1..], ' ');
      ArgCountOfWords(ws[1..]);
      assert rest != [] && rest[0] == ws[1][0] by {
        if |ws| > 2 {
          assert rest == ws[1] + ([' '] + Join(ws[2..], ' '));
        }
      }
      BoundariesWordSpace(ws[0], rest);
      assert Join(ws, ' ') == ws[0] + ([' '] + rest);
    }
  }

  /** A word and one space in front of text that is not a redirection add one boundary. */
  lemma BoundariesWordSpace(w: string, rest: string)
    requires forall k :: 0 <= k < |w| ==> !IsSpace(w[k])
    requires rest != [] && !IsSpace(rest[0]) && rest[0] != '<' && rest[0] != '>'
    ensures Boundaries(w + ([' '] + rest)) == 1 + Boundaries(rest)
  {
    TrimPrefix([' '], rest);
    assert Boundaries([' '] + rest) == 1 + Boundaries(rest);
    BoundariesSkipWord(w, [' '] + rest);
  }

  /** count_args counts a trailing space as the start of another argument. */
  lemma TrailingSpaceCounted()
    ensures ArgCount("ls") == 1 && ArgCount("ls ") == 2
  {
    assert Boundaries("ls") == Boundaries("s") == Boundaries([]) == 0;
    assert TrimLeft(" ") == [];
    assert Boundaries(" ") == 1;
    assert "ls "[1..] == "s " && "s "[1..] == " ";
    assert Boundaries("ls ") == Boundaries("s ") == Boundaries(" ");
  }

  /** A character that ends the first command word. */
  predicate EndsCommand(c: char) {
    c == ' ' || c == '<' || c == '>' || c == '|'
  }

  /**
   * find_first_command: the longest prefix of the line with no space, '<',
   * '>' or '|'.
   */
  function FirstCommand(line: string): (r: string)
    ensures |r| <= |line| && r == line[..|r|]
    ensures forall k :: 0 <= k < |r| ==> !EndsCommand(r[k])
    ensures |r| < |line| ==> EndsCommand(line[|r|])
  {
    if line == [] || EndsCommand(line[0]) then []
    else
      var rest := FirstCommand(line[1..]);
      assert [line[0]] + rest == line[..1 + |rest|];
      [line[0]] + rest
  }

  /** FirstCommand is the prefix up to the first character that ends the word. */
  lemma {:induction false} FirstCommandIs(line: string, n: nat)
    requires n <= |line|
    requires forall k :: 0 <= k < n ==> !EndsCommand(line[k])
    requires n < |line| ==> EndsCommand(line[n])
    ensures FirstCommand(line) == line[..n]
    decreases n
  {
    if n > 0 {
      FirstCommandIs(line[1..], n - 1);
      assert line[..n] == [line[0]] + line[1..][..n - 1];
    }
  }

  /** find_first_command: advance `end` to the first character that ends the word. */
  method FindFirstCommand(line: string) returns (r: string)
    ensures r == FirstCommand(line)
  {
    var end := 0;
    while end < |line| && !EndsCommand(line[end])
      invariant end <= |line|
      invariant forall k :: 0 <= k < end ==> !EndsCommand(line[k])
    {
      end := end + 1;
    }
    r := line[..end];
    FirstCommandIs(line, end);
  }
}

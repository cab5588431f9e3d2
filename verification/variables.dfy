/**
 * The shell's variable list: an ordered list of name/value entries, searched
 * front to back, whose values are overwritten in place and to whose head new
 * entries are added.
 */
module Variables {
  import opened Wrappers

  datatype Variable = Variable(name: string, value: string)

  /** PATH_VAR_NAME, the name resolve_executable insists on. */
  const PathVarName: string := "PATH"

  /** find_variable: the position of the first entry called `name`. */
  function FindVariable(vars: seq<Variable>, name: string): (r: Option<nat>)
    ensures r.Some? ==> r.value < |vars| && vars[r.value].name == name
    ensures r.Some? ==> forall j :: 0 <= j < r.value ==> vars[j].name != name
    ensures r.None? <==> forall j :: 0 <= j < |vars| ==> vars[j].name != name
  {
    if vars == [] then None
    else if vars[0].name == name then Some(0)
    else match FindVariable(vars[1..], name)
      case None => None
      case Some(k) => Some(k + 1)
  }

  /** find_path_variable: the position of the first entry called PATH. */
  function FindPathVariable(vars: seq<Variable>): (r: Option<nat>)
    ensures r.Some? ==> r.value < |vars| && vars[r.value].name == "PATH"
    ensures r.Some? ==> forall j :: 0 <= j < r.value ==> vars[j].name != "PATH"
    ensures r.None? <==> forall j :: 0 <= j < |vars| ==> vars[j].name != "PATH"
  {
    FindVariable(vars, "PATH")
  }

  /** The entry find_path_variable points at, if any. */
  function PathEntry(vars: seq<Variable>): (r: Option<Variable>)
    ensures r.Some? ==> r.value.name == PathVarName
  {
    match FindPathVariable(vars)
    case None => None
    case Some(k) => Some(vars[k])
  }

  /** The value of the first entry called `name`. */
  function Lookup(vars: seq<Variable>, name: string): (r: Option<string>)
    ensures r.None? <==> forall j :: 0 <= j < |vars| ==> vars[j].name != name
  {
    match FindVariable(vars, name)
    case None => None
    case Some(k) => Some(vars[k].value)
  }

  /** No two entries share a name. */
  ghost predicate UniqueNames(vars: seq<Variable>) {
    forall i, j :: 0 <= i < j < |vars| ==> vars[i].name != vars[j].name
  }

  /**
   * The list after the assignment `name=value`: the first entry with that
   * name gets the new value in place, or a new entry goes to the head.
   */
  function Assigned(vars: seq<Variable>, name: string, value: string): (r: seq<Variable>)
    ensures FindVariable(vars, name).Some? ==>
              var k := FindVariable(vars, name).value;
              |r| == |vars| && r[k] == Variable(name, value) &&
              forall j :: 0 <= j < |vars| && j != k ==> r[j] == vars[j]
    ensures FindVariable(vars, name).None? ==> |r| == |vars| + 1 && r[1..] == vars
  {
    match FindVariable(vars, name)
    case Some(k) => vars[k := Variable(name, value)]
    case None => [Variable(name, value)] + vars
  }

  /** After an assignment the name has the new value and every other name keeps its value. */
  lemma AssignedLookup(vars: seq<Variable>, name: string, value: string, other: string)
    ensures Lookup(Assigned(vars, name, value), name) == Some(value)
    ensures other != name ==> Lookup(Assigned(vars, name, value), other) == Lookup(vars, other)
  {
    var r := Assigned(vars, name, value);
    match FindVariable(vars, name)
    case Some(k) =>
      FirstAt(r, name, k);
      if other != name {
        match FindVariable(vars, other)
        case Some(m) => FirstAt(r, other, m);
        case None =>
      }
    case None =>
      FirstAt(r, name, 0);
      if other != name {
        match FindVariable(vars, other)
        case Some(m) => FirstAt(r, other, m + 1);
        case None =>
      }
  }

  /** Assignments never create a second entry with the same name. */
  lemma AssignedUnique(vars: seq<Variable>, name: string, value: string)
    requires UniqueNames(vars)
    ensures UniqueNames(Assigned(vars, name, value))
  {
    var r := Assigned(vars, name, value);
    if FindVariable(vars, name).None? {
      forall i, j | 0 <= i < j < |r| ensures r[i].name != r[j].name {
        if i > 0 {
          assert r[i] == vars[i - 1] && r[j] == vars[j - 1];
        }
      }
    }
  }

  /** FindVariable answers with the first index holding the name. */
  lemma FirstAt(vars: seq<Variable>, name: string, k: nat)
    requires k < |vars| && vars[k].name == name
    requires forall j :: 0 <= j < k ==> vars[j].name != name
    ensures FindVariable(vars, name) == Some(k)
  {
  }

  /**
   * The variable list as the C code holds it: `Variable **variables`, a
   * list head whose nodes parse_line updates.
   */
  class VariableStore {
    var entries: seq<Variable>

    constructor (init: seq<Variable>)
      ensures entries == init
    {
      entries := init;
    }

    /**
     * The update loop of parse_line (parse.c:377-394): overwrite the value of
     * the first entry with the name, or prepend a new entry.
     */
    method Assign(name: string, value: string)
      modifies this
      ensures entries == Assigned(old(entries), name, value)
    {
      var i := 0;
      while i < |entries|
        invariant i <= |entries|
        invariant forall j :: 0 <= j < i ==> entries[j].name != name
      {
        if entries[i].name == name {
          FirstAt(entries, name, i);
          entries := entries[i := Variable(name, value)];
          return;
        }
        i := i + 1;
      }
      entries := [Variable(name, value)] + entries;
    }
  }
}

/**
 * Variable expansion: `$NAME` and `${NAME}` are replaced by the value of the
 * first entry with that name, in one left-to-right pass over the line.
 */
module Expansion {
  import opened Wrappers
  import opened Ascii
  import opened Variables

  /** Length of the longest prefix of s made of letters, digits and '_'. */
  function NameLen(s: string): (n: nat)
    ensures n <= |s|
    ensures forall k :: 0 <= k < n ==> IsNameChar(s[k])
    ensures n < |s| ==> !IsNameChar(s[n])
  {
    if s == [] || !IsNameChar(s[0]) then 0 else 1 + NameLen(s[1..])
  }

  /** The reference that starts at s[0] == '$' uses the braced form. */
  predicate IsBraced(s: string) {
    |s| > 1 && s[1] == '{'
  }

  /**
   * extract_var_name: s starts at a '$'. Yields the name and the number of
   * characters of s the reference occupies; None for a `${` with no `}`
   * right after the name.
   */
  function ExtractVarName(s: string): (r: Option<(string, nat)>)
    requires |s| > 0 && s[0] == '$'
    ensures r.Some? ==> 1 <= r.value.1 <= |s|
    ensures r.Some? ==> forall k :: 0 <= k < |r.value.0| ==> IsNameChar(r.value.0[k])
  {
    var start := if IsBraced(s) then 2 else 1;
    var n := NameLen(s[start..]);
    if IsBraced(s) && (start + n == |s| || s[start + n] != '}') then None
    else
      var name := s[start..start + n];
      assert forall k :: 0 <= k < n ==> name[k] == s[start..][k];
      Some((name, if IsBraced(s) then start + n + 1 else start + n))
  }

  /**
   * A run of name characters followed by neither another name character nor
   * `}`: the end of a `${` reference that is never closed.
   */
  predicate Unclosed(name: string, rest: string) {
    && (forall m :: 0 <= m < |name| ==> IsNameChar(name[m]))
    && (rest == [] || (rest[0] != '}' && !IsNameChar(rest[0])))
  }

  /** extract_var_name fails exactly on a `${` whose name is not followed by `}`. */
  lemma ExtractFails(s: string)
    requires |s| > 0 && s[0] == '$'
    ensures ExtractVarName(s).None? <==>
              exists name, rest :: s == "${" + name + rest && Unclosed(name, rest)
  {
    if ExtractVarName(s).None? {
      ExtractFailureShape(s);
      var n := NameLen(s[2..]);
      assert s == "${" + s[2..2 + n] + s[2 + n..] && Unclosed(s[2..2 + n], s[2 + n..]);
    }
    if exists name, rest :: s == "${" + name + rest && Unclosed(name, rest) {
      var name, rest :| s == "${" + name + rest && Unclosed(name, rest);
      UnclosedNotExtracted(s, name, rest);
    }
  }

  /** A failed extraction: `${`, the run of name characters, and what follows it. */
  lemma ExtractFailureShape(s: string)
    requires |s| > 0 && s[0] == '$' && ExtractVarName(s).None?
    ensures var n := NameLen(s[2..]);
            s == "${" + s[2..2 + n] + s[2 + n..] && Unclosed(s[2..2 + n], s[2 + n..])
  {
    var n := NameLen(s[2..]);
    var name, rest := s[2..2 + n], s[2 + n..];
    assert s == s[..2] + name + rest;
    assert s[..2] == "${";
    assert forall m :: 0 <= m < n ==> name[m] == s[2..][m];
    assert rest != [] ==> rest[0] == s[2..][n];
  }

  /** `${`, a run of name characters and no `}` after it: extraction fails. */
  lemma UnclosedNotExtracted(s: string, name: string, rest: string)
    requires s == "${" + name + rest && Unclosed(name, rest)
    ensures ExtractVarName(s).None?
  {
    assert s[2..] == name + rest;
    NameLenOf(name, rest);
    assert rest != [] ==> s[2 + |name|] == rest[0];
  }

  /**
   * What extract_var_name accepts: `$` and a maximal run of name characters,
   * or `${`, such a run and `}`.
   */
  lemma ExtractShape(s: string)
    requires |s| > 0 && s[0] == '$' && ExtractVarName(s).Some?
    ensures var (name, used) := ExtractVarName(s).value;
            !IsBraced(s) ==>
              used == 1 + |name| && s[1..used] == name && (used == |s| || !IsNameChar(s[used]))
    ensures var (name, used) := ExtractVarName(s).value;
            IsBraced(s) ==>
              used == 3 + |name| && s[2..used - 1] == name && s[used - 1] == '}'
  {
    var start := if IsBraced(s) then 2 else 1;
    var tail := s[start..];
    var n := NameLen(tail);
    assert start + n < |s| ==> s[start + n] == tail[n];
  }

  /**
   * The line with every reference replaced, or None when a reference is
   * undefined or a `${` is not closed. Characters of a substituted value are
   * never looked at again.
   */
  function Expand(line: string, vars: seq<Variable>): (r: Option<string>)
    ensures '$' !in line ==> r == Some(line)
    decreases |line|
  {
    if line == [] then Some([])
    else if line[0] == '$' then
      match ExtractVarName(line)
      case None => None
      case Some((name, used)) =>
        match Lookup(vars, name)
        case None => None
        case Some(v) =>
          match Expand(line[used..], vars)
          case None => None
          case Some(rest) => Some(v + rest)
    else
      assert line == [line[0]] + line[1..];
      match Expand(line[1..], vars)
      case None => None
      case Some(rest) => Some([line[0]] + rest)
  }

  /** out in front of a partial result; failure stays failure. */
  function Prefixed(out: string, r: Option<string>): Option<string> {
    match r
    case None => None
    case Some(s) => Some(out + s)
  }

  /**
   * replace_variables_mk_line: copies ordinary characters and splices in
   * values, writing into a growing buffer.
   */
  method ReplaceVariables(line: string, vars: seq<Variable>) returns (r: Option<string>)
    ensures r == Expand(line, vars)
  {
    var out: string := [];
    var ptr := line;  // the unread rest of the line
    PrefixedEmpty(Expand(line, vars));
    while ptr != []
      invariant Expand(line, vars) == Prefixed(out, Expand(ptr, vars))
      decreases |ptr|
    {
      if ptr[0] == '$' {
        var ext := ExtractVarName(ptr);
        if ext.None? {
          return None;
        }
        var name, used := ext.value.0, ext.value.1;
        var found := FindVariable(vars, name);
        if found.None? {
          return None;
        }
        var value := vars[found.value].value;
        ExpandRefStep(ptr, vars);
        PrefixedAppend(out, value, Expand(ptr[used..], vars));
        out := out + value;
        ptr := ptr[used..];
      } else {
        ExpandCharStep(ptr, vars);
        PrefixedAppend(out, [ptr[0]], Expand(ptr[1..], vars));
        out := out + [ptr[0]];
        ptr := ptr[1..];
      }
    }
    assert out + [] == out;
    r := Some(out);
  }

  /** Expand past one ordinary character. */
  lemma ExpandCharStep(s: string, vars: seq<Variable>)
    requires s != [] && s[0] != '$'
    ensures Expand(s, vars) == Prefixed([s[0]], Expand(s[1..], vars))
  {
  }

  /** Expand past one reference whose name is defined. */
  lemma ExpandRefStep(s: string, vars: seq<Variable>)
    requires s != [] && s[0] == '$' && ExtractVarName(s).Some?
    requires Lookup(vars, ExtractVarName(s).value.0).Some?
    ensures Expand(s, vars) ==
            Prefixed(Lookup(vars, ExtractVarName(s).value.0).value,
                     Expand(s[ExtractVarName(s).value.1..], vars))
  {
  }

  lemma PrefixedEmpty(r: Option<string>)
    ensures Prefixed([], r) == r
  {
    if r.Some? { assert [] + r.value == r.value; }
  }

  lemma PrefixedAppend(a: string, b: string, r: Option<string>)
    ensures Prefixed(a, Prefixed(b, r)) == Prefixed(a + b, r)
  {
    if r.Some? { assert a + (b + r.value) == (a + b) + r.value; }
  }

  // A reference semantics: a line is a sequence of pieces, ordinary
  // characters and references, and expansion substitutes each reference.

  datatype Piece = Char(c: char) | Ref(name: string, braced: bool)

  function RenderPiece(p: Piece): string {
    match p
    case Char(c) => [c]
    case Ref(name, braced) => if braced then "${" + name + "}" else "$" + name
  }

  /** The source text that the pieces stand for. */
  function Render(ps: seq<Piece>): string {
    if ps == [] then [] else RenderPiece(ps[0]) + Render(ps[1..])
  }

  /** An unbraced name may not run on into the next piece, and `$` followed by `{` is braced. */
  predicate Separated(name: string, next: Piece) {
    match next
    case Char(c) => !IsNameChar(c) && (name != [] || c != '{')
    case Ref(_, _) => true
  }

  predicate PieceOk(ps: seq<Piece>, k: nat)
    requires k < |ps|
  {
    match ps[k]
    case Char(c) => c != '$'
    case Ref(name, braced) =>
      (forall m :: 0 <= m < |name| ==> IsNameChar(name[m])) &&
      (!braced && k + 1 < |ps| ==> Separated(name, ps[k + 1]))
  }

  /** Pieces that read back as themselves. */
  predicate WellFormed(ps: seq<Piece>) {
    forall k :: 0 <= k < |ps| ==> PieceOk(ps, k)
  }

  /** The pieces with each reference replaced by its value. */
  function Substitute(ps: seq<Piece>, vars: seq<Variable>): Option<string> {
    if ps == [] then Some([])
    else
      match Substitute(ps[1..], vars)
      case None => None
      case Some(rest) =>
        match ps[0]
        case Char(c) => Some([c] + rest)
        case Ref(name, _) =>
          match Lookup(vars, name)
          case None => None
          case Some(v) => Some(v + rest)
  }

  /** The lexing that replace_variables_mk_line does implicitly. */
  function Scan(line: string): Option<seq<Piece>>
    decreases |line|
  {
    if line == [] then Some([])
    else if line[0] == '$' then
      match ExtractVarName(line)
      case None => None
      case Some((name, used)) =>
        match Scan(line[used..])
        case None => None
        case Some(ps) => Some([Ref(name, IsBraced(line))] + ps)
    else
      match Scan(line[1..])
      case None => None
      case Some(ps) => Some([Char(line[0])] + ps)
  }

  lemma WellFormedTail(ps: seq<Piece>)
    requires ps != [] && WellFormed(ps)
    ensures WellFormed(ps[1..])
  {
    forall k | 0 <= k < |ps| - 1 ensures PieceOk(ps[1..], k) {
      assert PieceOk(ps, k + 1);
    }
  }

  lemma RenderFirst(ps: seq<Piece>)
    requires ps != []
    ensures Render(ps) != []
    ensures Render(ps)[0] == (if ps[0].Char? then ps[0].c else '$')
  {
  }

  /** The name-character run of name + rest stops where the name ends. */
  lemma {:induction false} NameLenOf(name: string, rest: string)
    requires forall m :: 0 <= m < |name| ==> IsNameChar(name[m])
    requires rest == [] || !IsNameChar(rest[0])
    ensures NameLen(name + rest) == |name|
    decreases |name|
  {
    if name == [] {
      assert name + rest == rest;
    } else {
      assert (name + rest)[0] == name[0];
      assert (name + rest)[1..] == name[1..] + rest;
      NameLenOf(name[1..], rest);
    }
  }

  /** extract_var_name on the rendering of a reference finds that reference. */
  lemma ExtractRendered(name: string, braced: bool, rest: string)
    requires forall m :: 0 <= m < |name| ==> IsNameChar(name[m])
    requires !braced ==> rest == [] || (!IsNameChar(rest[0]) && (name != [] || rest[0] != '{'))
    ensures IsBraced(RenderPiece(Ref(name, braced)) + rest) == braced
    ensures ExtractVarName(RenderPiece(Ref(name, braced)) + rest) ==
            Some((name, |RenderPiece(Ref(name, braced))|))
    ensures (RenderPiece(Ref(name, braced)) + rest)[|RenderPiece(Ref(name, braced))|..] == rest
  {
    if braced {
      ExtractBraced(name, rest);
    } else {
      ExtractPlain(name, rest);
    }
  }

  /** `${name}` in front of any text. */
  lemma ExtractBraced(name: string, rest: string)
    requires forall m :: 0 <= m < |name| ==> IsNameChar(name[m])
    ensures var line := "${" + name + "}" + rest;
            IsBraced(line) && ExtractVarName(line) == Some((name, 3 + |name|)) &&
            line[3 + |name|..] == rest
  {
    var line := "${" + name + "}" + rest;
    assert line == "${" + (name + ("}" + rest));
    assert line[2..] == name + ("}" + rest);
    NameLenOf(name, "}" + rest);
    assert line[2..2 + |name|] == name;
  }

  /** `$name` in front of text that does not continue the name. */
  lemma ExtractPlain(name: string, rest: string)
    requires forall m :: 0 <= m < |name| ==> IsNameChar(name[m])
    requires rest == [] || (!IsNameChar(rest[0]) && (name != [] || rest[0] != '{'))
    ensures var line := "$" + name + rest;
            !IsBraced(line) && ExtractVarName(line) == Some((name, 1 + |name|)) &&
            line[1 + |name|..] == rest
  {
    var line := "$" + name + rest;
    var after := name + rest;
    assert line == "$" + after;
    assert line[1..] == after;
    assert !IsBraced(line) by {
      if |line| > 1 {
        assert line[1] == after[0];
        if name != [] { assert after[0] == name[0]; } else { assert after == rest; }
      }
    }
    NameLenOf(name, rest);
    assert after[..|name|] == name;
    assert line[1..1 + |name|] == after[..|name|];
    assert line[1 + |name|..] == after[|name|..] == rest;
  }

  /** Lexing one rendered piece in front of text that lexes. */
  lemma ScanCons(p: Piece, rest: string, tail: seq<Piece>)
    requires Scan(rest) == Some(tail)
    requires p.Char? ==> p.c != '$'
    requires p.Ref? ==> forall m :: 0 <= m < |p.name| ==> IsNameChar(p.name[m])
    requires p.Ref? && !p.braced && rest != [] ==>
               !IsNameChar(rest[0]) && (p.name != [] || rest[0] != '{')
    ensures Scan(RenderPiece(p) + rest) == Some([p] + tail)
  {
    var line := RenderPiece(p) + rest;
    match p {
    case Char(c) =>
      assert line[1..] == rest;
    case Ref(name, braced) =>
      ExtractRendered(name, braced, rest);
      assert line[0] == '$';
    }
  }

  /** Lexing the rendering of well-formed pieces gives the pieces back. */
  lemma {:induction false} ScanRender(ps: seq<Piece>)
    requires WellFormed(ps)
    ensures Scan(Render(ps)) == Some(ps)
    decreases |ps|
  {
    if ps != [] {
      WellFormedTail(ps);
      ScanRender(ps[1..]);
      ScanRenderStep(ps);
    }
  }

  /** The step of ScanRender: the first piece lexes back in front of the others. */
  lemma ScanRenderStep(ps: seq<Piece>)
    requires ps != [] && WellFormed(ps)
    requires Scan(Render(ps[1..])) == Some(ps[1..])
    ensures Scan(Render(ps)) == Some(ps)
  {
    HeadOk(ps);
    ScanCons(ps[0], Render(ps[1..]), ps[1..]);
    assert ps == [ps[0]] + ps[1..];
  }

  /** The first of well-formed pieces, and what follows its rendering. */
  lemma HeadOk(ps: seq<Piece>)
    requires ps != [] && WellFormed(ps)
    ensures ps[0].Char? ==> ps[0].c != '$'
    ensures ps[0].Ref? ==> forall m :: 0 <= m < |ps[0].name| ==> IsNameChar(ps[0].name[m])
    ensures ps[0].Ref? && !ps[0].braced && Render(ps[1..]) != [] ==>
              !IsNameChar(Render(ps[1..])[0]) && (ps[0].name != [] || Render(ps[1..])[0] != '{')
  {
    assert PieceOk(ps, 0);
    if |ps| > 1 {
      RenderFirst(ps[1..]);
      assert ps[1..][0] == ps[1];
    }
  }

  /** A reference that extract_var_name accepts is the rendering of that reference. */
  lemma ExtractedRenders(line: string)
    requires |line| > 0 && line[0] == '$' && ExtractVarName(line).Some?
    ensures var (name, used) := ExtractVarName(line).value;
            line[..used] == RenderPiece(Ref(name, IsBraced(line)))
  {
    var (name, used) := ExtractVarName(line).value;
    if IsBraced(line) {
      assert line[..used] == line[..2] + line[2..used - 1] + [line[used - 1]];
      assert line[..2] == "${";
    } else {
      assert line[..used] == [line[0]] + line[1..used];
    }
  }

  lemma WellFormedCons(p: Piece, tail: seq<Piece>)
    requires WellFormed(tail)
    requires PieceOk([p] + tail, 0)
    ensures WellFormed([p] + tail)
  {
    var ps := [p] + tail;
    forall k | 0 <= k < |ps| ensures PieceOk(ps, k) {
      if k > 0 { assert PieceOk(tail, k - 1); }
    }
  }

  /** What Scan returns renders back to the line, and is well formed. */
  lemma {:induction false} RenderScan(line: string)
    requires Scan(line).Some?
    ensures Render(Scan(line).value) == line
    ensures WellFormed(Scan(line).value)
    decreases |line|
  {
    if line != [] {
      if line[0] == '$' {
        var used := ExtractVarName(line).value.1;
        RenderScan(line[used..]);
        RenderScanRef(line);
      } else {
        RenderScan(line[1..]);
        RenderScanChar(line);
      }
    }
  }

  /** The step of RenderScan at a reference. */
  lemma RenderScanRef(line: string)
    requires line != [] && line[0] == '$' && Scan(line).Some?
    requires var used := ExtractVarName(line).value.1;
             Render(Scan(line[used..]).value) == line[used..] && WellFormed(Scan(line[used..]).value)
    ensures Render(Scan(line).value) == line
    ensures WellFormed(Scan(line).value)
  {
    var (name, used) := ExtractVarName(line).value;
    var tail := Scan(line[used..]).value;
    assert Scan(line).value == [Ref(name, IsBraced(line))] + tail;
    RenderScanRefText(line, name, used, tail);
    RenderScanRefOk(line, name, used, tail);
  }

  lemma RenderScanRefText(line: string, name: string, used: nat, tail: seq<Piece>)
    requires line != [] && line[0] == '$' && ExtractVarName(line) == Some((name, used))
    requires Render(tail) == line[used..]
    ensures Render([Ref(name, IsBraced(line))] + tail) == line
  {
    ExtractedRenders(line);
    assert ([Ref(name, IsBraced(line))] + tail)[1..] == tail;
    assert line == line[..used] + line[used..];
  }

  lemma RenderScanRefOk(line: string, name: string, used: nat, tail: seq<Piece>)
    requires line != [] && line[0] == '$' && ExtractVarName(line) == Some((name, used))
    requires Render(tail) == line[used..] && WellFormed(tail)
    ensures WellFormed([Ref(name, IsBraced(line))] + tail)
  {
    if !IsBraced(line) && tail != [] {
      RenderFirst(tail);
      assert Separated(name, tail[0]);
    }
    WellFormedCons(Ref(name, IsBraced(line)), tail);
  }

  /** The step of RenderScan at an ordinary character. */
  lemma RenderScanChar(line: string)
    requires line != [] && line[0] != '$' && Scan(line).Some?
    requires Render(Scan(line[1..]).value) == line[1..] && WellFormed(Scan(line[1..]).value)
    ensures Render(Scan(line).value) == line
    ensures WellFormed(Scan(line).value)
  {
    var tail := Scan(line[1..]).value;
    assert Scan(line).value == [Char(line[0])] + tail;
    assert line == [line[0]] + line[1..];
    WellFormedCons(Char(line[0]), tail);
  }

  /** Expansion is lexing followed by substitution; a failed lexing fails the expansion. */
  lemma {:induction false} ExpandIsSubstitution(line: string, vars: seq<Variable>)
    ensures Expand(line, vars) == match Scan(line)
                                  case None => None
                                  case Some(ps) => Substitute(ps, vars)
    decreases |line|
  {
    if line != [] {
      if line[0] == '$' {
        match ExtractVarName(line)
        case None =>
        case Some((name, used)) =>
          ExpandIsSubstitution(line[used..], vars);
          match Scan(line[used..])
          case None =>
          case Some(ps) =>
            assert ([Ref(name, IsBraced(line))] + ps)[1..] == ps;
      } else {
        ExpandIsSubstitution(line[1..], vars);
        match Scan(line[1..])
        case None =>
        case Some(ps) =>
          assert ([Char(line[0])] + ps)[1..] == ps;
      }
    }
  }

  /**
   * The expansion of a line written as pieces: its ordinary characters in
   * order, each reference replaced by the value of the first entry with that name.
   */
  lemma ExpandRender(ps: seq<Piece>, vars: seq<Variable>)
    requires WellFormed(ps)
    ensures Expand(Render(ps), vars) == Substitute(ps, vars)
  {
    ScanRender(ps);
    ExpandIsSubstitution(Render(ps), vars);
  }

  /** Substitution fails exactly when some reference names no entry. */
  lemma {:induction false} SubstituteFails(ps: seq<Piece>, vars: seq<Variable>)
    ensures Substitute(ps, vars).None? <==>
            exists k :: 0 <= k < |ps| && ps[k].Ref? && Lookup(vars, ps[k].name).None?
    decreases |ps|
  {
    if ps != [] {
      SubstituteFails(ps[1..], vars);
      if Substitute(ps, vars).None? && !(ps[0].Ref? && Lookup(vars, ps[0].name).None?) {
        var k :| 0 <= k < |ps[1..]| && ps[1..][k].Ref? && Lookup(vars, ps[1..][k].name).None?;
        assert ps[k + 1] == ps[1..][k];
      }
      if exists k :: 0 <= k < |ps| && ps[k].Ref? && Lookup(vars, ps[k].name).None? {
        var k :| 0 <= k < |ps| && ps[k].Ref? && Lookup(vars, ps[k].name).None?;
        if k > 0 {
          assert ps[1..][k - 1] == ps[k];
        }
      }
    }
  }

  /**
   * A `${` whose name is not followed by `}` makes the whole expansion fail,
   * wherever it stands: the scan reaches it, because no reference reaches
   * past the next `$`.
   */
  lemma UnclosedBraceFails(prefix: string, name: string, rest: string, vars: seq<Variable>)
    requires Unclosed(name, rest)
    ensures Expand(prefix + "${" + name + rest, vars) == None
  {
    var tail := "${" + name + rest;
    assert prefix + "${" + name + rest == prefix + tail;
    ExtractFails(tail);
    FailureAtDollar(prefix, tail, vars);
  }

  /**
   * A failure at a `$` is a failure of the whole line: whatever comes before
   * it, the scan stops at that `$`.
   */
  lemma {:induction false} FailureAtDollar(prefix: string, tail: string, vars: seq<Variable>)
    requires |tail| > 0 && tail[0] == '$' && Expand(tail, vars) == None
    ensures Expand(prefix + tail, vars) == None
    decreases |prefix|
  {
    var line := prefix + tail;
    if prefix == [] {
      assert line == tail;
    } else if prefix[0] != '$' {
      assert line[0] == prefix[0];
      assert line[1..] == prefix[1..] + tail;
      FailureAtDollar(prefix[1..], tail, vars);
      ExpandCharStep(line, vars);
    } else if ExtractVarName(line).Some? && Lookup(vars, ExtractVarName(line).value.0).Some? {
      var used := ExtractVarName(line).value.1;
      ExtractStopsAtDollar(prefix, tail);
      assert line[used..] == prefix[used..] + tail;
      FailureAtDollar(prefix[used..], tail, vars);
      ExpandRefStep(line, vars);
    }
  }

  /** A reference that starts inside prefix ends before the `$` that follows it. */
  lemma ExtractStopsAtDollar(prefix: string, tail: string)
    requires |prefix| > 0 && prefix[0] == '$' && |tail| > 0 && tail[0] == '$'
    requires ExtractVarName(prefix + tail).Some?
    ensures ExtractVarName(prefix + tail).value.1 <= |prefix|
  {
    var s := prefix + tail;
    ExtractShape(s);
    assert s[|prefix|] == '$';
  }

  /**
   * A reference on its own expands to the value of the first entry with its
   * name, verbatim: a '$' inside the value is not expanded again.
   */
  lemma SingleReference(name: string, braced: bool, vars: seq<Variable>)
    requires forall m :: 0 <= m < |name| ==> IsNameChar(name[m])
    ensures Expand(RenderPiece(Ref(name, braced)), vars) == Lookup(vars, name)
  {
    var ps := [Ref(name, braced)];
    assert PieceOk(ps, 0);
    assert Render(ps) == RenderPiece(Ref(name, braced)) + [];
    assert RenderPiece(Ref(name, braced)) + [] == RenderPiece(Ref(name, braced));
    ExpandRender(ps, vars);
    if Lookup(vars, name).Some? {
      assert Lookup(vars, name).value + [] == Lookup(vars, name).value;
    }
  }

  /** With A = "$B" and B = "x", `$A` becomes "$B", not "x". */
  lemma ValuesNotRescanned()
    ensures Expand("$A", [Variable("A", "$B"), Variable("B", "x")]) == Some("$B")
  {
    var vars := [Variable("A", "$B"), Variable("B", "x")];
    assert IsNameChar('A');
    SingleReference("A", false, vars);
    assert RenderPiece(Ref("A", false)) == "$A";
    assert FindVariable(vars, "A") == Some(0);
  }

  /** `$` followed by a character that cannot start a name looks up the empty name. */
  lemma EmptyNameLookedUp(rest: string, vars: seq<Variable>)
    requires rest == [] || (!IsNameChar(rest[0]) && rest[0] != '{')
    ensures Lookup(vars, []).None? ==> Expand("$" + rest, vars) == None
    ensures Lookup(vars, []).Some? ==>
              Expand("$" + rest, vars) == Prefixed(Lookup(vars, []).value, Expand(rest, vars))
  {
    ExtractPlain([], rest);
    assert "$" + [] + rest == "$" + rest;
  }

  /** No value in the list contains a '$'. */
  predicate DollarFreeValues(vars: seq<Variable>) {
    forall j :: 0 <= j < |vars| ==> '$' !in vars[j].value
  }

  /** When no value holds a '$', an expanded line holds none either. */
  lemma {:induction false} ExpandDollarFree(line: string, vars: seq<Variable>)
    requires DollarFreeValues(vars) && Expand(line, vars).Some?
    ensures '$' !in Expand(line, vars).value
    decreases |line|
  {
    if line != [] {
      if line[0] == '$' {
        var (name, used) := ExtractVarName(line).value;
        ExpandDollarFree(line[used..], vars);
        var k := FindVariable(vars, name).value;
        assert Expand(line, vars).value == vars[k].value + Expand(line[used..], vars).value;
      } else {
        ExpandDollarFree(line[1..], vars);
        assert Expand(line, vars).value == [line[0]] + Expand(line[1..], vars).value;
      }
    }
  }
}

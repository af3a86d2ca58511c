/** `${name}` interpolation and the two-pass inheritance of settings (`truefix-config/src/lib.rs`). */
module Settings {
  import opened Decimal
  import opened Graphs

  type Section = map<string, string>

  /** A variable looked up outside the settings. */
  type Environment = string -> Option<string>

  datatype ConfigError =
    | UnresolvedVariable(name: string)
    | CircularVariableReference(name: string)
    | Malformed(text: string)

  datatype Result<+T> = Ok(value: T) | Err(error: ConfigError)

  // ----- templates

  function FindChar(s: string, c: char): (r: Option<nat>)
    ensures r.Some? ==> r.value < |s| && s[r.value] == c && c !in s[..r.value]
    ensures r.None? ==> c !in s
  {
    if s == [] then None
    else if s[0] == c then Some(0)
    else match FindChar(s[1..], c)
      case None => None
      case Some(i) =>
        assert s[..i + 1] == [s[0]] + s[1..][..i];
        Some(i + 1)
  }

  /** Where the first `${` stands. */
  function FindOpen(s: string): (r: Option<nat>)
    ensures r.Some? ==> r.value + 2 <= |s|
  {
    if |s| < 2 then None
    else if s[0] == '$' && s[1] == '{' then Some(0)
    else match FindOpen(s[1..]) case None => None case Some(i) => Some(i + 1)
  }

  /** `${` stands at `i`. */
  predicate OpensAt(s: string, i: int) {
    0 <= i < |s| - 1 && s[i] == '$' && s[i + 1] == '{'
  }

  /** No reference is opened in the text. */
  ghost predicate Plain(s: string) {
    forall i :: 0 <= i < |s| - 1 ==> !OpensAt(s, i)
  }

  lemma {:induction false} FindOpenIsFirst(s: string)
    ensures FindOpen(s).None? <==> Plain(s)
    ensures FindOpen(s).Some? ==> OpensAt(s, FindOpen(s).value) && forall j :: 0 <= j < FindOpen(s).value ==> !OpensAt(s, j)
  {
    if |s| >= 2 {
      var rest := s[1..];
      FindOpenIsFirst(rest);
      forall j | 0 <= j < |rest| ensures OpensAt(rest, j) <==> OpensAt(s, j + 1) {
      }
      if Plain(rest) && !OpensAt(s, 0) {
        forall j | 0 <= j < |s| - 1 ensures !OpensAt(s, j) {
          if j > 0 { assert !OpensAt(rest, j - 1); }
        }
      }
      if Plain(s) {
        forall j | 0 <= j < |rest| - 1 ensures !OpensAt(rest, j) {
          assert !OpensAt(s, j + 1);
        }
      }
      if FindOpen(s).Some? {
        forall j | 0 <= j < FindOpen(s).value ensures !OpensAt(s, j) {
          if j > 0 { assert !OpensAt(rest, j - 1); }
        }
      }
    }
  }

  datatype Template =
    | Literal
    | Unclosed(tail: string)
    | Reference(before: string, name: string, rest: string)

  /** A text up to and including its first reference. */
  function NextRef(s: string): (t: Template)
    ensures t.Reference? ==> |t.rest| < |s|
  {
    match FindOpen(s)
    case None => Literal
    case Some(start) =>
      var after := s[start + 2..];
      match FindChar(after, '}')
      case None => Unclosed(after)
      case Some(end) => Reference(s[..start], after[..end], after[end + 1..])
  }

  /** A reference opened at `i` and nowhere before. */
  lemma FirstOpen(s: string, i: nat)
    requires OpensAt(s, i) && forall j :: 0 <= j < i ==> !OpensAt(s, j)
    ensures FindOpen(s) == Some(i)
  {
    FindOpenIsFirst(s);
  }

  lemma SplitAtOpen(s: string, i: nat)
    requires OpensAt(s, i)
    ensures s == s[..i] + ("${" + s[i + 2..])
  {
  }

  lemma JoinClosed(before: string, after: string, end: nat)
    requires end < |after| && after[end] == '}'
    ensures before + ("${" + after) == before + ("${" + after[..end] + "}" + after[end + 1..])
  {
    assert after == after[..end] + "}" + after[end + 1..];
  }

  lemma FirstClose(name: string, rest: string)
    requires '}' !in name
    ensures FindChar(name + "}" + rest, '}') == Some(|name|)
  {
    var s := name + "}" + rest;
    hide FindChar;
    assert s[|name|] == '}' && s[..|name|] == name;
  }

  /** How a text is cut: at its first `${` and the first `}` after that, nothing added and nothing lost. */
  lemma NextRefCuts(s: string)
    ensures NextRef(s).Literal? <==> Plain(s)
    ensures NextRef(s).Reference? ==>
              var t := NextRef(s);
              && s == t.before + ("${" + t.name + "}" + t.rest)
              && '}' !in t.name && forall j :: 0 <= j < |t.before| ==> !OpensAt(s, j)
    ensures NextRef(s).Unclosed? ==>
              var tail := NextRef(s).tail;
              && |tail| + 2 <= |s| && s == s[..|s| - |tail| - 2] + ("${" + tail)
              && '}' !in tail && forall j :: 0 <= j < |s| - |tail| - 2 ==> !OpensAt(s, j)
  {
    FindOpenIsFirst(s);
    hide FindOpen;
    hide FindChar;
    hide Plain;
    match FindOpen(s)
    case None =>
    case Some(start) =>
      hide OpensAt;
      var after := s[start + 2..];
      SplitAtOpen(s, start);
      match FindChar(after, '}')
      case None => assert s[..|s| - |after| - 2] == s[..start];
      case Some(end) => JoinClosed(s[..start], after, end);
  }

  lemma PlainBefore(before: string, after: string)
    requires Plain(before)
    ensures forall j :: 0 <= j < |before| ==> !OpensAt(before + ("${" + after), j)
    ensures OpensAt(before + ("${" + after), |before|)
  {
    var s := before + ("${" + after);
    forall j | 0 <= j < |before| ensures !OpensAt(s, j) {
      if j < |before| - 1 {
        assert !OpensAt(before, j) && s[j] == before[j] && s[j + 1] == before[j + 1];
      } else {
        assert s[j + 1] == '$';
      }
    }
  }

  /** And a text so put together is cut where it was joined. */
  lemma NextRefOf(before: string, name: string, rest: string)
    requires Plain(before) && '}' !in name
    ensures NextRef(before + ("${" + name + "}" + rest)) == Reference(before, name, rest)
  {
    hide Plain;
    var after := name + "}" + rest;
    var s := before + ("${" + name + "}" + rest);
    assert s == before + ("${" + after);
    PlainBefore(before, after);
    FirstOpen(s, |before|);
    assert s[..|before|] == before && s[|before| + 2..] == after;
    FirstClose(name, rest);
    assert after[..|name|] == name && after[|name| + 1..] == rest;
  }

  lemma NextRefOfUnclosed(before: string, tail: string)
    requires Plain(before) && '}' !in tail
    ensures NextRef(before + ("${" + tail)) == Unclosed(tail)
  {
    hide Plain;
    var s := before + ("${" + tail);
    PlainBefore(before, tail);
    FirstOpen(s, |before|);
    assert s[|before| + 2..] == tail;
  }

  /** The names a text refers to, in order. */
  function RefNames(s: string): (r: seq<string>)
    decreases |s|
  {
    match NextRef(s)
    case Reference(_, name, rest) => [name] + RefNames(rest)
    case _ => []
  }

  /** Every `${` of the text has its `}`. */
  predicate ClosedText(s: string)
    decreases |s|
  {
    match NextRef(s)
    case Literal => true
    case Unclosed(_) => false
    case Reference(_, _, rest) => ClosedText(rest)
  }

  // ----- interpolation

  /** The text with its references resolved; `resolving` holds the names being expanded. */
  function Interpolate(value: string, lookup: Section, env: Environment, resolving: set<string>): (r: Result<string>)
    requires resolving <= lookup.Keys
    decreases lookup.Keys - resolving, |value|
  {
    match NextRef(value)
    case Literal => Ok(value)
    case Unclosed(tail) => Err(UnresolvedVariable(tail))
    case Reference(before, name, rest) =>
      if name in resolving then Err(CircularVariableReference(name))
      else match Replacement(name, lookup, env, resolving)
        case Err(e) => Err(e)
        case Ok(replacement) =>
          match Interpolate(rest, lookup, env, resolving)
          case Err(e) => Err(e)
          case Ok(tail) => Ok(before + replacement + tail)
  }

  function Replacement(name: string, lookup: Section, env: Environment, resolving: set<string>): (r: Result<string>)
    requires resolving <= lookup.Keys && name !in resolving
    decreases lookup.Keys - resolving, 0
  {
    if name in lookup then Interpolate(lookup[name], lookup, env, resolving + {name})
    else match env(name) case Some(v) => Ok(v) case None => Err(UnresolvedVariable(name))
  }

  function Names(stack: seq<string>): (s: set<string>) {
    set n | n in stack
  }

  lemma PushedNames(stack: seq<string>, name: string)
    ensures Names(stack + [name]) == Names(stack) + {name}
  {
  }

  /** The interpolator with its stack of names being resolved. */
  class Interpolator {
    const lookup: Section
    const env: Environment
    var resolving: seq<string>

    constructor (lookup: Section, env: Environment)
      ensures this.lookup == lookup && this.env == env && resolving == []
    {
      this.lookup, this.env, resolving := lookup, env, [];
    }

    /** Ends on every settings map, and leaves the stack as it found it, failing or not. */
    method InterpolateValue(value: string) returns (r: Result<string>)
      requires Names(resolving) <= lookup.Keys
      modifies this
      ensures r == Interpolate(value, lookup, env, Names(old(resolving)))
      ensures resolving == old(resolving)
      decreases lookup.Keys - Names(resolving), |value|
    {
      ghost var names := Names(resolving);
      var result, rest := "", value;
      while NextRef(rest).Reference?
        invariant resolving == old(resolving) && |rest| <= |value|
        invariant Interpolate(value, lookup, env, names) == Prefixed(result, Interpolate(rest, lookup, env, names))
        decreases |rest|
      {
        var Reference(before, name, after) := NextRef(rest);
        if name in resolving {
          assert name in names;
          return Err(CircularVariableReference(name));
        }
        var replacement: string;
        if name in lookup {
          resolving := resolving + [name];
          PushedNames(resolving[..|resolving| - 1], name);
          var resolved := InterpolateValue(lookup[name]);
          resolving := resolving[..|resolving| - 1];
          if resolved.Err? {
            return resolved;
          }
          replacement := resolved.value;
        } else {
          var found := env(name);
          if found.None? {
            return Err(UnresolvedVariable(name));
          }
          replacement := found.value;
        }
        PrefixedTwice(result, before + replacement, Interpolate(after, lookup, env, names));
        result, rest := result + (before + replacement), after;
      }
      if NextRef(rest).Unclosed? {
        return Err(UnresolvedVariable(NextRef(rest).tail));
      }
      r := Ok(result + rest);
    }
  }

  /** What a loop that has produced `result` gives once the rest is known. */
  function Prefixed(result: string, rest: Result<string>): (r: Result<string>)
    ensures result == "" ==> r == rest
  {
    match rest
    case Err(e) => Err(e)
    case Ok(tail) =>
      assert result == "" ==> result + tail == tail;
      Ok(result + tail)
  }

  lemma PrefixedTwice(result: string, more: string, rest: Result<string>)
    ensures Prefixed(result, Prefixed(more, rest)) == Prefixed(result + more, rest)
  {
    if rest.Ok? { assert result + (more + rest.value) == result + more + rest.value; }
  }

  // ----- reference: substitution by plain recursion

  /** Substitution down to `depth` levels of reference. */
  function Substitute(value: string, lookup: Section, env: Environment, depth: nat): (r: Option<string>)
    decreases depth, |value|
  {
    match NextRef(value)
    case Literal => Some(value)
    case Unclosed(_) => None
    case Reference(before, name, rest) =>
      var replacement := if name in lookup then
                           if depth == 0 then None else Substitute(lookup[name], lookup, env, depth - 1)
                         else env(name);
      var tail := Substitute(rest, lookup, env, depth);
      if replacement.None? || tail.None? then None else Some(before + replacement.value + tail.value)
  }

  lemma {:induction false} SubstituteMonotone(value: string, lookup: Section, env: Environment, depth: nat, more: nat)
    requires depth <= more && Substitute(value, lookup, env, depth).Some?
    ensures Substitute(value, lookup, env, more) == Substitute(value, lookup, env, depth)
    decreases depth, |value|
  {
    hide NextRef;
    match NextRef(value)
    case Reference(before, name, rest) =>
      if name in lookup {
        SubstituteMonotone(lookup[name], lookup, env, depth - 1, more - 1);
      }
      SubstituteMonotone(rest, lookup, env, depth, more);
    case _ =>
  }

  /** What interpolation gives is what plain substitution gives. */
  lemma {:induction false} InterpolateIsSubstitution(
    value: string, lookup: Section, env: Environment, resolving: set<string>) returns (depth: nat)
    requires resolving <= lookup.Keys && Interpolate(value, lookup, env, resolving).Ok?
    ensures Substitute(value, lookup, env, depth) == Some(Interpolate(value, lookup, env, resolving).value)
    decreases lookup.Keys - resolving, |value|
  {
    hide NextRef;
    depth := 0;
    match NextRef(value)
    case Reference(before, name, rest) =>
      var first := 0;
      if name in lookup {
        var inner := InterpolateIsSubstitution(lookup[name], lookup, env, resolving + {name});
        first := inner + 1;
      }
      var second := InterpolateIsSubstitution(rest, lookup, env, resolving);
      depth := first + second;
      SubstituteMonotone(rest, lookup, env, second, depth);
      if name in lookup {
        SubstituteMonotone(lookup[name], lookup, env, first - 1, depth - 1);
      }
    case _ =>
  }

  // ----- texts as pieces

  /** A reference with the literal text before it. */
  datatype Piece = Piece(before: string, name: string)

  /** The text the pieces make, with `last` behind them. */
  function Joined(pieces: seq<Piece>, last: string): (s: string) {
    if pieces == [] then last else pieces[0].before + ("${" + pieces[0].name + "}" + Joined(pieces[1..], last))
  }

  ghost predicate WellCut(pieces: seq<Piece>) {
    forall i :: 0 <= i < |pieces| ==> Plain(pieces[i].before) && '}' !in pieces[i].name
  }

  /** What a text ends in: nothing to resolve, or a reference that is never closed. */
  ghost predicate Ends(last: string) {
    Plain(last) || exists before, tail :: Unfinished(last, before, tail)
  }

  ghost predicate Unfinished(last: string, before: string, tail: string) {
    Plain(before) && '}' !in tail && last == before + ("${" + tail)
  }

  /** Every text is cut into pieces, and in one way only. */
  lemma {:induction false} CutIntoPieces(s: string) returns (pieces: seq<Piece>, last: string)
    ensures WellCut(pieces) && Ends(last) && s == Joined(pieces, last)
    decreases |s|
  {
    hide NextRef;
    NextRefCuts(s);
    var t := NextRef(s);
    if t.Reference? {
      var more, end := CutIntoPieces(t.rest);
      pieces, last := [Piece(t.before, t.name)] + more, end;
      assert pieces[1..] == more;
      BeforeIsPlain(s, |t.before|);
      assert s[..|t.before|] == t.before;
    } else {
      pieces, last := [], s;
      if t.Unclosed? {
        var k := |s| - |t.tail| - 2;
        BeforeIsPlain(s, k);
        assert Unfinished(s, s[..k], t.tail);
      }
    }
  }

  lemma BeforeIsPlain(s: string, k: nat)
    requires k <= |s| && forall j :: 0 <= j < k ==> !OpensAt(s, j)
    ensures Plain(s[..k])
  {
    forall i | 0 <= i < k - 1 ensures !OpensAt(s[..k], i) {
      assert !OpensAt(s, i);
    }
  }

  lemma JoinedStep(pieces: seq<Piece>, last: string)
    requires WellCut(pieces) && pieces != []
    ensures NextRef(Joined(pieces, last)) == Reference(pieces[0].before, pieces[0].name, Joined(pieces[1..], last))
    ensures WellCut(pieces[1..])
  {
    hide Plain;
    hide NextRef;
    NextRefOf(pieces[0].before, pieces[0].name, Joined(pieces[1..], last));
  }

  lemma LastStep(last: string)
    requires Ends(last)
    ensures Plain(last) <==> NextRef(last).Literal?
    ensures forall before, tail :: Unfinished(last, before, tail) ==> NextRef(last) == Unclosed(tail)
    ensures NextRef(last).Literal? || NextRef(last).Unclosed?
  {
    hide NextRef;
    hide Plain;
    NextRefCuts(last);
    forall before, tail | Unfinished(last, before, tail) ensures NextRef(last) == Unclosed(tail) {
      NextRefOfUnclosed(before, tail);
    }
  }

  lemma {:induction false} PiecesUnique(pieces: seq<Piece>, last: string, pieces': seq<Piece>, last': string)
    requires WellCut(pieces) && Ends(last) && WellCut(pieces') && Ends(last') && Joined(pieces, last) == Joined(pieces', last')
    ensures pieces == pieces' && last == last'
  {
    hide NextRef;
    hide Plain;
    if pieces != [] { JoinedStep(pieces, last); } else { LastStep(last); }
    if pieces' != [] { JoinedStep(pieces', last'); } else { LastStep(last'); }
    if pieces != [] && pieces' != [] {
      PiecesUnique(pieces[1..], last, pieces'[1..], last');
      assert pieces == [pieces[0]] + pieces[1..] && pieces' == [pieces'[0]] + pieces'[1..];
    }
  }

  /** What the pieces become when each name has its replacement: the first that has none decides. */
  function Filled(pieces: seq<Piece>, last: Result<string>, lookup: Section, env: Environment, resolving: set<string>):
    (r: Result<string>)
    requires resolving <= lookup.Keys
  {
    if pieces == [] then last
    else if pieces[0].name in resolving then Err(CircularVariableReference(pieces[0].name))
    else
      var replacement, rest := Replacement(pieces[0].name, lookup, env, resolving), Filled(pieces[1..], last, lookup, env, resolving);
      if replacement.Err? then replacement else if rest.Err? then rest else Ok(pieces[0].before + replacement.value + rest.value)
  }

  /** Interpolation of any text, by its pieces: literal text stays, each reference becomes its replacement, and a
      reference never closed is reported by what follows its opening. */
  lemma {:induction false} InterpolatePieces(
    pieces: seq<Piece>, last: string, lookup: Section, env: Environment, resolving: set<string>)
    requires WellCut(pieces) && Ends(last) && resolving <= lookup.Keys
    ensures Plain(last) ==>
              Interpolate(Joined(pieces, last), lookup, env, resolving) == Filled(pieces, Ok(last), lookup, env, resolving)
    ensures forall before, tail :: Unfinished(last, before, tail) ==>
              Interpolate(Joined(pieces, last), lookup, env, resolving)
              == Filled(pieces, Err(UnresolvedVariable(tail)), lookup, env, resolving)
  {
    hide NextRef;
    hide Plain;
    if pieces == [] {
      LastStep(last);
    } else {
      JoinedStep(pieces, last);
      InterpolatePieces(pieces[1..], last, lookup, env, resolving);
    }
  }

  /** The names referred to are the pieces'. */
  lemma {:induction false} RefNamesOfPieces(pieces: seq<Piece>, last: string)
    requires WellCut(pieces) && Ends(last)
    ensures |RefNames(Joined(pieces, last))| == |pieces|
    ensures forall i :: 0 <= i < |pieces| ==> RefNames(Joined(pieces, last))[i] == pieces[i].name
    ensures ClosedText(Joined(pieces, last)) <==> Plain(last)
  {
    hide NextRef;
    hide Plain;
    if pieces == [] {
      LastStep(last);
    } else {
      JoinedStep(pieces, last);
      RefNamesOfPieces(pieces[1..], last);
    }
  }

  // ----- when interpolation succeeds

  /** From a key to the names its text refers to. */
  function VarGraph(lookup: Section): (g: Graph<string>) {
    map k | k in lookup :: RefNames(lookup[k])
  }

  /** All references of the text are closed and name something. */
  ghost predicate Sound(value: string, lookup: Section, env: Environment) {
    ClosedText(value) && forall n :: n in RefNames(value) ==> n in lookup || env(n).Some?
  }

  ghost predicate ReachedFrom(value: string, lookup: Section, k: string) {
    k in lookup && exists n :: n in RefNames(value) && (n == k || Reaches(VarGraph(lookup), n, k))
  }

  /** The text and every text reached from it are sound, and no key reached refers back to itself. */
  ghost predicate AllSound(value: string, lookup: Section, env: Environment) {
    && Sound(value, lookup, env)
    && forall k :: ReachedFrom(value, lookup, k) ==> Sound(lookup[k], lookup, env) && !Reaches(VarGraph(lookup), k, k)
  }

  /** Every name being resolved leads to every reference of the text at hand. */
  ghost predicate LeadsTo(lookup: Section, resolving: set<string>, value: string) {
    forall x, n :: x in resolving && n in RefNames(value) ==> Reaches(VarGraph(lookup), x, n)
  }

  lemma RestSound(value: string, lookup: Section, env: Environment)
    requires NextRef(value).Reference? && AllSound(value, lookup, env)
    ensures AllSound(NextRef(value).rest, lookup, env)
    ensures NextRef(value).name in lookup ==> AllSound(lookup[NextRef(value).name], lookup, env)
  {
    var Reference(before, name, rest) := NextRef(value);
    assert RefNames(value) == [name] + RefNames(rest);
    assert forall n :: n in RefNames(rest) ==> n in RefNames(value);
    assert name in RefNames(value) by { assert RefNames(value)[0] == name; }
    forall k | ReachedFrom(rest, lookup, k) ensures ReachedFrom(value, lookup, k) {
    }
    if name in lookup {
      assert ReachedFrom(value, lookup, name);
      forall k | ReachedFrom(lookup[name], lookup, k) ensures ReachedFrom(value, lookup, k) {
        var n :| n in RefNames(lookup[name]) && (n == k || Reaches(VarGraph(lookup), n, k));
        EdgeReaches(VarGraph(lookup), name, n);
        if n != k { ReachesTransitive(VarGraph(lookup), name, n, k); }
      }
    }
  }

  lemma DeeperLeadsTo(lookup: Section, resolving: set<string>, value: string)
    requires NextRef(value).Reference? && LeadsTo(lookup, resolving, value)
    ensures LeadsTo(lookup, resolving, NextRef(value).rest)
    ensures var name := NextRef(value).name;
            name in lookup ==> LeadsTo(lookup, resolving + {name}, lookup[name])
  {
    var Reference(before, name, rest) := NextRef(value);
    assert RefNames(value)[0] == name;
    assert forall n :: n in RefNames(rest) ==> n in RefNames(value);
    if name in lookup {
      forall x, n | x in resolving + {name} && n in RefNames(lookup[name]) ensures Reaches(VarGraph(lookup), x, n) {
        EdgeReaches(VarGraph(lookup), name, n);
        if x != name { ReachesTransitive(VarGraph(lookup), x, name, n); }
      }
    }
  }

  lemma {:induction false} SoundSucceeds(value: string, lookup: Section, env: Environment, resolving: set<string>)
    requires resolving <= lookup.Keys && LeadsTo(lookup, resolving, value) && AllSound(value, lookup, env)
    ensures Interpolate(value, lookup, env, resolving).Ok?
    decreases lookup.Keys - resolving, |value|
  {
    match NextRef(value)
    case Reference(before, name, rest) =>
      RestSound(value, lookup, env);
      DeeperLeadsTo(lookup, resolving, value);
      assert name in RefNames(value) by { assert RefNames(value)[0] == name; }
      if name in lookup {
        assert ReachedFrom(value, lookup, name);
        assert name !in resolving;
        SoundSucceeds(lookup[name], lookup, env, resolving + {name});
      }
      SoundSucceeds(rest, lookup, env, resolving);
    case _ =>
  }

  lemma {:induction false} SubstituteDescends(value: string, lookup: Section, env: Environment, depth: nat, n: string)
    requires Substitute(value, lookup, env, depth).Some? && n in RefNames(value)
    ensures if n in lookup then depth > 0 && Substitute(lookup[n], lookup, env, depth - 1).Some? else env(n).Some?
    decreases |value|
  {
    var Reference(before, name, rest) := NextRef(value);
    if n != name {
      SubstituteDescends(rest, lookup, env, depth, n);
    }
  }

  lemma {:induction false} SubstituteClosed(value: string, lookup: Section, env: Environment, depth: nat)
    requires Substitute(value, lookup, env, depth).Some?
    ensures ClosedText(value)
    decreases |value|
  {
    if NextRef(value).Reference? { SubstituteClosed(NextRef(value).rest, lookup, env, depth); }
  }

  /** A substitution is deeper than every path of references it follows, and reaches a sound text. */
  lemma {:induction false} SubstitutePath(lookup: Section, env: Environment, p: seq<string>, depth: nat)
    requires Path(VarGraph(lookup), p) && p[0] in lookup && p[|p| - 1] in lookup
    requires Substitute(lookup[p[0]], lookup, env, depth).Some?
    ensures |p| <= depth + 1 && Substitute(lookup[p[|p| - 1]], lookup, env, depth + 1 - |p|).Some?
    decreases |p|
  {
    hide Substitute;
    hide RefNames;
    if |p| > 1 {
      assert Edge(VarGraph(lookup), p[0], p[1]);
      SubstituteDescends(lookup[p[0]], lookup, env, depth, p[1]);
      if |p| > 2 { assert Edge(VarGraph(lookup), p[1], p[2]); }
      var q := p[1..];
      forall i | 0 <= i < |q| - 1 ensures Edge(VarGraph(lookup), q[i], q[i + 1]) {
        assert Edge(VarGraph(lookup), p[i + 1], p[i + 2]);
      }
      SubstitutePath(lookup, env, q, depth - 1);
    }
  }

  lemma SubstituteSound(value: string, lookup: Section, env: Environment, depth: nat)
    requires Substitute(value, lookup, env, depth).Some?
    ensures Sound(value, lookup, env)
  {
    SubstituteClosed(value, lookup, env, depth);
    forall n | n in RefNames(value) ensures n in lookup || env(n).Some? {
      SubstituteDescends(value, lookup, env, depth, n);
    }
  }

  lemma ReachedSound(value: string, lookup: Section, env: Environment, depth: nat, k: string)
    requires Substitute(value, lookup, env, depth).Some? && ReachedFrom(value, lookup, k)
    ensures Sound(lookup[k], lookup, env) && !Reaches(VarGraph(lookup), k, k)
  {
    hide Substitute;
    hide RefNames;
    hide ClosedText;
    var g := VarGraph(lookup);
    var n :| n in RefNames(value) && (n == k || Reaches(g, n, k));
    SubstituteDescends(value, lookup, env, depth, n);
    var p := [k];
    if n != k {
      p :| |p| > 1 && PathFrom(g, p, n, k);
      assert Edge(g, p[0], p[1]);
    }
    SubstitutePath(lookup, env, p, depth - 1);
    var left := depth - |p|;
    SubstituteSound(lookup[k], lookup, env, left);
    if Reaches(g, k, k) {
      var round := CycleUnrolls(g, k, left + 1);
      SubstitutePath(lookup, env, round, left);
    }
  }

  /** Interpolation succeeds exactly when the text and all texts reached from it are closed and resolvable
      and no key reached refers back to itself; and then it is plain substitution. */
  lemma InterpolateSucceedsWhen(value: string, lookup: Section, env: Environment)
    ensures Interpolate(value, lookup, env, {}).Ok? <==> AllSound(value, lookup, env)
    ensures Interpolate(value, lookup, env, {}).Ok? ==>
              exists depth :: Substitute(value, lookup, env, depth) == Some(Interpolate(value, lookup, env, {}).value)
  {
    if AllSound(value, lookup, env) {
      SoundSucceeds(value, lookup, env, {});
    }
    if Interpolate(value, lookup, env, {}).Ok? {
      var depth := InterpolateIsSubstitution(value, lookup, env, {});
      SubstituteSound(value, lookup, env, depth);
      forall k | ReachedFrom(value, lookup, k)
        ensures Sound(lookup[k], lookup, env) && !Reaches(VarGraph(lookup), k, k)
      {
        ReachedSound(value, lookup, env, depth, k);
      }
    }
  }

  // ----- what a failure says

  /** A name that stands in the text, or in a text reached from it. */
  ghost predicate Mentions(value: string, lookup: Section, n: string) {
    n in RefNames(value) || exists k :: ReachedFrom(value, lookup, k) && n in RefNames(lookup[k])
  }

  /** An unresolved name is mentioned and stands for nothing, or is the text of a reference never closed; a circular
      one is mentioned and is being resolved, or leads back to itself. */
  ghost predicate Blames(value: string, lookup: Section, env: Environment, resolving: set<string>, e: ConfigError) {
    match e
    case UnresolvedVariable(n) =>
      || (n !in lookup && env(n).None? && Mentions(value, lookup, n))
      || LeftOpen(value, n)
      || (exists k :: ReachedFrom(value, lookup, k) && LeftOpen(lookup[k], n))
    case CircularVariableReference(n) => Mentions(value, lookup, n) && (n in resolving || Reaches(VarGraph(lookup), n, n))
    case Malformed(_) => false
  }

  /** The text ends in a reference that is opened before `tail` and never closed. */
  ghost predicate LeftOpen(value: string, tail: string) {
    exists pieces, last, before :: WellCut(pieces) && Unfinished(last, before, tail) && value == Joined(pieces, last)
  }

  lemma {:induction false} FailureBlames(value: string, lookup: Section, env: Environment, resolving: set<string>)
    requires resolving <= lookup.Keys && Interpolate(value, lookup, env, resolving).Err?
    ensures Blames(value, lookup, env, resolving, Interpolate(value, lookup, env, resolving).error)
    decreases lookup.Keys - resolving, |value|
  {
    hide NextRef;
    hide LeftOpen;
    var e := Interpolate(value, lookup, env, resolving).error;
    match NextRef(value)
    case Literal =>
    case Unclosed(tail) => UnclosedIsOpen(value);
    case Reference(before, name, rest) =>
      assert RefNames(value) == [name] + RefNames(rest);
      assert name in RefNames(value) by { assert RefNames(value)[0] == name; }
      if name !in resolving && name in lookup && Interpolate(lookup[name], lookup, env, resolving + {name}).Err? {
        FailureBlames(lookup[name], lookup, env, resolving + {name});
        BlamedInside(value, name, lookup, env, resolving, e);
      } else if name !in resolving && Interpolate(rest, lookup, env, resolving).Err? && Replacement(name, lookup, env, resolving).Ok? {
        FailureBlames(rest, lookup, env, resolving);
        BlamedBehind(value, rest, lookup, env, resolving, e);
      }
  }

  lemma UnclosedIsOpen(value: string)
    requires NextRef(value).Unclosed?
    ensures LeftOpen(value, NextRef(value).tail)
  {
    hide NextRef;
    NextRefCuts(value);
    var tail := NextRef(value).tail;
    var k := |value| - |tail| - 2;
    BeforeIsPlain(value, k);
    assert WellCut([]) && Unfinished(value, value[..k], tail) && value == Joined([], value);
  }

  lemma LeftOpenBehind(value: string, tail: string)
    requires NextRef(value).Reference? && LeftOpen(NextRef(value).rest, tail)
    ensures LeftOpen(value, tail)
  {
    hide NextRef;
    hide Plain;
    hide Unfinished;
    var t := NextRef(value);
    var pieces, last, before :| WellCut(pieces) && Unfinished(last, before, tail) && t.rest == Joined(pieces, last);
    NextRefCuts(value);
    BeforeIsPlain(value, |t.before|);
    assert value[..|t.before|] == t.before;
    var all := [Piece(t.before, t.name)] + pieces;
    assert all[1..] == pieces;
    assert WellCut(all) && value == Joined(all, last);
  }

  lemma ReachedInside(value: string, name: string, lookup: Section, k: string)
    requires name in RefNames(value) && name in lookup && ReachedFrom(lookup[name], lookup, k)
    ensures ReachedFrom(value, lookup, k) && Reaches(VarGraph(lookup), name, k)
  {
    hide RefNames;
    var n :| n in RefNames(lookup[name]) && (n == k || Reaches(VarGraph(lookup), n, k));
    EdgeReaches(VarGraph(lookup), name, n);
    if n != k { ReachesTransitive(VarGraph(lookup), name, n, k); }
  }

  lemma MentionedInside(value: string, name: string, lookup: Section, n: string)
    requires name in RefNames(value) && name in lookup && Mentions(lookup[name], lookup, n)
    ensures Mentions(value, lookup, n) && Reaches(VarGraph(lookup), name, n)
  {
    hide RefNames;
    var g := VarGraph(lookup);
    assert ReachedFrom(value, lookup, name);
    if n in RefNames(lookup[name]) {
      EdgeReaches(g, name, n);
    } else {
      var k :| ReachedFrom(lookup[name], lookup, k) && n in RefNames(lookup[k]);
      ReachedInside(value, name, lookup, k);
      EdgeReaches(g, k, n);
      ReachesTransitive(g, name, k, n);
    }
  }

  lemma BlamedInside(value: string, name: string, lookup: Section, env: Environment, resolving: set<string>, e: ConfigError)
    requires name in RefNames(value) && name in lookup && Blames(lookup[name], lookup, env, resolving + {name}, e)
    ensures Blames(value, lookup, env, resolving, e)
  {
    hide RefNames;
    hide LeftOpen;
    hide Mentions;
    assert ReachedFrom(value, lookup, name);
    match e
    case UnresolvedVariable(n) =>
      if n !in lookup && env(n).None? && Mentions(lookup[name], lookup, n) {
        MentionedInside(value, name, lookup, n);
      } else if !LeftOpen(lookup[name], n) {
        var k :| ReachedFrom(lookup[name], lookup, k) && LeftOpen(lookup[k], n);
        ReachedInside(value, name, lookup, k);
      }
    case CircularVariableReference(n) => MentionedInside(value, name, lookup, n);
    case Malformed(_) =>
  }

  lemma BlamedBehind(value: string, rest: string, lookup: Section, env: Environment, resolving: set<string>, e: ConfigError)
    requires NextRef(value).Reference? && rest == NextRef(value).rest && Blames(rest, lookup, env, resolving, e)
    ensures Blames(value, lookup, env, resolving, e)
  {
    hide NextRef;
    hide LeftOpen;
    assert RefNames(value) == [NextRef(value).name] + RefNames(rest);
    assert forall n :: n in RefNames(rest) ==> n in RefNames(value);
    hide RefNames;
    assert forall k :: ReachedFrom(rest, lookup, k) ==> ReachedFrom(value, lookup, k);
    match e
    case UnresolvedVariable(n) =>
      if LeftOpen(rest, n) { LeftOpenBehind(value, n); }
    case _ =>
  }
}

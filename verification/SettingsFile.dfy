/** Reading a settings document (`SessionSettings::parse` in `truefix-config/src/lib.rs`): sections are
    gathered line by line, the defaults are resolved first, and each session is resolved over the resolved
    defaults. Lines come already stripped of comments and split at `=`. */
module SettingsFile {
  import opened Decimal
  import opened Settings

  datatype Line = Header(isDefault: bool) | Pair(key: string, value: string) | Other(text: string)

  /** The sections gathered so far, and the one being read (`None`: no header yet). */
  datatype Gathering = Gathering(defaults: Section, sessions: seq<Section>, inDefault: Option<bool>, current: Section)

  const START := Gathering(map[], [], None, map[])

  /** `flush_section`: later defaults win; an empty session is no session; pairs before any header are lost. */
  function Flush(g: Gathering): (r: Gathering) {
    match g.inDefault
    case Some(true) => g.(defaults := g.defaults + g.current, current := map[])
    case Some(false) => g.(sessions := if g.current == map[] then g.sessions else g.sessions + [g.current], current := map[])
    case None => g.(current := map[])
  }

  function Step(g: Gathering, line: Line): (r: Result<Gathering>) {
    match line
    case Header(isDefault) => Ok(Flush(g).(inDefault := Some(isDefault)))
    case Pair(key, value) => Ok(g.(current := g.current[key := value]))
    case Other(text) => Err(Malformed(text))
  }

  function Gather(g: Gathering, lines: seq<Line>): (r: Result<Gathering>)
    decreases |lines|
  {
    if lines == [] then Ok(Flush(g))
    else match Step(g, lines[0])
      case Err(e) => Err(e)
      case Ok(g') => Gather(g', lines[1..])
  }

  // ----- which pairs a section keeps

  ghost predicate AllPairs(lines: seq<Line>) {
    forall i :: 0 <= i < |lines| ==> lines[i].Pair?
  }

  /** The pairs of consecutive lines, a later one replacing an earlier one of the same key. */
  function Keep(pairs: seq<Line>): (m: Section)
    requires AllPairs(pairs)
  {
    if pairs == [] then map[] else map[pairs[0].key := pairs[0].value] + Keep(pairs[1..])
  }

  /** Nothing, or a section header, comes next. */
  ghost predicate AtSection(rest: seq<Line>) {
    rest == [] || rest[0].Header?
  }

  lemma Inserted(m: Section, key: string, value: string, more: Section)
    ensures m[key := value] + more == m + (map[key := value] + more)
  {
  }

  lemma GatherCons(g: Gathering, line: Line, rest: seq<Line>)
    requires Step(g, line).Ok?
    ensures Gather(g, [line] + rest) == Gather(Step(g, line).value, rest)
  {
    assert ([line] + rest)[0] == line && ([line] + rest)[1..] == rest;
  }

  lemma {:induction false} PairsCollected(g: Gathering, pairs: seq<Line>, rest: seq<Line>)
    requires AllPairs(pairs)
    ensures Gather(g, pairs + rest) == Gather(g.(current := g.current + Keep(pairs)), rest)
    decreases |pairs|
  {
    hide Gather;
    hide Flush;
    if pairs == [] {
      assert pairs + rest == rest && g.current + Keep(pairs) == g.current;
    } else {
      var key, value := pairs[0].key, pairs[0].value;
      assert pairs + rest == [pairs[0]] + (pairs[1..] + rest);
      GatherCons(g, pairs[0], pairs[1..] + rest);
      PairsCollected(g.(current := g.current[key := value]), pairs[1..], rest);
      Inserted(g.current, key, value, Keep(pairs[1..]));
    }
  }

  lemma FlushedAtSection(g: Gathering, rest: seq<Line>)
    requires AtSection(rest)
    ensures Gather(g, rest) == Gather(Flush(g), rest)
  {
    if g.inDefault == Some(true) {
      assert Flush(g).defaults + map[] == Flush(g).defaults;
    }
  }

  /** Pairs are kept exactly if a header precedes them: before the first they leave no trace, whatever follows,
      and after one they are added to its section. */
  lemma PairsKeptAfterHeader(g: Gathering, pairs: seq<Line>, rest: seq<Line>)
    requires AllPairs(pairs) && AtSection(rest) && g.current == map[]
    ensures Gather(g, pairs + rest) ==
            if g.inDefault.None? then Gather(g, rest)
            else if g.inDefault.value then Gather(g.(defaults := g.defaults + Keep(pairs)), rest)
            else Gather(if pairs == [] then g else g.(sessions := g.sessions + [Keep(pairs)]), rest)
  {
    var full := g.(current := g.current + Keep(pairs));
    assert map[] + Keep(pairs) == Keep(pairs);
    PairsCollected(g, pairs, rest);
    FlushedAtSection(full, rest);
    if pairs != [] {
      assert pairs[0].key in Keep(pairs);
    }
    assert g.(current := map[]) == g;
  }

  /** The document of a few pairs, a default section and a session: the first pairs are lost, the others kept. */
  lemma DocumentGathers(lost: seq<Line>, defaults: seq<Line>, session: seq<Line>)
    requires AllPairs(lost) && AllPairs(defaults) && AllPairs(session) && session != []
    ensures Gather(START, lost + ([Header(true)] + (defaults + ([Header(false)] + session))))
         == Ok(Gathering(Keep(defaults), [Keep(session)], Some(false), map[]))
  {
    hide Gather;
    hide Keep;
    var none: Section := map[];
    var tail := [Header(false)] + session;
    var body := [Header(true)] + (defaults + tail);
    PairsKeptAfterHeader(START, lost, body);
    var inDefaults := Gathering(none, [], Some(true), none);
    GatherCons(START, Header(true), defaults + tail);
    assert Gather(START, body) == Gather(inDefaults, defaults + tail);
    PairsKeptAfterHeader(inDefaults, defaults, tail);
    assert none + Keep(defaults) == Keep(defaults) && Keep(defaults) + none == Keep(defaults);
    var gathered := Gathering(Keep(defaults), [], Some(true), none);
    var inSession := Gathering(Keep(defaults), [], Some(false), none);
    GatherCons(gathered, Header(false), session);
    assert Gather(inDefaults, defaults + tail) == Gather(gathered, tail);
    assert Step(gathered, Header(false)) == Ok(inSession);
    assert Gather(gathered, tail) == Gather(inSession, session);
    PairsKeptAfterHeader(inSession, session, []);
    assert session + [] == session;
    var all := Gathering(Keep(defaults), [Keep(session)], Some(false), none);
    assert [] + [Keep(session)] == all.sessions;
    assert Gather(inSession, session) == Gather(all, []);
    GatherEnd(all);
  }

  lemma GatherEnd(g: Gathering)
    requires g.current == map[] && g.inDefault == Some(false)
    ensures Gather(g, []) == Ok(g)
  {
  }

  /** One such document. */
  lemma FirstPairLost()
    ensures Gather(START, [Pair("A", "a"), Header(true), Pair("B", "b"), Header(false), Pair("C", "c")])
         == Ok(Gathering(map["B" := "b"], [map["C" := "c"]], Some(false), map[]))
  {
    var a, b, c := Pair("A", "a"), Pair("B", "b"), Pair("C", "c");
    DocumentGathers([a], [b], [c]);
    assert [b][1..] == [] && [c][1..] == [];
    assert Keep([b]) == map[b.key := b.value] + map[] == map["B" := "b"];
    assert Keep([c]) == map[c.key := c.value] + map[] == map["C" := "c"];
    assert [a] + ([Header(true)] + ([b] + ([Header(false)] + [c]))) == [a, Header(true), b, Header(false), c];
  }

  // ----- resolving a section

  ghost predicate Resolvable(m: Section, env: Environment) {
    forall k :: k in m ==> Interpolate(m[k], m, env, {}).Ok?
  }

  function Resolved(m: Section, env: Environment): (r: Section) {
    map k | k in m && Interpolate(m[k], m, env, {}).Ok? :: Interpolate(m[k], m, env, {}).value
  }

  /** Resolve every value of a section against the section itself. */
  method InterpolateMap(m: Section, env: Environment) returns (r: Result<Section>)
    ensures r.Ok? <==> Resolvable(m, env)
    ensures r.Ok? ==> r.value == Resolved(m, env) && r.value.Keys == m.Keys
    ensures r.Err? ==> exists k :: k in m && Interpolate(m[k], m, env, {}) == Err(r.error)
  {
    var out: Section := map[];
    var todo := m.Keys;
    while todo != {}
      invariant todo <= m.Keys && out.Keys == m.Keys - todo
      invariant forall k :: k in out ==> Interpolate(m[k], m, env, {}) == Ok(out[k])
      decreases todo
    {
      var k :| k in todo;
      var interpolator := new Interpolator(m, env);
      assert Names(interpolator.resolving) == {};
      var one := interpolator.InterpolateValue(m[k]);
      if one.Err? {
        return Err(one.error);
      }
      out := out[k := one.value];
      todo := todo - {k};
    }
    r := Ok(out);
  }

  const IDENTITY_KEYS: seq<string> := [
    "BeginString", "SenderCompID", "SenderSubID", "SenderLocationID",
    "TargetCompID", "TargetSubID", "TargetLocationID", "SessionQualifier"]

  /** The session's identity: the value of each identity key, empty where absent. */
  function Identity(s: Section): (id: seq<string>) {
    seq(|IDENTITY_KEYS|, i requires 0 <= i < |IDENTITY_KEYS| => if IDENTITY_KEYS[i] in s then s[IDENTITY_KEYS[i]] else "")
  }

  /** The value under the key, empty where there is none. */
  function ValueOf(s: Section, key: string): (v: string) {
    if key in s then s[key] else ""
  }

  /** Two sessions are one when all eight parts of a FIX session identity agree. */
  lemma IdentityExactly(a: Section, b: Section)
    ensures Identity(a) == Identity(b) <==>
            && ValueOf(a, "BeginString") == ValueOf(b, "BeginString")
            && ValueOf(a, "SenderCompID") == ValueOf(b, "SenderCompID")
            && ValueOf(a, "SenderSubID") == ValueOf(b, "SenderSubID")
            && ValueOf(a, "SenderLocationID") == ValueOf(b, "SenderLocationID")
            && ValueOf(a, "TargetCompID") == ValueOf(b, "TargetCompID")
            && ValueOf(a, "TargetSubID") == ValueOf(b, "TargetSubID")
            && ValueOf(a, "TargetLocationID") == ValueOf(b, "TargetLocationID")
            && ValueOf(a, "SessionQualifier") == ValueOf(b, "SessionQualifier")
  {
    var x, y := Identity(a), Identity(b);
    assert |x| == 8 && |y| == 8;
    forall i | 0 <= i < 8 ensures x[i] == ValueOf(a, IDENTITY_KEYS[i]) && y[i] == ValueOf(b, IDENTITY_KEYS[i]) { }
    assert x == y <==> x[0] == y[0] && x[1] == y[1] && x[2] == y[2] && x[3] == y[3]
                       && x[4] == y[4] && x[5] == y[5] && x[6] == y[6] && x[7] == y[7];
  }

  ghost predicate DistinctSessions(sessions: seq<Section>) {
    forall i, j :: 0 <= i < j < |sessions| ==> Identity(sessions[i]) != Identity(sessions[j])
  }

  method HasDuplicate(sessions: seq<Section>) returns (dup: bool)
    ensures dup <==> !DistinctSessions(sessions)
  {
    var seen: seq<seq<string>> := [];
    for i := 0 to |sessions|
      invariant |seen| == i && forall j :: 0 <= j < i ==> seen[j] == Identity(sessions[j])
      invariant forall j, k :: 0 <= j < k < i ==> Identity(sessions[j]) != Identity(sessions[k])
    {
      var id := Identity(sessions[i]);
      if id in seen {
        var j :| 0 <= j < |seen| && seen[j] == id;
        return true;
      }
      seen := seen + [id];
    }
    dup := false;
  }

  datatype Document = Document(defaults: Section, sessions: seq<Section>)

  datatype ParseResult = Parsed(doc: Document) | Failed(error: ConfigError) | DuplicateSession

  /** Each session's own pairs over the resolved defaults. */
  function Scope(defaults: Section, session: Section, env: Environment): (m: Section) {
    Resolved(defaults, env) + session
  }

  ghost predicate AllResolvable(raw: Gathering, env: Environment) {
    && Resolvable(raw.defaults, env)
    && forall i :: 0 <= i < |raw.sessions| ==> Resolvable(Scope(raw.defaults, raw.sessions[i], env), env)
  }

  /** What a parsed document holds: the resolved defaults, and every session resolved in its own scope. */
  ghost predicate Holds(doc: Document, raw: Gathering, env: Environment) {
    && doc.defaults == Resolved(raw.defaults, env)
    && |doc.sessions| == |raw.sessions|
    && forall i :: 0 <= i < |raw.sessions| ==> doc.sessions[i] == Resolved(Scope(raw.defaults, raw.sessions[i], env), env)
  }

  /** The error is that of a value, in the defaults or in a session's scope, that does not resolve. */
  ghost predicate Unresolved(raw: Gathering, env: Environment, e: ConfigError) {
    || FailsIn(raw.defaults, env, e)
    || (exists i :: 0 <= i < |raw.sessions| && FailsIn(Scope(raw.defaults, raw.sessions[i], env), env, e))
  }

  ghost predicate FailsIn(m: Section, env: Environment, e: ConfigError) {
    exists k :: k in m && Interpolate(m[k], m, env, {}) == Err(e)
  }

  /** Lines are gathered unless one is no header and no pair; the first such line is reported. */
  lemma {:induction false} GatherFails(g: Gathering, lines: seq<Line>)
    ensures Gather(g, lines).Err? <==> exists i :: 0 <= i < |lines| && lines[i].Other?
    ensures Gather(g, lines).Err? ==>
              exists i :: 0 <= i < |lines| && lines[i].Other? && Gather(g, lines) == Err(Malformed(lines[i].text))
                          && forall j :: 0 <= j < i ==> !lines[j].Other?
    decreases |lines|
  {
    if lines != [] && !lines[0].Other? {
      var rest := lines[1..];
      GatherFails(Step(g, lines[0]).value, rest);
      assert forall i :: 0 <= i < |rest| ==> rest[i] == lines[i + 1];
      assert forall i :: 1 <= i < |lines| ==> lines[i] == rest[i - 1];
    }
  }

  method Parse(lines: seq<Line>, env: Environment) returns (r: ParseResult)
    ensures r.Parsed? <==> && Gather(START, lines).Ok? && AllResolvable(Gather(START, lines).value, env)
                           && exists doc :: Holds(doc, Gather(START, lines).value, env) && DistinctSessions(doc.sessions)
    ensures r.Parsed? ==> Holds(r.doc, Gather(START, lines).value, env) && DistinctSessions(r.doc.sessions)
    ensures Gather(START, lines).Err? ==> r == Failed(Gather(START, lines).error)
    ensures r.DuplicateSession? ==> Gather(START, lines).Ok? && AllResolvable(Gather(START, lines).value, env)
    ensures r.Failed? && Gather(START, lines).Ok? ==> Unresolved(Gather(START, lines).value, env, r.error)
  {
    var g := START;
    for i := 0 to |lines|
      invariant Gather(START, lines) == Gather(g, lines[i..])
    {
      assert lines[i..][0] == lines[i] && lines[i..][1..] == lines[i + 1..];
      var next := Step(g, lines[i]);
      if next.Err? {
        return Failed(next.error);
      }
      g := next.value;
    }
    g := Flush(g);
    var defaults := InterpolateMap(g.defaults, env);
    if defaults.Err? {
      return Failed(defaults.error);
    }
    var sessions: seq<Section> := [];
    for i := 0 to |g.sessions|
      invariant |sessions| == i
      invariant forall j :: 0 <= j < i ==>
                  && Resolvable(Scope(g.defaults, g.sessions[j], env), env)
                  && sessions[j] == Resolved(Scope(g.defaults, g.sessions[j], env), env)
    {
      var one := InterpolateMap(defaults.value + g.sessions[i], env);
      if one.Err? {
        return Failed(one.error);
      }
      sessions := sessions + [one.value];
    }
    var doc := Document(defaults.value, sessions);
    assert Holds(doc, g, env);
    var dup := HasDuplicate(sessions);
    if dup {
      forall other | Holds(other, g, env) ensures other.sessions == sessions {
      }
      return DuplicateSession;
    }
    r := Parsed(doc);
  }

  // ----- inheritance

  /** Text without `${` is its own interpolation. */
  lemma PlainIsFixed(value: string, lookup: Section, env: Environment)
    requires FindOpen(value).None?
    ensures Interpolate(value, lookup, env, {}) == Ok(value)
  {
  }

  /** A resolved default without `${` reaches every session that does not override it, unchanged; a session
      has the defaults' keys and its own, and its own pairs are resolved with its own pairs in scope. */
  lemma Inherited(raw: Gathering, env: Environment, doc: Document, i: nat, k: string)
    requires AllResolvable(raw, env) && Holds(doc, raw, env) && i < |raw.sessions|
    ensures doc.sessions[i].Keys == raw.defaults.Keys + raw.sessions[i].Keys
    ensures k in raw.defaults && k !in raw.sessions[i] && FindOpen(doc.defaults[k]).None? ==>
              doc.sessions[i][k] == doc.defaults[k]
    ensures k in raw.sessions[i] ==>
              Interpolate(raw.sessions[i][k], Scope(raw.defaults, raw.sessions[i], env), env, {}) == Ok(doc.sessions[i][k])
  {
    hide Interpolate;
    var scope := Scope(raw.defaults, raw.sessions[i], env);
    assert Resolvable(scope, env);
    if k in raw.defaults && k !in raw.sessions[i] && FindOpen(doc.defaults[k]).None? {
      PlainIsFixed(doc.defaults[k], scope, env);
    }
  }

  lemma TemplateK()
    ensures NextRef("${D}{X}") == Reference("", "D", "{X}")
  {
    var k, after := "${D}{X}", "D}{X}";
    assert FindOpen(k) == Some(0) && k[..0] == "" && k[2..] == after;
    assert after[1..] == "}{X}" && FindChar(after[1..], '}') == Some(0);
    hide FindOpen;
    assert FindChar(after, '}') == Some(1);
    hide FindChar;
    assert after[..1] == "D" && after[2..] == "{X}";
  }

  lemma TemplatePlain()
    ensures NextRef("{X}") == Literal && NextRef("$") == Literal
  {
    assert "{X}"[1..] == "X}" && "X}"[1..] == "}";
  }

  lemma TemplateX()
    ensures NextRef("${X}") == Reference("", "X", "")
  {
    var v := "${X}";
    assert v[2..] == "X}" && FindOpen(v) == Some(0);
    assert "X}"[1..] == "}" && FindChar("X}", '}') == Some(1);
    assert v[..0] == "" && "X}"[..1] == "X" && "X}"[2..] == "";
  }

  /** The condition is needed: `$` and `{X}` put together by the first pass are a reference in the second, so
      a document whose defaults all resolve can still fail in a session that adds nothing to them. */
  lemma ResolvedDefaultCanFail(env: Environment)
    requires env("X").None?
    ensures var lines := [Header(true), Pair("D", "$"), Pair("K", "${D}{X}"), Header(false), Pair("A", "a")];
            && Gather(START, lines).Ok?
            && var raw := Gather(START, lines).value;
               && Resolvable(raw.defaults, env) && "K" in Resolved(raw.defaults, env)
               && Resolved(raw.defaults, env)["K"] == "${X}"
               && |raw.sessions| == 1 && raw.sessions[0] == map["A" := "a"]
               && !AllResolvable(raw, env)
  {
    hide Gather;
    hide Interpolate;
    var defaults: Section := map["D" := "$", "K" := "${D}{X}"];
    CaseGathers(defaults);
    CaseFails(defaults, env);
  }

  lemma CaseFails(defaults: Section, env: Environment)
    requires env("X").None? && defaults == map["D" := "$", "K" := "${D}{X}"]
    ensures Resolvable(defaults, env) && "K" in Resolved(defaults, env) && Resolved(defaults, env)["K"] == "${X}"
    ensures !Resolvable(Scope(defaults, map["A" := "a"], env), env)
  {
    hide NextRef;
    TemplateK();
    TemplatePlain();
    TemplateX();
    var one: set<string> := {"D"};
    assert Interpolate("$", defaults, env, {} + one) == Ok("$");
    assert Interpolate("{X}", defaults, env, {}) == Ok("{X}");
    assert "" + "$" + "{X}" == "${X}";
    assert Interpolate("${D}{X}", defaults, env, {}) == Ok("${X}");
    assert Interpolate("$", defaults, env, {}) == Ok("$");
    var scope := Scope(defaults, map["A" := "a"], env);
    assert scope["K"] == "${X}" && "X" !in scope;
    assert Interpolate("${X}", scope, env, {}) == Err(UnresolvedVariable("X"));
  }

  lemma CaseGathers(defaults: Section)
    requires defaults == map["D" := "$", "K" := "${D}{X}"]
    ensures Gather(START, [Header(true), Pair("D", "$"), Pair("K", "${D}{X}"), Header(false), Pair("A", "a")])
         == Ok(Gathering(defaults, [map["A" := "a"]], Some(false), map[]))
  {
    var d, k, a := Pair("D", "$"), Pair("K", "${D}{X}"), Pair("A", "a");
    DocumentGathers([], [d, k], [a]);
    assert [d, k][1..] == [k] && [k][1..] == [] && [a][1..] == [];
    assert Keep([k]) == map[k.key := k.value] + map[];
    assert Keep([d, k]) == map[d.key := d.value] + Keep([k]) == defaults;
    assert Keep([a]) == map[a.key := a.value] + map[] == map["A" := "a"];
    assert [] + ([Header(true)] + ([d, k] + ([Header(false)] + [a]))) == [Header(true), d, k, Header(false), a];
  }

  // ----- exactly when a default is inherited unchanged

  /** A text of the given length without a reference. */
  function Filler(n: nat): (s: string)
    ensures |s| == n && FindOpen(s).None?
  {
    if n == 0 then "" else "x" + Filler(n - 1)
  }

  lemma FillerPlain(n: nat, lookup: Section, env: Environment, resolving: set<string>)
    requires resolving <= lookup.Keys
    ensures Interpolate(Filler(n), lookup, env, resolving) == Ok(Filler(n))
  {
  }

  /** A line that sets the first name the text refers to, or, where that is `k` or no reference is complete, another
      name than `k`. */
  function DisturbingLine(k: string, value: string): (line: Line)
    ensures line.Pair? && line.key != k
    ensures NextRef(value).Reference? && NextRef(value).name != k ==> line.key == NextRef(value).name
  {
    var t := NextRef(value);
    assert k + "x" != k by { assert |k + "x"| == |k| + 1; }
    Pair(if t.Reference? && t.name != k then t.name else k + "x", Filler(|value| + 1))
  }

  /** A session over which the resolved default of `k` does not stay what it is. */
  function Disturbing(k: string, value: string): (session: Section)
    requires FindOpen(value).Some?
    ensures session != map[] && k !in session
  {
    var line := DisturbingLine(k, value);
    var session := map[line.key := line.value];
    assert line.key in session;
    session
  }

  lemma DisturbedChanges(defaults: Section, env: Environment, k: string)
    requires Resolvable(defaults, env) && k in defaults && FindOpen(Resolved(defaults, env)[k]).Some?
    ensures var value := Resolved(defaults, env)[k];
            Interpolate(value, Scope(defaults, Disturbing(k, value), env), env, {}) != Ok(value)
  {
    hide FindOpen;
    hide FindChar;
    hide Filler;
    var value := Resolved(defaults, env)[k];
    var session := Disturbing(k, value);
    var scope := Scope(defaults, session, env);
    assert scope[k] == value;
    match NextRef(value)
    case Reference(before, name, rest) =>
      if name == k {
        assert Interpolate(value, scope, env, {} + {k}).Err?;
      } else {
        assert scope[name] == Filler(|value| + 1);
        ReboundGrows(value, scope, env, name, |value| + 1);
      }
    case _ =>
  }

  lemma ReboundGrows(value: string, scope: Section, env: Environment, name: string, n: nat)
    requires NextRef(value).Reference? && NextRef(value).name == name && name in scope && scope[name] == Filler(n)
    ensures var r := Interpolate(value, scope, env, {}); r.Ok? ==> |r.value| >= n
  {
    hide NextRef;
    FillerPlain(n, scope, env, {} + {name});
    hide Filler;
    assert Replacement(name, scope, env, {}) == Ok(Filler(n));
    var rest := Interpolate(NextRef(value).rest, scope, env, {});
    assert Interpolate(value, scope, env, {}).Ok? ==>
           Interpolate(value, scope, env, {}).value == NextRef(value).before + Filler(n) + rest.value;
  }

  /** The exact condition: a resolved default is left as it is by the second pass over every session that does not
      override it, if and only if it contains no `${`. */
  lemma InheritedExactly(defaults: Section, env: Environment, k: string)
    requires Resolvable(defaults, env) && k in defaults
    ensures var value := Resolved(defaults, env)[k];
            FindOpen(value).None? <==>
            forall session: Section :: session != map[] && k !in session ==>
              Interpolate(value, Scope(defaults, session, env), env, {}) == Ok(value)
  {
    hide Interpolate;
    var value := Resolved(defaults, env)[k];
    if FindOpen(value).None? {
      forall session: Section | session != map[] && k !in session
        ensures Interpolate(value, Scope(defaults, session, env), env, {}) == Ok(value)
      {
        PlainIsFixed(value, Scope(defaults, session, env), env);
      }
    } else {
      DisturbedChanges(defaults, env, k);
    }
  }

  lemma OneLineSession(pairs: seq<Line>, line: Line)
    requires AllPairs(pairs) && line.Pair?
    ensures Gather(START, [Header(true)] + (pairs + [Header(false), line]))
         == Ok(Gathering(Keep(pairs), [map[line.key := line.value]], Some(false), map[]))
  {
    hide Gather;
    DocumentGathers([], pairs, [line]);
    assert [line][1..] == [];
    assert Keep([line]) == map[line.key := line.value] + map[] == map[line.key := line.value];
    assert [Header(false)] + [line] == [Header(false), line];
    var lines := [Header(true)] + (pairs + [Header(false), line]);
    assert [] + lines == lines;
  }

  /** The same at a document: a default section with such a value, and a session of one line that sets the first name
      referred to. */
  lemma DisturbedDocument(pairs: seq<Line>, env: Environment, k: string)
    requires AllPairs(pairs) && Resolvable(Keep(pairs), env) && k in Keep(pairs)
    requires FindOpen(Resolved(Keep(pairs), env)[k]).Some?
    ensures var value := Resolved(Keep(pairs), env)[k];
            var raw := Gather(START, [Header(true)] + (pairs + [Header(false), DisturbingLine(k, value)]));
            && raw.Ok? && raw.value.defaults == Keep(pairs) && |raw.value.sessions| == 1 && k !in raw.value.sessions[0]
            && (AllResolvable(raw.value, env) ==>
                  Resolved(Scope(Keep(pairs), raw.value.sessions[0], env), env)[k] != value)
  {
    hide Interpolate;
    hide Gather;
    hide Filler;
    hide NextRef;
    hide FindOpen;
    hide Keep;
    var value := Resolved(Keep(pairs), env)[k];
    OneLineSession(pairs, DisturbingLine(k, value));
    DisturbedChanges(Keep(pairs), env, k);
    var scope := Scope(Keep(pairs), Disturbing(k, value), env);
    assert k in scope && scope[k] == value;
  }
}

/** When a vendor document is converted and what it is refused for. */
module VendorOutcomes {
  import opened Decimal
  import opened FieldMaps
  import opened Graphs
  import opened Components
  import opened VendorXml
  import opened VendorGroups

  // ----- required and optional members

  lemma SnocOf(a: seq<Entry>, b: seq<Entry>)
    requires b != []
    ensures (a + b)[..|a + b| - 1] == a + b[..|b| - 1] && (a + b)[|a + b| - 1] == b[|b| - 1]
  {
  }

  lemma {:induction false} RequiredAppend(a: seq<Entry>, b: seq<Entry>)
    ensures RequiredOnly(a + b) == RequiredOnly(a) + RequiredOnly(b)
    decreases |b|
  {
    if b == [] {
      assert a + b == a;
    } else {
      SnocOf(a, b);
      RequiredAppend(a, b[..|b| - 1]);
    }
  }

  lemma {:induction false} OptionalAppend(a: seq<Entry>, b: seq<Entry>)
    ensures OptionalOnly(a + b) == OptionalOnly(a) + OptionalOnly(b)
    decreases |b|
  {
    if b == [] {
      assert a + b == a;
    } else {
      SnocOf(a, b);
      OptionalAppend(a, b[..|b| - 1]);
    }
  }

  /** Each member goes to one of the two lists, as its flag says. */
  lemma FilterOne(e: Entry)
    ensures RequiredOnly([e]) == if e.required then [e] else []
    ensures OptionalOnly([e]) == if e.required then [] else [e]
  {
    assert [e][..0] == [];
    assert RequiredOnly([]) == [] && OptionalOnly([]) == [];
  }

  lemma {:induction false} RequiredAreMembers(es: seq<Entry>)
    ensures forall e :: e in RequiredOnly(es) <==> e in es && e.required
    ensures forall e :: e in OptionalOnly(es) <==> e in es && !e.required
  {
    if es != [] {
      RequiredAreMembers(es[..|es| - 1]);
      assert forall e :: e in es <==> e in es[..|es| - 1] || e == es[|es| - 1];
    }
  }

  /** The table has each component under its name, the last of that name if there are several. */
  lemma {:induction false} ByNameIsLast(components: seq<(string, seq<Entry>)>, n: string, es: seq<Entry>)
    ensures n in ByName(components) && ByName(components)[n] == es <==>
            exists i :: 0 <= i < |components| && components[i] == (n, es) && forall j :: i < j < |components| ==> components[j].0 != n
  {
    if components != [] {
      var init, last := components[..|components| - 1], |components| - 1;
      ByNameIsLast(init, n, es);
      assert forall i :: 0 <= i < last ==> init[i] == components[i];
      if components[last].0 == n {
        if components[last].1 == es { assert components[last] == (n, es); }
      } else {
        if n in ByName(init) && ByName(init)[n] == es {
          var i :| 0 <= i < |init| && init[i] == (n, es) && forall j :: i < j < |init| ==> init[j].0 != n;
          assert components[i] == (n, es);
        }
      }
    }
  }

  // ----- the first tag

  /** From a component to the one its first member refers to. */
  function HeadGraph(table: Table): (g: Graph<string>) {
    map n | n in table :: if table[n] != [] && table[n][0].kind.Reference? then [table[n][0].kind.name] else []
  }

  /** The list is the group's own, or a component's. */
  ghost predicate Starts(table: Table, members: seq<Entry>, kind: Kind) {
    || (members != [] && members[0].kind == kind)
    || (exists n :: n in table && table[n] != [] && table[n][0].kind == kind)
  }

  ghost predicate HeadFault(fields: map<string, Tag>, table: Table, members: seq<Entry>, e: VendorError) {
    match e
    case UnknownField(n) =>
      n !in fields && (Starts(table, members, FieldRef(n)) || exists g: VendorGroup :: g.name == n && Starts(table, members, InlineGroup(g)))
    case UnknownReference(n) => n !in table && Starts(table, members, Reference(n))
    case StackOverflow => exists n :: Reaches(HeadGraph(table), n, n)
  }

  /** Why no first tag is found: an unknown name at the head of a list, or a cycle of heads. */
  lemma {:induction false} FirstTagFails(fields: map<string, Tag>, table: Table, members: seq<Entry>, path: set<string>)
    requires path <= table.Keys && FirstTag(fields, table, members, path).Err?
    requires members != [] && members[0].kind.Reference? ==>
               forall x :: x in path ==> Reaches(HeadGraph(table), x, members[0].kind.name)
    ensures HeadFault(fields, table, members, FirstTag(fields, table, members, path).error)
    decreases table.Keys - path
  {
    match members[0].kind
    case FieldRef(n) => assert Starts(table, members, FieldRef(n));
    case InlineGroup(g) => assert Starts(table, members, InlineGroup(g));
    case Reference(n) =>
      if n in table && n !in path {
        HeadsOn(table, n, path);
        FirstTagFails(fields, table, table[n], path + {n});
      } else if n !in table {
        assert Starts(table, members, Reference(n));
      }
  }

  lemma HeadsOn(table: Table, n: string, path: set<string>)
    requires n in table && forall x :: x in path ==> Reaches(HeadGraph(table), x, n)
    ensures table[n] != [] && table[n][0].kind.Reference? ==>
              forall x :: x in path + {n} ==> Reaches(HeadGraph(table), x, table[n][0].kind.name)
  {
    if table[n] != [] && table[n][0].kind.Reference? {
      var m, g := table[n][0].kind.name, HeadGraph(table);
      EdgeReaches(g, n, m);
      forall x | x in path + {n} ensures Reaches(g, x, m) {
        if x != n { ReachesTransitive(g, x, n, m); }
      }
    }
  }

  // ----- member lists

  /** All names in the list and in the groups inside it are known, and every such group finds its first tag. */
  ghost predicate Fine(fields: map<string, Tag>, table: Table, es: seq<Entry>)
    decreases es
  {
    forall i :: 0 <= i < |es| ==> FineEntry(fields, table, es[i])
  }

  ghost predicate FineEntry(fields: map<string, Tag>, table: Table, e: Entry)
    decreases e
  {
    match e.kind
    case FieldRef(n) => n in fields
    case Reference(n) => n in table
    case InlineGroup(g) => g.name in fields && Fine(fields, table, g.members) && FirstTag(fields, table, g.members, {}).Ok?
  }

  /** The error names something wrong in the list or in a group inside it. */
  ghost predicate Faulty(fields: map<string, Tag>, table: Table, es: seq<Entry>, error: VendorError)
    decreases es
  {
    exists i :: 0 <= i < |es| && FaultyEntry(fields, table, es[i], error)
  }

  ghost predicate FaultyEntry(fields: map<string, Tag>, table: Table, e: Entry, error: VendorError)
    decreases e
  {
    match e.kind
    case FieldRef(n) => n !in fields && error == UnknownField(n)
    case Reference(n) => n !in table && error == UnknownReference(n)
    case InlineGroup(g) =>
      || (g.name !in fields && error == UnknownField(g.name))
      || Faulty(fields, table, g.members, error)
      || HeadFault(fields, table, g.members, error)
  }

  lemma FineRequired(fields: map<string, Tag>, table: Table, es: seq<Entry>)
    requires Fine(fields, table, es)
    ensures Fine(fields, table, RequiredOnly(es))
    ensures Fine(fields, table, OptionalOnly(es))
  {
    hide FineEntry;
    RequiredAreMembers(es);
    forall i | 0 <= i < |RequiredOnly(es)| ensures FineEntry(fields, table, RequiredOnly(es)[i]) {
      assert RequiredOnly(es)[i] in es;
    }
    forall i | 0 <= i < |OptionalOnly(es)| ensures FineEntry(fields, table, OptionalOnly(es)[i]) {
      assert OptionalOnly(es)[i] in es;
    }
  }

  lemma FaultyRequired(fields: map<string, Tag>, table: Table, es: seq<Entry>, error: VendorError)
    ensures Faulty(fields, table, RequiredOnly(es), error) ==> Faulty(fields, table, es, error)
    ensures Faulty(fields, table, OptionalOnly(es), error) ==> Faulty(fields, table, es, error)
  {
    hide FaultyEntry;
    RequiredAreMembers(es);
    if Faulty(fields, table, RequiredOnly(es), error) {
      var i :| 0 <= i < |RequiredOnly(es)| && FaultyEntry(fields, table, RequiredOnly(es)[i], error);
      assert RequiredOnly(es)[i] in es;
    }
    if Faulty(fields, table, OptionalOnly(es), error) {
      var i :| 0 <= i < |OptionalOnly(es)| && FaultyEntry(fields, table, OptionalOnly(es)[i], error);
      assert OptionalOnly(es)[i] in es;
    }
  }

  /** A list in which all is known is converted, whatever was emitted before. */
  lemma {:induction false} ResolveSucceeds(fields: map<string, Tag>, table: Table, es: seq<Entry>, out: Output)
    requires Fine(fields, table, es)
    ensures Resolve(fields, table, es, out).Ok?
    decreases EntriesSize(es), 1
  {
    hide FineEntry;
    hide ResolveOne;
    if es != [] {
      var init, last := es[..|es| - 1], es[|es| - 1];
      assert Fine(fields, table, init) by { assert forall i :: 0 <= i < |init| ==> init[i] == es[i]; }
      assert FineEntry(fields, table, es[|es| - 1]);
      ResolveSucceeds(fields, table, init, out);
      ResolveOneSucceeds(fields, table, last, Resolve(fields, table, init, out).value.1);
    }
  }

  lemma {:induction false} ResolveOneSucceeds(fields: map<string, Tag>, table: Table, e: Entry, out: Output)
    requires FineEntry(fields, table, e)
    ensures ResolveOne(fields, table, e, out).Ok?
    decreases EntrySize(e), 0
  {
    hide Fine;
    hide Resolve;
    if e.kind.InlineGroup? && fields[e.kind.group.name] !in out.emitted {
      var g := e.kind.group;
      var marked := out.(emitted := out.emitted + {fields[g.name]});
      ResolveSucceeds(fields, table, g.members, marked);
      FineRequired(fields, table, g.members);
      ResolveSucceeds(fields, table, RequiredOnly(g.members), Resolve(fields, table, g.members, marked).value.1);
    }
  }

  /** A list that is refused is refused for something wrong in it. */
  lemma {:induction false} ResolveFails(fields: map<string, Tag>, table: Table, es: seq<Entry>, out: Output)
    requires Resolve(fields, table, es, out).Err?
    ensures Faulty(fields, table, es, Resolve(fields, table, es, out).error)
    decreases EntriesSize(es), 1
  {
    hide FaultyEntry;
    hide ResolveOne;
    var init, last := es[..|es| - 1], es[|es| - 1];
    var error := Resolve(fields, table, es, out).error;
    if Resolve(fields, table, init, out).Err? {
      ResolveFails(fields, table, init, out);
      var i :| 0 <= i < |init| && FaultyEntry(fields, table, init[i], error);
      assert es[i] == init[i];
    } else {
      ResolveOneFails(fields, table, last, Resolve(fields, table, init, out).value.1);
      assert FaultyEntry(fields, table, es[|es| - 1], error);
    }
  }

  lemma {:induction false} ResolveOneFails(fields: map<string, Tag>, table: Table, e: Entry, out: Output)
    requires ResolveOne(fields, table, e, out).Err?
    ensures FaultyEntry(fields, table, e, ResolveOne(fields, table, e, out).error)
    decreases EntrySize(e), 0
  {
    hide Faulty;
    hide HeadFault;
    hide Resolve;
    if e.kind.InlineGroup? && e.kind.group.name in fields {
      var g := e.kind.group;
      var marked := out.(emitted := out.emitted + {fields[g.name]});
      var error := ResolveOne(fields, table, e, out).error;
      var members := Resolve(fields, table, g.members, marked);
      if members.Err? {
        ResolveFails(fields, table, g.members, marked);
      } else if Resolve(fields, table, RequiredOnly(g.members), members.value.1).Err? {
        ResolveFails(fields, table, RequiredOnly(g.members), members.value.1);
        FaultyRequired(fields, table, g.members, error);
      } else {
        FirstTagFails(fields, table, g.members, {});
      }
    }
  }

  // ----- whole documents

  ghost predicate FineDocument(v: Vendor) {
    var table := ByName(v.components);
    && (forall i :: 0 <= i < |v.components| ==> Fine(v.fieldByName, table, v.components[i].1))
    && (forall i :: 0 <= i < |v.messages| ==> Fine(v.fieldByName, table, v.messages[i].members))
  }

  ghost predicate FaultyDocument(v: Vendor, error: VendorError) {
    var table := ByName(v.components);
    || (exists i :: 0 <= i < |v.components| && Faulty(v.fieldByName, table, v.components[i].1, error))
    || (exists i :: 0 <= i < |v.messages| && Faulty(v.fieldByName, table, v.messages[i].members, error))
  }

  /** The conversion of a document, whole: one in which all is known is written, one that is refused has the fault
      named, and what is written is the document's. */
  method Convert(v: Vendor) returns (r: Result<Rendered>)
    ensures FineDocument(v) ==> r.Ok?
    ensures r.Err? ==> FaultyDocument(v, r.error)
    ensures r.Ok? ==> WellRendered(v, r.value)
  {
    hide *;
    ghost var table := ByName(v.components);
    ghost var es: seq<Entry>;
    r, es := Render(v);
    if r.Err? {
      RefusedList(v, es, r.error);
    }
  }

  lemma RefusedList(v: Vendor, es: seq<Entry>, error: VendorError)
    requires RefusedFor(v, es, error)
    ensures !FineDocument(v) && FaultyDocument(v, error)
  {
    hide Fine;
    hide Faulty;
    var table := ByName(v.components);
    var out :| Resolve(v.fieldByName, table, es, out) == Err(error);
    ResolveFails(v.fieldByName, table, es, out);
    if FineDocument(v) {
      ListIsFine(v, es);
      ResolveSucceeds(v.fieldByName, table, es, out);
      assert false;
    }
    if i :| 0 <= i < |v.messages| && (es == RequiredOnly(v.messages[i].members) || es == OptionalOnly(v.messages[i].members)) {
      FaultyRequired(v.fieldByName, table, v.messages[i].members, error);
    }
  }

  lemma ListIsFine(v: Vendor, es: seq<Entry>)
    requires FineDocument(v) && Listed(v, es)
    ensures Fine(v.fieldByName, ByName(v.components), es)
  {
    hide Fine;
    if i :| 0 <= i < |v.messages| && (es == RequiredOnly(v.messages[i].members) || es == OptionalOnly(v.messages[i].members)) {
      FineRequired(v.fieldByName, ByName(v.components), v.messages[i].members);
    }
  }
}

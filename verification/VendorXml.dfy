/** Converting a vendor's XML dictionary: nested groups become lines of their own, each with the tag that opens
    its entries (`resolve_members`, `first_member_tag` and the member loops of `render` in
    `truefix-dict/src/vendor_xml.rs`). */
module VendorXml {
  import opened Decimal
  import opened FieldMaps
  import opened Components

  datatype Kind = FieldRef(name: string) | Reference(name: string) | InlineGroup(group: VendorGroup)

  datatype Entry = Entry(kind: Kind, required: bool)

  datatype VendorGroup = VendorGroup(name: string, members: seq<Entry>)

  datatype VendorMessage = VendorMessage(msgType: string, name: string, members: seq<Entry>)

  datatype Vendor = Vendor(
    fieldByName: map<string, Tag>,
    components: seq<(string, seq<Entry>)>,
    messages: seq<VendorMessage>)

  /** A line `group <count> <name> <delimiter> <members> req:<required>`. */
  datatype GroupLine = GroupLine(count: Tag, name: string, delimiter: Tag, members: seq<RawMember>, required: seq<RawMember>)

  datatype VendorError = UnknownField(name: string) | UnknownReference(name: string) | StackOverflow

  datatype Result<+T> = Ok(value: T) | Err(error: VendorError)

  /** The group lines written so far and the count tags that have had their turn. */
  datatype Output = Output(lines: seq<GroupLine>, emitted: set<Tag>)

  type Table = map<string, seq<Entry>>

  /** Components by name; of two with one name the later stands. */
  function ByName(components: seq<(string, seq<Entry>)>): Table {
    if components == [] then map[] else
    ByName(components[..|components| - 1])[components[|components| - 1].0 := components[|components| - 1].1]
  }

  // ------------------------------------------------------------ sizes

  function EntrySize(e: Entry): (n: nat)
    ensures n > 0
    decreases e, 0
  {
    match e.kind
    case InlineGroup(g) => 2 + EntriesSize(g.members)
    case _ => 1
  }

  function EntriesSize(es: seq<Entry>): nat
    decreases es, 1
  {
    if es == [] then 0 else EntriesSize(es[..|es| - 1]) + EntrySize(es[|es| - 1])
  }

  function RequiredOnly(es: seq<Entry>): (r: seq<Entry>)
    ensures EntriesSize(r) <= EntriesSize(es)
  {
    if es == [] then [] else
    var init, last := RequiredOnly(es[..|es| - 1]), es[|es| - 1];
    if last.required then assert (init + [last])[..|init|] == init; init + [last] else init
  }

  function OptionalOnly(es: seq<Entry>): seq<Entry> {
    if es == [] then [] else
    OptionalOnly(es[..|es| - 1]) + if es[|es| - 1].required then [] else [es[|es| - 1]]
  }

  // ------------------------------------------------------------ the opening tag

  /** The tag a member list opens with, looking through components. Nothing stops the recursion on components
      that open with each other: `path`, the components entered so far, is there to say so. */
  function FirstTag(fields: map<string, Tag>, table: Table, members: seq<Entry>, path: set<string>): Result<Option<Tag>>
    requires path <= table.Keys
    decreases table.Keys - path
  {
    if members == [] then Ok(None) else
    match members[0].kind
    case FieldRef(n) => if n in fields then Ok(Some(fields[n])) else Err(UnknownField(n))
    case InlineGroup(g) => if g.name in fields then Ok(Some(fields[g.name])) else Err(UnknownField(g.name))
    case Reference(n) =>
      if n !in table then Err(UnknownReference(n))
      else if n in path then Err(StackOverflow)
      else FirstTag(fields, table, table[n], path + {n})
  }

  // ------------------------------------------------------------ resolving members

  function Resolve(fields: map<string, Tag>, table: Table, es: seq<Entry>, out: Output): Result<(seq<RawMember>, Output)>
    decreases EntriesSize(es), 1
  {
    if es == [] then Ok(([], out)) else
    match Resolve(fields, table, es[..|es| - 1], out)
    case Err(e) => Err(e)
    case Ok((tokens, before)) => match ResolveOne(fields, table, es[|es| - 1], before)
      case Err(e) => Err(e)
      case Ok((token, after)) => Ok((tokens + [token], after))
  }

  function ResolveOne(fields: map<string, Tag>, table: Table, e: Entry, out: Output): Result<(RawMember, Output)>
    decreases EntrySize(e), 0
  {
    match e.kind
    case FieldRef(n) => if n in fields then Ok((TagMember(fields[n]), out)) else Err(UnknownField(n))
    case Reference(n) => if n in table then Ok((ComponentRef(n), out)) else Err(UnknownReference(n))
    case InlineGroup(g) =>
      if g.name !in fields then Err(UnknownField(g.name))
      else if fields[g.name] in out.emitted then Ok((TagMember(fields[g.name]), out))
      else match EmitGroup(fields, table, g, out)
        case Err(error) => Err(error)
        case Ok(after) => Ok((TagMember(fields[g.name]), after))
  }

  /** Writes the group's line, after those of the groups inside it. */
  function EmitGroup(fields: map<string, Tag>, table: Table, g: VendorGroup, out: Output): Result<Output>
    requires g.name in fields
    decreases EntriesSize(g.members) + 1, 0
  {
    var count := fields[g.name];
    match Resolve(fields, table, g.members, out.(emitted := out.emitted + {count}))
    case Err(e) => Err(e)
    case Ok((members, inner)) => match Resolve(fields, table, RequiredOnly(g.members), inner)
      case Err(e) => Err(e)
      case Ok((required, after)) => match FirstTag(fields, table, g.members, {})
        case Err(e) => Err(e)
        case Ok(first) =>
          var delimiter := if first.Some? then first.value else count;
          Ok(after.(lines := after.lines + [GroupLine(count, g.name, delimiter, members, required)]))
  }

  lemma {:induction false} ResolveStops(fields: map<string, Tag>, table: Table, es: seq<Entry>, out: Output, i: nat)
    requires i <= |es| && Resolve(fields, table, es[..i], out).Err?
    ensures Resolve(fields, table, es, out) == Resolve(fields, table, es[..i], out)
    decreases |es|
  {
    if i == |es| {
      assert es[..i] == es;
    } else {
      assert es[..|es| - 1][..i] == es[..i];
      ResolveStops(fields, table, es[..|es| - 1], out, i);
    }
  }

  lemma {:induction false} SmallerParts(es: seq<Entry>, i: nat)
    requires i < |es|
    ensures EntrySize(es[i]) <= EntriesSize(es)
    decreases |es|
  {
    if i < |es| - 1 {
      SmallerParts(es[..|es| - 1], i);
    }
  }

  method FilterRequired(es: seq<Entry>) returns (r: seq<Entry>)
    ensures r == RequiredOnly(es)
  {
    r := [];
    for i := 0 to |es|
      invariant r == RequiredOnly(es[..i])
    {
      assert es[..i + 1][..i] == es[..i];
      if es[i].required {
        r := r + [es[i]];
      }
    }
    assert es[..|es|] == es;
  }

  class Converter {
    const fields: map<string, Tag>
    const table: Table
    var lines: seq<GroupLine>
    var emitted: set<Tag>

    constructor (fields: map<string, Tag>, table: Table)
      ensures this.fields == fields && this.table == table && View() == Output([], {})
    {
      this.fields, this.table, lines, emitted := fields, table, [], {};
    }

    function View(): Output
      reads this
    {
      Output(lines, emitted)
    }

    method ResolveMembers(es: seq<Entry>) returns (r: Result<seq<RawMember>>)
      modifies this
      ensures match Resolve(fields, table, es, old(View()))
              case Ok((tokens, out)) => r == Ok(tokens) && View() == out
              case Err(e) => r == Err(e)
      decreases EntriesSize(es), 1
    {
      ghost var start := View();
      var tokens := [];
      for i := 0 to |es|
        invariant Resolve(fields, table, es[..i], start) == Ok((tokens, View()))
      {
        assert es[..i + 1][..i] == es[..i];
        SmallerParts(es, i);
        var token := ResolveEntry(es[i]);
        if token.Err? {
          ResolveStops(fields, table, es, start, i + 1);
          return Err(token.error);
        }
        tokens := tokens + [token.value];
      }
      assert es[..|es|] == es;
      r := Ok(tokens);
    }

    method ResolveEntry(e: Entry) returns (r: Result<RawMember>)
      modifies this
      ensures match ResolveOne(fields, table, e, old(View()))
              case Ok((token, out)) => r == Ok(token) && View() == out
              case Err(error) => r == Err(error)
      decreases EntrySize(e), 0
    {
      match e.kind {
        case FieldRef(n) => r := if n in fields then Ok(TagMember(fields[n])) else Err(UnknownField(n));
        case Reference(n) => r := if n in table then Ok(ComponentRef(n)) else Err(UnknownReference(n));
        case InlineGroup(g) =>
          if g.name !in fields {
            return Err(UnknownField(g.name));
          }
          var count := fields[g.name];
          if count !in emitted {
            emitted := emitted + {count};
            var members := ResolveMembers(g.members);
            if members.Err? {
              return Err(members.error);
            }
            var requiredEntries := FilterRequired(g.members);
            var required := ResolveMembers(requiredEntries);
            if required.Err? {
              return Err(required.error);
            }
            var first := FirstTag(fields, table, g.members, {});
            if first.Err? {
              return Err(first.error);
            }
            var delimiter := if first.value.Some? then first.value.value else count;
            lines := lines + [GroupLine(count, g.name, delimiter, members.value, required.value)];
          }
          r := Ok(TagMember(count));
      }
    }
  }
}

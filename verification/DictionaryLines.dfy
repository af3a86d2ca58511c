/** The line grammar of a normalized dictionary, as both of its readers see it (`truefix-dict/src/parser.rs`
    and `truefix-dict/src/codegen.rs`): a document is a list of lines, a line the list of its
    whitespace-separated words with comments already cut off. */
module DictionaryLines {
  import opened Decimal
  import opened FieldMaps
  import opened Components

  type Line = seq<string>

  datatype Parsed<+T, +E> = Good(value: T) | Bad(error: E)

  datatype Directive =
    | VersionLine | MetaLine | FieldLine | HeaderLine | TrailerLine
    | MessageLine | GroupLine | ComponentLine | UnknownLine

  function DirectiveOf(word: string): Directive {
    if word == "version" then VersionLine
    else if word == "version-meta" then MetaLine
    else if word == "field" then FieldLine
    else if word == "header" then HeaderLine
    else if word == "trailer" then TrailerLine
    else if word == "message" then MessageLine
    else if word == "group" then GroupLine
    else if word == "component" then ComponentLine
    else UnknownLine
  }

  // ------------------------------------------------------------ words

  /** A character as a byte; the ones that are no single byte become one that is no digit. */
  function ByteOf(c: char): Byte {
    if c as int < 255 then c as int else 255
  }

  function ParseNumber(s: string, max: nat): Option<nat> {
    ParseUnsigned(seq(|s|, i requires 0 <= i < |s| => ByteOf(s[i])), max)
  }

  function ParseTag(s: string): Option<Tag> {
    ParseNumber(s, U32_MAX)
  }

  function StripPrefix(s: string, prefix: string): Option<string> {
    if prefix <= s then Some(s[|prefix|..]) else None
  }

  /** The pieces between separators. */
  function Split(s: string, sep: char): seq<string> {
    if s == [] then [""]
    else
      var rest := Split(s[1..], sep);
      if s[0] == sep then [""] + rest
      else if rest == [] then [[s[0]]]
      else [[s[0]] + rest[0]] + rest[1..]
  }

  /** The text before and after the first separator. */
  function SplitOnce(s: string, sep: char): Option<(string, string)> {
    if s == [] then None
    else if s[0] == sep then Some(([], s[1..]))
    else match SplitOnce(s[1..], sep)
      case None => None
      case Some(p) => Some(([s[0]] + p.0, p.1))
  }

  // ------------------------------------------------------------ member lists

  function ReadMember(piece: string): Option<RawMember> {
    match StripPrefix(piece, "component:")
    case Some(name) => Some(ComponentRef(name))
    case None => match ParseTag(piece) case Some(t) => Some(TagMember(t)) case None => None
  }

  /** The pieces that are not empty, read; the error is the first that does not read. */
  function ReadPieces(pieces: seq<string>): Parsed<seq<RawMember>, string> {
    if pieces == [] then Good([])
    else if pieces[0] == [] then ReadPieces(pieces[1..])
    else match ReadMember(pieces[0])
      case None => Bad(pieces[0])
      case Some(m) => match ReadPieces(pieces[1..])
        case Good(ms) => Good([m] + ms)
        case Bad(e) => Bad(e)
  }

  function MemberList(word: string): Parsed<seq<RawMember>, string> {
    ReadPieces(Split(word, ','))
  }

  // ------------------------------------------------------------ the words after a message's name

  datatype MessageWord = Ordered | Req(list: string) | Opt(list: string) | Other

  function MessageWordOf(word: string): MessageWord {
    if word == "ordered" then Ordered
    else match StripPrefix(word, "req:")
      case Some(list) => Req(list)
      case None => match StripPrefix(word, "opt:") case Some(list) => Opt(list) case None => Other
  }

  datatype Modifiers = Modifiers(required: seq<RawMember>, optional: seq<RawMember>, ordered: bool)

  function AddModifier(m: Modifiers, word: string): Parsed<Modifiers, string> {
    match MessageWordOf(word)
    case Ordered => Good(m.(ordered := true))
    case Req(list) => (match MemberList(list) case Good(ms) => Good(m.(required := ms)) case Bad(e) => Bad(e))
    case Opt(list) => (match MemberList(list) case Good(ms) => Good(m.(optional := ms)) case Bad(e) => Bad(e))
    case Other => Good(m)
  }

  /** A later list of the same kind replaces an earlier one. */
  function ReadModifiers(words: seq<string>): Parsed<Modifiers, string> {
    if words == [] then Good(Modifiers([], [], false))
    else match ReadModifiers(words[..|words| - 1])
      case Bad(e) => Bad(e)
      case Good(m) => AddModifier(m, words[|words| - 1])
  }

  method ScanModifiers(words: seq<string>) returns (r: Parsed<Modifiers, string>)
    ensures r == ReadModifiers(words)
  {
    var required, optional, ordered := [], [], false;
    for i := 0 to |words|
      invariant ReadModifiers(words[..i]) == Good(Modifiers(required, optional, ordered))
    {
      assert words[..i + 1][..i] == words[..i];
      match MessageWordOf(words[i]) {
        case Ordered => ordered := true;
        case Req(list) =>
          var ms := MemberList(list);
          if ms.Bad? {
            ModifiersStop(words, i + 1);
            return Bad(ms.error);
          }
          required := ms.value;
        case Opt(list) =>
          var ms := MemberList(list);
          if ms.Bad? {
            ModifiersStop(words, i + 1);
            return Bad(ms.error);
          }
          optional := ms.value;
        case Other =>
      }
    }
    assert words[..|words|] == words;
    r := Good(Modifiers(required, optional, ordered));
  }

  /** The first bad list decides. */
  lemma {:induction false} ModifiersStop(words: seq<string>, i: nat)
    requires i <= |words| && ReadModifiers(words[..i]).Bad?
    ensures ReadModifiers(words) == ReadModifiers(words[..i])
    decreases |words|
  {
    if i == |words| {
      assert words[..i] == words;
    } else {
      var init := words[..|words| - 1];
      assert init[..i] == words[..i];
      ModifiersStop(init, i);
    }
  }
}

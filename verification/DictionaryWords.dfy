/** The words of a dictionary line, said by what they spell: which texts are tags, member lists and modifiers, and what
    they stand for. Both readers rest on these. */
module DictionaryWords {
  import opened Decimal
  import opened FieldMaps
  import opened Components
  import opened DictionaryLines

  // ------------------------------------------------------------ texts

  /** Bytes as characters. */
  function Text(bytes: seq<Byte>): (s: string)
    ensures |s| == |bytes| && forall i :: 0 <= i < |bytes| ==> s[i] == bytes[i] as char
  {
    seq(|bytes|, i requires 0 <= i < |bytes| => bytes[i] as char)
  }

  /** The text of a number: its digits, perhaps behind zeros and a `+`. */
  ghost predicate IsNumber(word: string, n: nat) {
    exists bytes: seq<Byte> :: word == Text(bytes) && (IsNumeral(bytes, n) || ([PLUS] <= bytes && IsNumeral(bytes[1..], n)))
  }

  ghost predicate IsTag(word: string, t: Tag) {
    t <= U32_MAX && IsNumber(word, t)
  }

  function Bytes(word: string): (bytes: seq<Byte>)
    ensures |bytes| == |word| && forall i :: 0 <= i < |word| ==> bytes[i] == ByteOf(word[i])
  {
    seq(|word|, i requires 0 <= i < |word| => ByteOf(word[i]))
  }

  lemma NumeralIsAscii(bytes: seq<Byte>, n: nat)
    requires IsNumeral(bytes, n) || ([PLUS] <= bytes && IsNumeral(bytes[1..], n))
    ensures bytes != [] && forall i :: 0 <= i < |bytes| ==> 43 <= bytes[i] <= 57
  {
    if IsNumeral(bytes, n) {
      DigitsAreNumerals(bytes, n);
    } else {
      DigitsAreNumerals(bytes[1..], n);
      forall i | 0 <= i < |bytes| ensures 43 <= bytes[i] <= 57 {
        if i > 0 { assert IsDigit(bytes[1..][i - 1]); }
      }
    }
  }

  lemma ParseNumberExactly(word: string, max: nat, n: nat)
    ensures ParseNumber(word, max) == Some(n) <==> n <= max && IsNumber(word, n)
  {
    hide ParseUnsigned;
    hide IsNumeral;
    var bytes := Bytes(word);
    assert ParseNumber(word, max) == ParseUnsigned(bytes, max);
    ParseUnsignedExactly(bytes, max, n);
    if ParseNumber(word, max) == Some(n) {
      NumeralIsAscii(bytes, n);
      assert word == Text(bytes);
    }
    if IsNumber(word, n) {
      var other: seq<Byte> :| word == Text(other) && (IsNumeral(other, n) || ([PLUS] <= other && IsNumeral(other[1..], n)));
      NumeralIsAscii(other, n);
      assert other == bytes;
    }
  }

  lemma ParseTagExactly(word: string, t: Tag)
    ensures ParseTag(word) == Some(t) <==> IsTag(word, t)
  {
    ParseNumberExactly(word, U32_MAX, t);
  }

  lemma StripPrefixExactly(s: string, prefix: string, rest: string)
    ensures StripPrefix(s, prefix) == Some(rest) <==> s == prefix + rest
  {
    if prefix <= s { assert s == prefix + s[|prefix|..]; }
    if s == prefix + rest { assert s[|prefix|..] == rest; }
  }

  /** The text is cut at its first separator. */
  lemma {:induction false} SplitOnceExactly(s: string, sep: char)
    ensures SplitOnce(s, sep).None? <==> sep !in s
    ensures SplitOnce(s, sep).Some? ==>
              var p := SplitOnce(s, sep).value; s == p.0 + [sep] + p.1 && sep !in p.0
  {
    if s != [] {
      SplitOnceExactly(s[1..], sep);
      assert s == [s[0]] + s[1..];
    }
  }

  function Joined(pieces: seq<string>, sep: char): (s: string)
    requires pieces != []
  {
    if |pieces| == 1 then pieces[0] else pieces[0] + [sep] + Joined(pieces[1..], sep)
  }

  ghost predicate Unbroken(pieces: seq<string>, sep: char) {
    forall i :: 0 <= i < |pieces| ==> sep !in pieces[i]
  }

  /** Splitting and joining undo each other. */
  lemma {:induction false} SplitJoins(s: string, sep: char)
    ensures Split(s, sep) != [] && Unbroken(Split(s, sep), sep) && Joined(Split(s, sep), sep) == s
  {
    if s != [] {
      var rest, all := Split(s[1..], sep), Split(s, sep);
      SplitJoins(s[1..], sep);
      assert s == [s[0]] + s[1..];
      if s[0] == sep {
        assert all[1..] == rest;
      } else {
        assert all[1..] == rest[1..];
        if |rest| > 1 { assert s == [s[0]] + (rest[0] + [sep] + Joined(rest[1..], sep)); }
      }
    }
  }

  lemma {:induction false} JoinSplits(pieces: seq<string>, sep: char)
    requires pieces != [] && Unbroken(pieces, sep)
    ensures Split(Joined(pieces, sep), sep) == pieces
    decreases |pieces|, |pieces[0]|
  {
    var first := pieces[0];
    if first == "" {
      if |pieces| > 1 {
        var s := Joined(pieces, sep);
        JoinSplits(pieces[1..], sep);
        assert s[0] == sep && s[1..] == Joined(pieces[1..], sep);
        assert pieces == [""] + pieces[1..];
      } else {
        assert pieces == [""];
      }
    } else {
      var less := [first[1..]] + pieces[1..];
      forall i | 0 <= i < |less| ensures sep !in less[i] {
        if i > 0 { assert less[i] == pieces[i]; }
      }
      JoinSplits(less, sep);
      var s := Joined(pieces, sep);
      assert less[1..] == pieces[1..];
      assert s == [first[0]] + Joined(less, sep);
      assert s[0] == first[0] && s[1..] == Joined(less, sep);
      assert first[0] in first && first[0] != sep;
      assert first == [first[0]] + first[1..];
      assert pieces == [[first[0]] + less[0]] + less[1..];
    }
  }

  // ------------------------------------------------------------ member lists

  ghost predicate SpellsMember(piece: string, m: RawMember) {
    match m
    case TagMember(t) => IsTag(piece, t)
    case ComponentRef(n) => piece == "component:" + n
  }

  lemma TagIsNoComponent(piece: string, t: Tag)
    requires IsTag(piece, t)
    ensures !("component:" <= piece)
  {
    var bytes: seq<Byte> :| piece == Text(bytes) && (IsNumeral(bytes, t) || ([PLUS] <= bytes && IsNumeral(bytes[1..], t)));
    NumeralIsAscii(bytes, t);
    assert piece[0] == bytes[0] as char;
    assert piece[0] as int <= 57;
    assert "component:"[0] == 'c';
  }

  lemma ReadMemberExactly(piece: string, m: RawMember)
    ensures ReadMember(piece) == Some(m) <==> SpellsMember(piece, m)
  {
    hide ParseTag;
    hide IsTag;
    match m
    case TagMember(t) =>
      ParseTagExactly(piece, t);
      if IsTag(piece, t) { TagIsNoComponent(piece, t); }
    case ComponentRef(n) => StripPrefixExactly(piece, "component:", n);
  }

  /** The pieces that are not empty. */
  function Filled(pieces: seq<string>): (r: seq<string>) {
    if pieces == [] then [] else (if pieces[0] == "" then [] else [pieces[0]]) + Filled(pieces[1..])
  }

  ghost predicate SpellMembers(pieces: seq<string>, ms: seq<RawMember>) {
    |pieces| == |ms| && forall i :: 0 <= i < |ms| ==> SpellsMember(pieces[i], ms[i])
  }

  /** A comma-separated list of members; empty pieces do not count. */
  ghost predicate SpellsList(word: string, ms: seq<RawMember>) {
    exists pieces :: pieces != [] && Unbroken(pieces, ',') && word == Joined(pieces, ',') && SpellMembers(Filled(pieces), ms)
  }

  lemma SpellMembersCons(piece: string, rest: seq<string>, ms: seq<RawMember>)
    ensures SpellMembers([piece] + rest, ms) <==>
            ms != [] && SpellsMember(piece, ms[0]) && SpellMembers(rest, ms[1..])
  {
    hide SpellsMember;
    var all := [piece] + rest;
    assert forall i :: 0 <= i < |rest| ==> all[i + 1] == rest[i];
    if ms != [] && SpellMembers(all, ms) {
      forall i | 0 <= i < |rest| ensures SpellsMember(rest[i], ms[1..][i]) {
        assert SpellsMember(all[i + 1], ms[i + 1]);
      }
    }
    if ms != [] && SpellsMember(piece, ms[0]) && SpellMembers(rest, ms[1..]) {
      forall i | 0 <= i < |all| ensures SpellsMember(all[i], ms[i]) {
        if i > 0 { assert SpellsMember(rest[i - 1], ms[1..][i - 1]); }
      }
    }
  }

  lemma {:induction false} ReadPiecesExactly(pieces: seq<string>, ms: seq<RawMember>)
    ensures ReadPieces(pieces) == Good(ms) <==> SpellMembers(Filled(pieces), ms)
  {
    hide ReadMember;
    hide SpellsMember;
    if pieces != [] {
      var rest := pieces[1..];
      if pieces[0] == "" {
        ReadPiecesExactly(rest, ms);
        assert [] + Filled(rest) == Filled(rest);
      } else {
        hide SpellMembers;
        SpellMembersCons(pieces[0], Filled(rest), ms);
        if ms != [] {
          ReadMemberExactly(pieces[0], ms[0]);
          ReadPiecesExactly(rest, ms[1..]);
          assert ms == [ms[0]] + ms[1..];
        }
        if ReadPieces(rest).Good? && ReadMember(pieces[0]).Some? {
          var all := [ReadMember(pieces[0]).value] + ReadPieces(rest).value;
          assert all[1..] == ReadPieces(rest).value;
        }
      }
    }
  }

  ghost predicate Spelled(piece: string) {
    exists m :: SpellsMember(piece, m)
  }

  ghost predicate FirstUnspelled(pieces: seq<string>, i: nat)
    requires i < |pieces|
  {
    !Spelled(pieces[i]) && forall j :: 0 <= j < i ==> Spelled(pieces[j])
  }

  lemma ReadMemberSpelled(piece: string)
    ensures ReadMember(piece).Some? <==> Spelled(piece)
  {
    hide ReadMember;
    hide SpellsMember;
    forall m ensures ReadMember(piece) == Some(m) <==> SpellsMember(piece, m) { ReadMemberExactly(piece, m); }
    if ReadMember(piece).Some? { assert SpellsMember(piece, ReadMember(piece).value); }
  }

  /** The word a bad list is refused for: the first piece that spells no member. */
  lemma {:induction false} ReadPiecesRefuses(pieces: seq<string>) returns (i: nat)
    requires ReadPieces(pieces).Bad?
    ensures i < |Filled(pieces)| && Filled(pieces)[i] == ReadPieces(pieces).error && FirstUnspelled(Filled(pieces), i)
  {
    hide ReadMember;
    hide Spelled;
    var rest := pieces[1..];
    if pieces[0] == "" {
      i := ReadPiecesRefuses(rest);
      assert [] + Filled(rest) == Filled(rest);
    } else {
      var all := [pieces[0]] + Filled(rest);
      ReadMemberSpelled(pieces[0]);
      i := 0;
      if ReadMember(pieces[0]).Some? {
        i := ReadPiecesRefuses(rest);
        assert all[i + 1] == Filled(rest)[i];
        forall j | 0 <= j < i + 1 ensures Spelled(all[j]) {
          if j > 0 { assert all[j] == Filled(rest)[j - 1]; }
        }
        i := i + 1;
      }
    }
  }

  /** A list is read as what it spells, and one that spells none is refused. */
  lemma MemberListExactly(word: string, ms: seq<RawMember>)
    ensures MemberList(word) == Good(ms) <==> SpellsList(word, ms)
  {
    hide SpellMembers;
    hide ReadPieces;
    SplitJoins(word, ',');
    ReadPiecesExactly(Split(word, ','), ms);
    if SpellsList(word, ms) {
      var pieces :| pieces != [] && Unbroken(pieces, ',') && word == Joined(pieces, ',') && SpellMembers(Filled(pieces), ms);
      JoinSplits(pieces, ',');
    }
  }

  // ------------------------------------------------------------ words with a prefix, the last of which counts

  /** `ms` is what the last word with the prefix lists; without one it is empty. */
  ghost predicate LastList(words: seq<string>, prefix: string, ms: seq<RawMember>) {
    || (exists i :: 0 <= i < |words| && LastWith(words, prefix, i) && SpellsList(words[i][|prefix|..], ms))
    || (ms == [] && forall i :: 0 <= i < |words| ==> !(prefix <= words[i]))
  }

  ghost predicate LastWith(words: seq<string>, prefix: string, i: nat)
    requires i < |words|
  {
    prefix <= words[i] && forall j :: i < j < |words| ==> !(prefix <= words[j])
  }

  /** Every word with the prefix is followed by a list. */
  ghost predicate ListsSpelled(words: seq<string>, prefix: string) {
    forall i :: 0 <= i < |words| && prefix <= words[i] ==> exists ms :: SpellsList(words[i][|prefix|..], ms)
  }

  lemma LastListSnoc(words: seq<string>, prefix: string, word: string, ms: seq<RawMember>)
    ensures LastList(words + [word], prefix, ms) <==>
            if prefix <= word then SpellsList(word[|prefix|..], ms) else LastList(words, prefix, ms)
  {
    hide SpellsList;
    var all := words + [word];
    assert all[|words|] == word && forall i :: 0 <= i < |words| ==> all[i] == words[i];
    if prefix <= word {
      assert LastWith(all, prefix, |words|);
      if LastList(all, prefix, ms) {
        var i :| 0 <= i < |all| && LastWith(all, prefix, i) && SpellsList(all[i][|prefix|..], ms);
        assert i == |words|;
      }
    } else {
      forall i | 0 <= i < |words| ensures LastWith(all, prefix, i) <==> LastWith(words, prefix, i) {
      }
      if LastList(words, prefix, ms) {
        if i :| 0 <= i < |words| && LastWith(words, prefix, i) && SpellsList(words[i][|prefix|..], ms) {
          assert LastWith(all, prefix, i) && SpellsList(all[i][|prefix|..], ms);
        }
      }
    }
  }

  lemma ListsSpelledSnoc(words: seq<string>, prefix: string, word: string)
    ensures ListsSpelled(words + [word], prefix) <==>
            ListsSpelled(words, prefix) && (prefix <= word ==> exists ms :: SpellsList(word[|prefix|..], ms))
  {
    hide SpellsList;
    var all := words + [word];
    assert all[|words|] == word && forall i :: 0 <= i < |words| ==> all[i] == words[i];
  }

  lemma ListSpelled(word: string)
    ensures MemberList(word).Good? <==> exists ms :: SpellsList(word, ms)
    ensures MemberList(word).Good? ==> SpellsList(word, MemberList(word).value)
    ensures forall ms :: SpellsList(word, ms) ==> MemberList(word) == Good(ms)
  {
    hide MemberList;
    hide SpellsList;
    forall ms ensures MemberList(word) == Good(ms) <==> SpellsList(word, ms) { MemberListExactly(word, ms); }
    if MemberList(word).Good? { assert SpellsList(word, MemberList(word).value); }
  }

  /** The words after a message's name: both kinds of list spelled wherever given, the last of each kind kept, and
      `ordered` anywhere among them. */
  ghost predicate SpellsModifiers(words: seq<string>, m: Modifiers) {
    && ListsSpelled(words, "req:") && ListsSpelled(words, "opt:")
    && LastList(words, "req:", m.required) && LastList(words, "opt:", m.optional)
    && (m.ordered <==> "ordered" in words)
  }

  lemma PrefixesDiffer(word: string)
    ensures !("req:" <= word && "opt:" <= word)
    ensures word == "ordered" ==> !("req:" <= word) && !("opt:" <= word)
  {
    if "req:" <= word { assert word[0] == "req:"[0] == 'r'; }
    if "opt:" <= word { assert word[0] == "opt:"[0] == 'o' && word[1] == "opt:"[1] == 'p'; }
    if word == "ordered" { assert word[0] == 'o' && word[1] == 'r'; }
  }

  lemma {:induction false} ReadModifiersExactly(words: seq<string>)
    ensures ReadModifiers(words).Good? <==> ListsSpelled(words, "req:") && ListsSpelled(words, "opt:")
    ensures ReadModifiers(words).Good? ==> SpellsModifiers(words, ReadModifiers(words).value)
  {
    hide ListsSpelled;
    hide LastList;
    if words == [] {
      NoLists();
    } else {
      var init, word := words[..|words| - 1], words[|words| - 1];
      assert words == init + [word];
      ReadModifiersExactly(init);
      PrefixesDiffer(word);
      ListsSpelledSnoc(init, "req:", word);
      ListsSpelledSnoc(init, "opt:", word);
      assert "ordered" in words <==> "ordered" in init || word == "ordered";
      if ReadModifiers(init).Good? {
        ModifierAdded(init, word, ReadModifiers(init).value);
      }
    }
  }

  lemma NoLists()
    ensures ListsSpelled([], "req:") && ListsSpelled([], "opt:") && LastList([], "req:", []) && LastList([], "opt:", [])
  {
  }

  lemma ModifierAdded(init: seq<string>, word: string, m: Modifiers)
    requires SpellsModifiers(init, m)
    ensures var r := AddModifier(m, word);
            && (r.Good? <==> ("req:" <= word ==> exists ms :: SpellsList(word[4..], ms))
                             && ("opt:" <= word ==> exists ms :: SpellsList(word[4..], ms)))
            && (r.Good? ==> LastList(init + [word], "req:", r.value.required) && LastList(init + [word], "opt:", r.value.optional)
                            && r.value.ordered == (m.ordered || word == "ordered"))
  {
    hide ListsSpelled;
    hide LastList;
    hide SpellsList;
    hide MemberList;
    PrefixesDiffer(word);
    var r := AddModifier(m, word);
    if "req:" <= word || "opt:" <= word { ListSpelled(word[4..]); }
    if r.Good? {
      LastListSnoc(init, "req:", word, r.value.required);
      LastListSnoc(init, "opt:", word, r.value.optional);
    }
  }

  // ------------------------------------------------------------ which piece a list is refused for

  /** `piece` is the first piece of the list, empty ones aside, that spells no member. */
  ghost predicate RefusedAt(word: string, piece: string) {
    exists pieces, i: nat ::
      && pieces != [] && Unbroken(pieces, ',') && word == Joined(pieces, ',')
      && i < |Filled(pieces)| && Filled(pieces)[i] == piece && FirstUnspelled(Filled(pieces), i)
  }

  lemma MemberListRefuses(word: string)
    requires MemberList(word).Bad?
    ensures RefusedAt(word, MemberList(word).error)
  {
    hide FirstUnspelled;
    hide ReadPieces;
    SplitJoins(word, ',');
    var i := ReadPiecesRefuses(Split(word, ','));
  }

  ghost predicate IsList(word: string) {
    "req:" <= word || "opt:" <= word
  }

  /** Modifiers are refused for the first of their lists that is. */
  lemma {:induction false} ReadModifiersRefuses(words: seq<string>) returns (k: nat)
    requires ReadModifiers(words).Bad?
    ensures k < |words| && ReadModifiers(words[..k]).Good? && IsList(words[k]) && RefusedAt(words[k][4..], ReadModifiers(words).error)
  {
    hide MemberList;
    hide RefusedAt;
    var init, word := words[..|words| - 1], words[|words| - 1];
    if ReadModifiers(init).Bad? {
      k := ReadModifiersRefuses(init);
      assert init[..k] == words[..k];
    } else {
      k := |words| - 1;
      PrefixesDiffer(word);
      MemberListRefuses(word[4..]);
    }
  }
}

/** The framer's verdict on every buffer, said by the shape of the bytes: what a complete frame is, byte for byte, and
    which buffers are refused or need more. */
module FrameShape {
  import opened Decimal
  import opened Framing
  import opened FramePrinter

  // ----- UTF-8

  /** The code points other than surrogates. */
  predicate IsScalar(c: nat) {
    c < 0xD800 || 0xE000 <= c < 0x11_0000
  }

  /** The encoding of one code point. */
  function Encoded(c: nat): (s: seq<Byte>)
    requires IsScalar(c)
    ensures 0 < |s|
  {
    if c < 0x80 then [c]
    else if c < 0x800 then [0xC0 + c / 64, 0x80 + c % 64]
    else if c < 0x1_0000 then [0xE0 + c / 4096, 0x80 + c / 64 % 64, 0x80 + c % 64]
    else [0xF0 + c / 0x4_0000, 0x80 + c / 4096 % 64, 0x80 + c / 64 % 64, 0x80 + c % 64]
  }

  ghost predicate AllScalar(cs: seq<nat>) {
    forall i :: 0 <= i < |cs| ==> IsScalar(cs[i])
  }

  function EncodedText(cs: seq<nat>): (s: seq<Byte>)
    requires AllScalar(cs)
  {
    if cs == [] then [] else Encoded(cs[0]) + EncodedText(cs[1..])
  }

  lemma Utf8Step(c: nat, rest: seq<Byte>)
    requires IsScalar(c) && IsUtf8(rest)
    ensures IsUtf8(Encoded(c) + rest)
  {
    var s := Encoded(c) + rest;
    assert s[|Encoded(c)|..] == rest;
    if c >= 0x1_0000 {
      assert c / 0x4_0000 <= 4;
      assert c / 0x4_0000 == c / 4096 / 64;
    } else if c >= 0x800 {
      assert c / 4096 == c / 64 / 64;
    }
  }

  lemma Base64(q: nat, a: nat, b: nat)
    requires a < 64 && b < 64
    ensures (q * 64 + a) * 64 + b == q * 4096 + a * 64 + b
    ensures (q * 4096 + a * 64 + b) / 64 == q * 64 + a && (q * 4096 + a * 64 + b) % 64 == b
    ensures (q * 4096 + a * 64 + b) / 4096 == q
    ensures (q * 64 + a) % 64 == a
  {
  }

  /** The first code point of a well-formed text. */
  lemma Utf8Head(s: seq<Byte>) returns (c: nat)
    requires s != [] && IsUtf8(s)
    ensures IsScalar(c) && Encoded(c) <= s && IsUtf8(s[|Encoded(c)|..])
  {
    if s[0] < 0x80 {
      c := s[0];
    } else if s[0] <= 0xDF {
      var q: nat, a: nat := s[0] - 0xC0, s[1] - 0x80;
      c := q * 64 + a;
      assert c / 64 == q && c % 64 == a;
    } else if s[0] <= 0xEF {
      c := Three(s);
    } else {
      c := Four(s);
    }
  }

  lemma Three(s: seq<Byte>) returns (c: nat)
    requires s != [] && IsUtf8(s) && 0xE0 <= s[0] <= 0xEF
    ensures IsScalar(c) && |Encoded(c)| == 3 && Encoded(c) <= s
  {
    var q: nat, a: nat, b: nat := s[0] - 0xE0, s[1] - 0x80, s[2] - 0x80;
    c := q * 4096 + a * 64 + b;
    Base64(q, a, b);
    assert 0x800 <= c < 0x1_0000;
    assert Encoded(c) == [s[0], s[1], s[2]];
  }

  lemma Four(s: seq<Byte>) returns (c: nat)
    requires s != [] && IsUtf8(s) && 0xF0 <= s[0] <= 0xF4
    ensures IsScalar(c) && |Encoded(c)| == 4 && Encoded(c) <= s
  {
    var p: nat, q: nat, a: nat, b: nat := s[0] - 0xF0, s[1] - 0x80, s[2] - 0x80, s[3] - 0x80;
    c := (p * 64 + q) * 4096 + a * 64 + b;
    Base64(p * 64 + q, a, b);
    assert 0x1_0000 <= c < 0x11_0000;
    assert c / 0x4_0000 == c / 4096 / 64 == p;
    assert Encoded(c) == [s[0], s[1], s[2], s[3]];
  }

  /** The texts `from_utf8` takes are exactly the encodings of code points. */
  lemma {:induction false} Utf8Exactly(s: seq<Byte>)
    ensures IsUtf8(s) <==> exists cs :: AllScalar(cs) && s == EncodedText(cs)
  {
    if IsUtf8(s) { var cs := Utf8Decoded(s); }
    if cs :| AllScalar(cs) && s == EncodedText(cs) { EncodedIsUtf8(cs); }
  }

  lemma {:induction false} Utf8Decoded(s: seq<Byte>) returns (cs: seq<nat>)
    requires IsUtf8(s)
    ensures AllScalar(cs) && s == EncodedText(cs)
    decreases |s|
  {
    hide IsUtf8;
    if s == [] {
      cs := [];
    } else {
      var c := Utf8Head(s);
      var rest := Utf8Decoded(s[|Encoded(c)|..]);
      cs := [c] + rest;
      assert cs[1..] == rest;
      assert s == Encoded(c) + s[|Encoded(c)|..];
    }
  }

  lemma {:induction false} EncodedIsUtf8(cs: seq<nat>)
    requires AllScalar(cs)
    ensures IsUtf8(EncodedText(cs))
  {
    if cs != [] {
      EncodedIsUtf8(cs[1..]);
      Utf8Step(cs[0], EncodedText(cs[1..]));
    }
  }

  // ----- the shape of a frame

  /** `FIX.` or `FIXT.`, a digit, a dot, a digit and any more text. */
  ghost predicate IsBegin(begin: seq<Byte>) {
    IsUtf8(begin) && exists a: Byte, b: Byte, more: seq<Byte> ::
      IsDigit(a) && IsDigit(b)
      && (begin == [70, 73, 88, 46] + [a, 46, b] + more || begin == [70, 73, 88, 84, 46] + [a, 46, b] + more)
  }

  /** A number as `usize` parses it. */
  ghost predicate IsLength(digits: seq<Byte>, n: nat) {
    n <= USIZE_MAX && (IsNumeral(digits, n) || ([PLUS] <= digits && IsNumeral(digits[1..], n)))
  }

  ghost predicate IsTrailer(s: seq<Byte>) {
    exists sum: seq<Byte> :: |sum| == 3 && s == [49, 48, 61] + sum + [SOH]
  }

  /** A frame: BeginString, BodyLength, a body of that length and the trailer. */
  ghost predicate IsFrame(s: seq<Byte>, begin: seq<Byte>, digits: seq<Byte>, body: seq<Byte>, trailer: seq<Byte>) {
    && SOH !in begin && IsBegin(begin) && SOH !in digits && IsLength(digits, |body|)
    && 1 <= |body| <= MAX_BODY_LEN && IsTrailer(trailer)
    && s == Opening(begin, digits) + body + trailer
  }

  lemma BeginLooks(begin: seq<Byte>)
    ensures LooksLikeBeginString(begin) <==> IsBegin(begin)
  {
    hide IsUtf8;
    if LooksLikeBeginString(begin) {
      var k := if FIXT_DOT <= begin then 5 else 4;
      var rest := begin[k..];
      assert begin[..k] == if k == 5 then [70, 73, 88, 84, 46] else [70, 73, 88, 46];
      assert begin == begin[..k] + [rest[0], 46, rest[2]] + rest[3..];
    }
    if IsBegin(begin) {
      var a: Byte, b: Byte, more: seq<Byte> :|
        IsDigit(a) && IsDigit(b)
        && (begin == [70, 73, 88, 46] + [a, 46, b] + more || begin == [70, 73, 88, 84, 46] + [a, 46, b] + more);
      if begin == [70, 73, 88, 46] + [a, 46, b] + more {
        assert begin[3] == 46 && begin[4..] == [a, 46, b] + more;
      } else {
        assert begin[5..] == [a, 46, b] + more;
      }
    }
  }

  lemma TrailerLooks(s: seq<Byte>)
    requires |s| == 7
    ensures IsTrailer(s) <==> s[..3] == [49, 48, 61] && s[6] == SOH
  {
    if s[..3] == [49, 48, 61] && s[6] == SOH {
      assert s == [49, 48, 61] + s[3..6] + [SOH];
    }
  }

  /** `8=` and a BeginString. */
  ghost predicate OpensFrame(head: seq<Byte>) {
    [56, 61] <= head && IsBegin(head[2..])
  }

  ghost predicate GivesLength(field: seq<Byte>, n: nat) {
    [57, 61] <= field && IsLength(field[2..], n)
  }

  lemma LengthRead(field: seq<Byte>, bodyStart: nat)
    ensures var h := ReadBodyLength(field, bodyStart);
            && ((forall n: nat :: !GivesLength(field, n)) ==> h == Bad(InvalidBodyLength))
            && (forall n: nat :: GivesLength(field, n) ==>
                  h == if n == 0 then Bad(ZeroBodyLength)
                       else if n > MAX_BODY_LEN then Bad(BodyLengthTooLarge(n))
                       else Good(bodyStart, n))
  {
    hide ParseUnsigned;
    if [57, 61] <= field {
      forall n: nat ensures ParseUnsigned(field[2..], USIZE_MAX) == Some(n) <==> IsLength(field[2..], n) {
        ParseUnsignedExactly(field[2..], USIZE_MAX, n);
      }
      var p := ParseUnsigned(field[2..], USIZE_MAX);
      if p.Some? { assert GivesLength(field, p.value); }
    }
  }

  /** Reading the header of a buffer cut at its first two SOH. */
  lemma HeaderRead(head: seq<Byte>, field: seq<Byte>, more: seq<Byte>)
    requires SOH !in head && SOH !in field
    ensures ReadHeader(head) == NeedMore
    ensures ReadHeader(head + [SOH] + field) == if OpensFrame(head) then NeedMore else Bad(MissingBeginString)
    ensures ReadHeader(head + [SOH] + (field + [SOH] + more)) ==
            if OpensFrame(head) then ReadBodyLength(field, |head| + 1 + |field| + 1) else Bad(MissingBeginString)
  {
    hide LooksLikeBeginString;
    hide ReadBodyLength;
    hide IsBegin;
    HeadRead(head, field);
    HeadRead(head, field + [SOH] + more);
    var after := field + [SOH] + more;
    assert after[..|field|] == field;
    FindUnique(after, SOH, |field|);
  }

  lemma HeadRead(head: seq<Byte>, after: seq<Byte>)
    requires SOH !in head
    ensures ReadHeader(head + [SOH] + after) ==
            if !OpensFrame(head) then Bad(MissingBeginString)
            else match Find(after, SOH)
              case None => NeedMore
              case Some(i) => ReadBodyLength(after[..i], |head| + 1 + i + 1)
  {
    hide LooksLikeBeginString;
    hide ReadBodyLength;
    hide IsBegin;
    var buf := head + [SOH] + after;
    assert buf[..|head|] == head;
    FindUnique(buf, SOH, |head|);
    PrefixAppend(head + [SOH], after, |head|);
    assert buf[|head| + 1..] == after;
    assert [56, 61] <= buf <==> [56, 61] <= head by {
      if [56, 61] <= buf {
        assert buf[0] == 56 && buf[1] == 61;
        assert |head| >= 2 && head[0] == buf[0] && head[1] == buf[1];
      }
      if [56, 61] <= head { assert buf[0] == head[0] && buf[1] == head[1]; }
    }
    if [56, 61] <= head {
      assert |head| >= 2 && buf[2..|head|] == head[2..];
      BeginLooks(head[2..]);
    }
  }

  lemma TrailerRead(pre: seq<Byte>, more: seq<Byte>, n: nat)
    ensures ReadTrailer(pre + more, |pre| + n + 7) ==
            if |more| < n + 7 then Incomplete
            else if !IsTrailer(more[n..n + 7]) then Malformed(InvalidBodyLength)
            else Complete(|pre| + n + 7)
  {
    hide IsTrailer;
    if |more| >= n + 7 {
      var buf, total, t := pre + more, |pre| + n + 7, more[n..n + 7];
      TrailerLooks(t);
      assert buf[total - 7..total - 4] == t[..3] && buf[total - 1] == t[6];
    }
  }

  /** The verdict on every buffer. One without SOH needs more. Cut at its first SOH, it must open a frame; cut at the
      second, the field between must give a length from one to the cap; and behind the body there must be a trailer,
      once all the bytes are there. */
  lemma Verdict(head: seq<Byte>, field: seq<Byte>, more: seq<Byte>)
    requires SOH !in head && SOH !in field && |head| + |field| <= ISIZE_MAX
    ensures FrameLength(head) == Incomplete
    ensures FrameLength(head + [SOH] + field) == if OpensFrame(head) then Incomplete else Malformed(MissingBeginString)
    ensures var verdict := FrameLength(head + [SOH] + (field + [SOH] + more));
            && (!OpensFrame(head) ==> verdict == Malformed(MissingBeginString))
            && (OpensFrame(head) && (forall n: nat :: !GivesLength(field, n)) ==> verdict == Malformed(InvalidBodyLength))
            && (forall n: nat :: OpensFrame(head) && GivesLength(field, n) ==>
                  verdict == if n == 0 then Malformed(ZeroBodyLength)
                             else if n > MAX_BODY_LEN then Malformed(BodyLengthTooLarge(n))
                             else if |more| < n + 7 then Incomplete
                             else if !IsTrailer(more[n..n + 7]) then Malformed(InvalidBodyLength)
                             else Complete(|head| + |field| + 2 + n + 7))
  {
    hide ReadHeader;
    hide ReadBodyLength;
    hide ReadTrailer;
    hide OpensFrame;
    hide GivesLength;
    hide IsTrailer;
    var pre := head + [SOH] + field + [SOH];
    var buf := head + [SOH] + (field + [SOH] + more);
    HeaderRead(head, field, more);
    LengthRead(field, |pre|);
    assert buf == pre + more;
    forall n: nat | OpensFrame(head) && GivesLength(field, n) && 0 < n <= MAX_BODY_LEN
      ensures FrameLength(buf) == if |more| < n + 7 then Incomplete
                                  else if !IsTrailer(more[n..n + 7]) then Malformed(InvalidBodyLength)
                                  else Complete(|pre| + n + 7)
    {
      TrailerRead(pre, more, n);
    }
  }

  /** Every buffer is cut in one of these ways. */
  lemma Cut(buf: seq<Byte>) returns (head: seq<Byte>, field: seq<Byte>, more: Option<seq<Byte>>)
    requires SOH in buf
    ensures SOH !in head && SOH !in field
    ensures buf == head + [SOH] + if more.Some? then field + [SOH] + more.value else field
  {
    hide Find;
    FindsWhereIn(buf, SOH);
    var i := Find(buf, SOH).value;
    var after := buf[i + 1..];
    head := buf[..i];
    assert buf == head + [SOH] + after;
    var j := Find(after, SOH);
    if j.Some? {
      field, more := after[..j.value], Some(after[j.value + 1..]);
      assert after == field + [SOH] + more.value;
    } else {
      field, more := after, None;
    }
  }

  /** A frame is complete exactly when the buffer starts with one, byte for byte. */
  lemma CompleteExactly(buf: seq<Byte>, n: nat)
    requires |buf| <= ISIZE_MAX
    ensures FrameLength(buf) == Complete(n) <==>
            n <= |buf| && exists begin, digits, body, trailer :: IsFrame(buf[..n], begin, digits, body, trailer)
  {
    hide FrameLength;
    if FrameLength(buf) == Complete(n) {
      var begin, digits, body, trailer := FrameOf(buf, n);
    }
    if n <= |buf| {
      if begin, digits, body, trailer :| IsFrame(buf[..n], begin, digits, body, trailer) {
        FrameFramed(begin, digits, body, trailer, buf[n..]);
        assert buf == buf[..n] + buf[n..];
        assert |buf[..n]| == n;
      }
    }
  }

  lemma FrameOf(buf: seq<Byte>, n: nat) returns (begin: seq<Byte>, digits: seq<Byte>, body: seq<Byte>, trailer: seq<Byte>)
    requires |buf| <= ISIZE_MAX && FrameLength(buf) == Complete(n)
    ensures n <= |buf| && IsFrame(buf[..n], begin, digits, body, trailer)
  {
    hide FrameLength;
    hide IsBegin;
    hide IsLength;
    hide IsTrailer;
    if SOH !in buf { Verdict(buf, [], []); }
    var head, field, more := Cut(buf);
    var tail := if more.Some? then more.value else [];
    if more.None? {
      Verdict(head, field, []);
    }
    Verdict(head, field, tail);
    var len: nat :| GivesLength(field, len);
    begin, digits, body, trailer := head[2..], field[2..], tail[..len], tail[len..len + 7];
    assert head == [56, 61] + begin && field == [57, 61] + digits;
    assert tail[..len + 7] == body + trailer;
    assert buf[..n] == Opening(begin, digits) + body + trailer;
    Inside(head, begin);
    Inside(field, digits);
  }

  lemma Inside(s: seq<Byte>, t: seq<Byte>)
    requires SOH !in s && |s| >= 2 && t == s[2..]
    ensures SOH !in t
  {
    assert forall i :: 0 <= i < |t| ==> t[i] == s[i + 2];
  }

  lemma FrameFramed(begin: seq<Byte>, digits: seq<Byte>, body: seq<Byte>, trailer: seq<Byte>, rest: seq<Byte>)
    requires IsFrame(Opening(begin, digits) + body + trailer, begin, digits, body, trailer)
    requires |Opening(begin, digits) + body + trailer + rest| <= ISIZE_MAX
    ensures var s := Opening(begin, digits) + body + trailer; FrameLength(s + rest) == Complete(|s|)
  {
    hide FrameLength;
    hide IsBegin;
    hide IsLength;
    var head, field, more := [56, 61] + begin, [57, 61] + digits, body + trailer + rest;
    assert head[2..] == begin && field[2..] == digits;
    assert GivesLength(field, |body|) && OpensFrame(head);
    assert more[|body|..|body| + 7] == trailer;
    assert Opening(begin, digits) + body + trailer + rest == head + [SOH] + (field + [SOH] + more);
    Verdict(head, field, more);
  }
}

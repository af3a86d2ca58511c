/** Cutting complete FIX messages out of a byte stream (`truefix-core/src/framing.rs`). */
module Framing {
  import opened Decimal

  const SOH: Byte := 1
  const MAX_BODY_LEN: nat := 16 * 1024 * 1024

  datatype DecodeError =
    | MissingBeginString
    | InvalidBodyLength
    | ZeroBodyLength
    | BodyLengthTooLarge(declared: nat)

  /** `Ok(None)`, `Ok(Some(total))` and `Err(error)`. */
  datatype Framed = Incomplete | Complete(total: nat) | Malformed(error: DecodeError)

  /** What the BeginString and BodyLength fields alone tell. */
  datatype Header = NeedMore | Bad(error: DecodeError) | Good(bodyStart: nat, bodyLen: nat)

  /** `memchr`: the first position of `b`. */
  function Find(s: seq<Byte>, b: Byte): (r: Option<nat>)
    ensures r.Some? ==> r.value < |s| && s[r.value] == b && b !in s[..r.value]
    ensures r.None? ==> b !in s
  {
    if s == [] then None
    else if s[0] == b then Some(0)
    else match Find(s[1..], b)
      case None => None
      case Some(i) =>
        assert s[..i + 1] == [s[0]] + s[1..][..i];
        Some(i + 1)
  }

  /** The first position of a byte is where it stands with none before it. */
  lemma FindUnique(s: seq<Byte>, b: Byte, i: nat)
    requires i < |s| && s[i] == b && b !in s[..i]
    ensures Find(s, b) == Some(i)
  {
    assert s[i] in s;
  }

  predicate Continuation(b: Byte) {
    0x80 <= b <= 0xBF
  }

  /** Well-formed UTF-8 (table 3-7 of the Unicode standard). */
  predicate IsUtf8(s: seq<Byte>)
    decreases |s|
  {
    if s == [] then true
    else if s[0] < 0x80 then IsUtf8(s[1..])
    else if 0xC2 <= s[0] <= 0xDF then |s| >= 2 && Continuation(s[1]) && IsUtf8(s[2..])
    else if 0xE0 <= s[0] <= 0xEF then
      && |s| >= 3 && Continuation(s[1]) && Continuation(s[2])
      && (s[0] == 0xE0 ==> s[1] >= 0xA0)
      && (s[0] == 0xED ==> s[1] <= 0x9F)
      && IsUtf8(s[3..])
    else if 0xF0 <= s[0] <= 0xF4 then
      && |s| >= 4 && Continuation(s[1]) && Continuation(s[2]) && Continuation(s[3])
      && (s[0] == 0xF0 ==> s[1] >= 0x90)
      && (s[0] == 0xF4 ==> s[1] <= 0x8F)
      && IsUtf8(s[4..])
    else false
  }

  const FIX_DOT: seq<Byte> := [70, 73, 88, 46]
  const FIXT_DOT: seq<Byte> := [70, 73, 88, 84, 46]

  /** `FIX.<digit>.<digit>` or `FIXT.<digit>.<digit>`, with any suffix. */
  predicate LooksLikeBeginString(value: seq<Byte>) {
    && IsUtf8(value)
    && (FIXT_DOT <= value || FIX_DOT <= value)
    && var rest := value[if FIXT_DOT <= value then 5 else 4..];
       |rest| >= 3 && IsDigit(rest[0]) && rest[1] == 46 && IsDigit(rest[2])
  }

  /** Reading the field `9=...`, the body following at `bodyStart`. */
  function ReadBodyLength(field: seq<Byte>, bodyStart: nat): (h: Header)
    ensures h.Bad? || (h.Good? && h.bodyStart == bodyStart && 0 < h.bodyLen <= MAX_BODY_LEN)
  {
    if !([57, 61] <= field) then Bad(InvalidBodyLength)
    else match ParseUnsigned(field[2..], USIZE_MAX)
      case None => Bad(InvalidBodyLength)
      case Some(n) =>
        if n == 0 then Bad(ZeroBodyLength)
        else if n > MAX_BODY_LEN then Bad(BodyLengthTooLarge(n))
        else Good(bodyStart, n)
  }

  /** Reading `8=...<SOH>9=...<SOH>` at the start of `buf`. */
  function ReadHeader(buf: seq<Byte>): (h: Header)
    ensures h.Good? ==> 2 < h.bodyStart <= |buf| && 0 < h.bodyLen <= MAX_BODY_LEN
  {
    match Find(buf, SOH)
    case None => NeedMore
    case Some(soh1) =>
      if !([56, 61] <= buf) then Bad(MissingBeginString)
      else
        assert buf[0] == 56 && buf[1] == 61;
        if !LooksLikeBeginString(buf[2..soh1]) then Bad(MissingBeginString)
        else
          var after8 := buf[soh1 + 1..];
          match Find(after8, SOH)
          case None => NeedMore
          case Some(soh2) =>
            ReadBodyLength(after8[..soh2], soh1 + 1 + soh2 + 1)
  }

  /** Looking for `10=XXX<SOH>` as the last seven of `total` bytes. */
  function ReadTrailer(buf: seq<Byte>, total: nat): (f: Framed)
    requires total >= 7
    ensures f.Complete? ==> f.total == total <= |buf|
  {
    if |buf| < total then Incomplete
    else if buf[total - 7..total - 4] != [49, 48, 61] then Malformed(InvalidBodyLength)
    else if buf[total - 1] != SOH then Malformed(InvalidBodyLength)
    else Complete(total)
  }

  function Finish(buf: seq<Byte>, h: Header): (f: Framed)
    ensures f.Complete? ==> h.Good? && f.total == h.bodyStart + h.bodyLen + 7 <= |buf|
  {
    match h
    case NeedMore => Incomplete
    case Bad(e) => Malformed(e)
    case Good(bodyStart, n) =>
      // `checked_add`: an overflow of `usize` would be reported as a BodyLength too large.
      if bodyStart + n + 7 > USIZE_MAX then Malformed(BodyLengthTooLarge(n))
      else ReadTrailer(buf, bodyStart + n + 7)
  }

  /** Length of the message at the start of `buf`, if it is all there. */
  function FrameLength(buf: seq<Byte>): (f: Framed)
    ensures f.Complete? ==> 0 < f.total <= |buf|
  {
    Finish(buf, ReadHeader(buf))
  }

  lemma FindAppend(s: seq<Byte>, t: seq<Byte>, b: Byte)
    ensures Find(s, b).Some? ==> Find(s + t, b) == Find(s, b)
  {
    if Find(s, b).Some? {
      var i := Find(s, b).value;
      assert (s + t)[..i] == s[..i];
      FindUnique(s + t, b, i);
    }
  }

  /** Bytes that arrive later cannot make or unmake the `8=` before the first SOH. */
  lemma PrefixAppend(buf: seq<Byte>, ext: seq<Byte>, soh1: nat)
    requires soh1 < |buf| && buf[soh1] == SOH
    ensures [56, 61] <= buf + ext <==> [56, 61] <= buf
  {
    var all := buf + ext;
    if |buf| >= 2 {
      assert all[0] == buf[0] && all[1] == buf[1];
    } else {
      assert soh1 == 0 && all[0] == SOH;
    }
  }

  lemma SlicesAppend(buf: seq<Byte>, ext: seq<Byte>, soh1: nat)
    requires 2 <= soh1 < |buf|
    ensures (buf + ext)[2..soh1] == buf[2..soh1] && (buf + ext)[soh1 + 1..] == buf[soh1 + 1..] + ext
  {
  }

  lemma ReadHeaderAppend(buf: seq<Byte>, ext: seq<Byte>)
    ensures ReadHeader(buf) != NeedMore ==> ReadHeader(buf + ext) == ReadHeader(buf)
  {
    hide Find;
    hide LooksLikeBeginString;
    hide ReadBodyLength;
    var s := Find(buf, SOH);
    if s.Some? {
      var soh1 := s.value;
      FindAppend(buf, ext, SOH);
      PrefixAppend(buf, ext, soh1);
      if [56, 61] <= buf {
        assert buf[0] == 56 && buf[1] == 61;
        SlicesAppend(buf, ext, soh1);
        var after8 := buf[soh1 + 1..];
        FindAppend(after8, ext, SOH);
        if Find(after8, SOH).Some? {
          var soh2 := Find(after8, SOH).value;
          assert (after8 + ext)[..soh2] == after8[..soh2];
        }
      }
    }
  }

  lemma FinishAppend(buf: seq<Byte>, ext: seq<Byte>, h: Header)
    ensures Finish(buf, h) != Incomplete ==> Finish(buf + ext, h) == Finish(buf, h)
  {
    if h.Good? && |buf| >= h.bodyStart + h.bodyLen + 7 {
      var total := h.bodyStart + h.bodyLen + 7;
      assert (buf + ext)[total - 7..total - 4] == buf[total - 7..total - 4];
    }
  }

  /** A verdict, once reached, never changes as more bytes arrive. */
  lemma FrameLengthStable(buf: seq<Byte>, ext: seq<Byte>)
    ensures FrameLength(buf) != Incomplete ==> FrameLength(buf + ext) == FrameLength(buf)
  {
    ReadHeaderAppend(buf, ext);
    FinishAppend(buf, ext, ReadHeader(buf));
  }

  lemma GoodHeaderShape(buf: seq<Byte>) returns (soh1: nat, soh2: nat)
    requires ReadHeader(buf).Good?
    ensures Find(buf, SOH) == Some(soh1) && soh1 < |buf|
    ensures Find(buf[soh1 + 1..], SOH) == Some(soh2) && soh2 < |buf| - soh1 - 1
    ensures ReadHeader(buf).bodyStart == soh1 + 1 + soh2 + 1
  {
    soh1 := Find(buf, SOH).value;
    soh2 := Find(buf[soh1 + 1..], SOH).value;
  }

  lemma FindsWhereIn(s: seq<Byte>, b: Byte)
    requires b in s
    ensures Find(s, b).Some?
  {
  }

  lemma TwoSohDecide(buf: seq<Byte>, soh1: nat)
    requires Find(buf, SOH) == Some(soh1) && soh1 < |buf| && SOH in buf[soh1 + 1..]
    ensures ReadHeader(buf) != NeedMore
  {
    hide Find;
    hide LooksLikeBeginString;
    hide ReadBodyLength;
    FindsWhereIn(buf[soh1 + 1..], SOH);
  }

  /** The header is read from the bytes before the body and from nothing else. */
  lemma ReadHeaderPrefix(buf: seq<Byte>)
    requires ReadHeader(buf).Good?
    ensures ReadHeader(buf[..ReadHeader(buf).bodyStart]) == ReadHeader(buf)
  {
    hide ReadHeader;
    var soh1, soh2 := GoodHeaderShape(buf);
    var p := buf[..soh1 + 1 + soh2 + 1];
    assert p[..soh1] == buf[..soh1];
    FindUnique(p, SOH, soh1);
    assert p[soh1 + 1..][soh2] == buf[soh1 + 1..][soh2] == SOH;
    TwoSohDecide(p, soh1);
    ReadHeaderAppend(p, buf[|p|..]);
    assert p + buf[|p|..] == buf;
  }

  /** No addition overflows for a buffer Rust can hold (at most `isize::MAX` bytes), so
      BodyLengthTooLarge is only ever reported for a declared length beyond the cap. */
  lemma NoAdditionOverflow(buf: seq<Byte>)
    requires |buf| <= 0x7FFF_FFFF_FFFF_FFFF
    ensures FrameLength(buf).Malformed? && FrameLength(buf).error.BodyLengthTooLarge?
            ==> FrameLength(buf).error.declared > MAX_BODY_LEN
  {
    assert ReadHeader(buf).Good? ==> ReadHeader(buf).bodyStart + MAX_BODY_LEN + 7 <= USIZE_MAX;
  }
}

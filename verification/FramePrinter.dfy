/** The wire envelope `8=..|9=..|<middle>10=CCC|` that `truefix-core/src/codec/encode.rs` prints around a
    rendered message and `truefix-at/src/scenarios.rs` prints around raw fields, the acceptance suite's
    checksum corrupter, and what the framer makes of both. */
module FramePrinter {
  import opened Decimal
  import opened Framing
  import opened FrameReader

  const ISIZE_MAX: nat := 0x7FFF_FFFF_FFFF_FFFF
  const FIX44: seq<Byte> := [70, 73, 88, 46, 52, 46, 52]

  function ByteSum(s: seq<Byte>): (n: nat) {
    if s == [] then 0 else ByteSum(s[..|s| - 1]) + s[|s| - 1]
  }

  function Checksum(s: seq<Byte>): (n: nat)
    ensures n < 256
  {
    ByteSum(s) % 256
  }

  /** `8=<begin><SOH>9=<digits><SOH>`. */
  function Opening(begin: seq<Byte>, digits: seq<Byte>): (s: seq<Byte>) {
    [56, 61] + begin + [SOH] + ([57, 61] + digits + [SOH])
  }

  function PreChecksum(begin: seq<Byte>, middle: seq<Byte>): (s: seq<Byte>) {
    Opening(begin, PrintNat(|middle|)) + middle
  }

  function Envelope(begin: seq<Byte>, middle: seq<Byte>): (s: seq<Byte>) {
    var pre := PreChecksum(begin, middle);
    pre + ([49, 48, 61] + Print3(Checksum(pre)) + [SOH])
  }

  /** `tag=value<SOH>` for each field in turn. */
  function RenderFields(fields: seq<(nat, seq<Byte>)>): (s: seq<Byte>) {
    if fields == [] then []
    else PrintNat(fields[0].0) + [61] + fields[0].1 + [SOH] + RenderFields(fields[1..])
  }

  function RawNewOrderSingle(rest: seq<(nat, seq<Byte>)>): (s: seq<Byte>) {
    Envelope(FIX44, RenderFields(rest))
  }

  /** Overwriting the three checksum digits with those of the checksum plus one. */
  function Garbled(raw: seq<Byte>): (s: seq<Byte>)
    ensures |s| == |raw|
  {
    if |raw| < 7 then raw
    else
      var n := |raw|;
      raw[..n - 4] + Print3((Checksum(raw[..n - 7]) + 1) % 256) + raw[n - 1..]
  }

  method SumBytes(raw: array<Byte>, n: nat) returns (sum: nat)
    requires n <= raw.Length
    ensures sum == ByteSum(raw[..n])
  {
    sum := 0;
    for i := 0 to n
      invariant sum == ByteSum(raw[..i])
    {
      assert raw[..i + 1][..i] == raw[..i];
      sum := sum + raw[i];
    }
  }

  method GarbleChecksum(raw: array<Byte>)
    modifies raw
    ensures raw[..] == Garbled(old(raw[..]))
  {
    if raw.Length < 7 {
      return;
    }
    var digitsAt := raw.Length - 4;
    var sum := SumBytes(raw, digitsAt - 3);
    assert raw[..digitsAt - 3] == raw[..][..digitsAt - 3];
    var wrong := Print3((sum % 256 + 1) % 256);
    raw[digitsAt], raw[digitsAt + 1], raw[digitsAt + 2] := wrong[0], wrong[1], wrong[2];
    assert raw[..] == Garbled(old(raw[..]));
  }

  lemma {:induction false} AsciiIsUtf8(s: seq<Byte>)
    requires forall i :: 0 <= i < |s| ==> s[i] < 0x80
    ensures IsUtf8(s)
    decreases |s|
  {
    if s != [] { AsciiIsUtf8(s[1..]); }
  }

  /** What the framer reads off an opening, whatever follows it. */
  lemma ReadHeaderOpening(begin: seq<Byte>, digits: seq<Byte>, rest: seq<Byte>)
    requires SOH !in begin && SOH !in digits
    ensures var opening := Opening(begin, digits);
            ReadHeader(opening + rest) ==
              if !LooksLikeBeginString(begin) then Bad(MissingBeginString)
              else ReadBodyLength([57, 61] + digits, |opening|)
  {
    hide LooksLikeBeginString;
    hide ReadBodyLength;
    var buf := Opening(begin, digits) + rest;
    var soh1 := 2 + |begin|;
    assert buf[..soh1] == [56, 61] + begin;
    FindUnique(buf, SOH, soh1);
    assert buf[2..soh1] == begin;
    var after := buf[soh1 + 1..];
    assert after == [57, 61] + digits + [SOH] + rest;
    assert after[..2 + |digits|] == [57, 61] + digits;
    FindUnique(after, SOH, 2 + |digits|);
  }

  lemma ReadBodyLengthOfPrinted(n: nat, bodyStart: nat)
    requires n <= USIZE_MAX
    ensures ReadBodyLength([57, 61] + PrintNat(n), bodyStart) ==
            if n == 0 then Bad(ZeroBodyLength)
            else if n > MAX_BODY_LEN then Bad(BodyLengthTooLarge(n))
            else Good(bodyStart, n)
  {
    assert ([57, 61] + PrintNat(n))[2..] == PrintNat(n);
    ParseUnsignedPrint(n, USIZE_MAX);
  }

  lemma ReadTrailerAfter(pre: seq<Byte>, digits: seq<Byte>, tail: seq<Byte>)
    requires |digits| == 3
    ensures ReadTrailer(pre + ([49, 48, 61] + digits + [SOH]) + tail, |pre| + 7) == Complete(|pre| + 7)
  {
    var trailer := [49, 48, 61] + digits + [SOH];
    var buf := pre + trailer + tail;
    assert buf[|pre|..|pre| + 3] == trailer[..3] == [49, 48, 61];
    assert buf[|pre| + 6] == trailer[6];
  }

  /** The framer's verdict on every printed envelope, whatever bytes follow it. */
  lemma FrameLengthOfEnvelope(begin: seq<Byte>, middle: seq<Byte>, tail: seq<Byte>)
    requires SOH !in begin && |begin| <= ISIZE_MAX - 64 && |middle| <= ISIZE_MAX
    ensures FrameLength(Envelope(begin, middle) + tail) ==
            if !LooksLikeBeginString(begin) then Malformed(MissingBeginString)
            else if middle == [] then Malformed(ZeroBodyLength)
            else if |middle| > MAX_BODY_LEN then Malformed(BodyLengthTooLarge(|middle|))
            else Complete(|Envelope(begin, middle)|)
  {
    hide LooksLikeBeginString;
    hide ReadHeader;
    hide ReadBodyLength;
    hide ReadTrailer;
    hide Checksum;
    hide Print3;
    hide PrintNat;
    var opening := Opening(begin, PrintNat(|middle|));
    var trailer := [49, 48, 61] + Print3(Checksum(PreChecksum(begin, middle))) + [SOH];
    var buf := Envelope(begin, middle) + tail;
    assert buf == opening + (middle + trailer + tail);
    ReadHeaderOpening(begin, PrintNat(|middle|), middle + trailer + tail);
    ReadBodyLengthOfPrinted(|middle|, |opening|);
    if |middle| <= MAX_BODY_LEN {
      assert |middle| < Pow10(8);
      PrintNatLength(|middle|, 8);
      ReadTrailerAfter(PreChecksum(begin, middle), Print3(Checksum(PreChecksum(begin, middle))), tail);
    }
  }

  /** The acceptance suite's raw frames are framed to exactly their own length. */
  lemma FrameLengthOfRaw(rest: seq<(nat, seq<Byte>)>, tail: seq<Byte>)
    requires 0 < |RenderFields(rest)| <= MAX_BODY_LEN
    ensures FrameLength(RawNewOrderSingle(rest) + tail) == Complete(|RawNewOrderSingle(rest)|)
  {
    hide FrameLength;
    hide Envelope;
    AsciiIsUtf8(FIX44);
    assert FIX44[4..][0] == 52 && FIX44[4..][1] == 46 && FIX44[4..][2] == 52;
    FrameLengthOfEnvelope(FIX44, RenderFields(rest), tail);
  }

  function Pow10(k: nat): (n: nat)
    ensures n > 0
  {
    if k == 0 then 1 else 10 * Pow10(k - 1)
  }

  lemma {:induction false} PrintNatLength(n: nat, k: nat)
    requires k > 0 && n < Pow10(k)
    ensures |PrintNat(n)| <= k
  {
    if n >= 10 {
      assert k > 1;
      PrintNatLength(n / 10, k - 1);
    }
  }

  lemma {:induction false} ByteSumBound(s: seq<Byte>)
    ensures ByteSum(s) <= 255 * |s|
  {
    if s != [] { ByteSumBound(s[..|s| - 1]); }
  }

  /** A raw frame within the cap cannot overflow the `u32` its bytes are summed in. */
  lemma RawSumFitsU32(rest: seq<(nat, seq<Byte>)>)
    requires |RenderFields(rest)| <= MAX_BODY_LEN
    ensures ByteSum(PreChecksum(FIX44, RenderFields(rest))) <= U32_MAX
  {
    var pre := PreChecksum(FIX44, RenderFields(rest));
    ByteSumBound(pre);
    assert Pow10(8) == 100_000_000;
    PrintNatLength(|RenderFields(rest)|, 8);
  }

  /** A corrupted buffer differs from the original in its three digits only, and these are never the
      checksum of what precedes the trailer. */
  lemma GarbledDigitsAreWrong(raw: seq<Byte>)
    requires |raw| >= 7
    ensures var n := |raw|;
            && Garbled(raw)[..n - 4] == raw[..n - 4]
            && Garbled(raw)[n - 1] == raw[n - 1]
            && Garbled(raw)[n - 4..n - 1] != Print3(Checksum(Garbled(raw)[..n - 7]))
  {
    hide Checksum;
    var n := |raw|;
    assert Garbled(raw)[..n - 7] == raw[..n - 4][..n - 7] == raw[..n - 7];
    var c := Checksum(raw[..n - 7]);
    assert Garbled(raw)[n - 4..n - 1] == Print3((c + 1) % 256);
    Print3Injective(c, (c + 1) % 256);
  }

  lemma SameOpening(a: seq<Byte>, b: seq<Byte>)
    requires ReadHeader(a).Good? && a[..ReadHeader(a).bodyStart] <= b
    ensures ReadHeader(b) == ReadHeader(a)
  {
    hide ReadHeader;
    var head := a[..ReadHeader(a).bodyStart];
    ReadHeaderPrefix(a);
    ReadHeaderAppend(head, b[|head|..]);
    assert b == head + b[|head|..];
  }

  /** Corrupting the checksum of a frame does not change how it is framed. */
  lemma GarbledStillFrames(raw: seq<Byte>)
    requires FrameLength(raw) == Complete(|raw|)
    ensures FrameLength(Garbled(raw)) == Complete(|raw|)
  {
    hide ReadHeader;
    hide Checksum;
    hide Print3;
    var n, g := |raw|, Garbled(raw);
    assert g[..n - 4] == raw[..n - 4];
    var bodyStart := ReadHeader(raw).bodyStart;
    assert raw[..bodyStart] == raw[..n - 4][..bodyStart];
    SameOpening(raw, g);
    assert g[n - 7..n - 4] == raw[..n - 4][n - 7..] == raw[n - 7..n - 4];
  }

  /** A printable BeginString and a middle part within the cap. */
  predicate Printable(begin: seq<Byte>, middle: seq<Byte>) {
    && SOH !in begin && |begin| <= ISIZE_MAX - 64 && LooksLikeBeginString(begin)
    && 0 < |middle| <= MAX_BODY_LEN
  }

  /** Printing and framing undo each other on whole streams: envelopes sent back to back come out one by
      one, in whatever chunks and after whatever interruptions they arrive. */
  lemma StreamOfEnvelopes(messages: seq<(seq<Byte>, seq<Byte>)>, frames: seq<seq<Byte>>, events: seq<ReadEvent>)
    requires |frames| == |messages|
    requires forall i :: 0 <= i < |messages| ==>
               Printable(messages[i].0, messages[i].1) && frames[i] == Envelope(messages[i].0, messages[i].1)
    requires Payload(events) == Concat(frames)
    ensures ReadAll(FrameLength, [], events) == (frames, [])
  {
    hide FrameLength;
    hide Envelope;
    forall i | 0 <= i < |frames| ensures FrameLength(frames[i]) == Complete(|frames[i]|) {
      FrameLengthOfEnvelope(messages[i].0, messages[i].1, []);
      assert frames[i] + [] == frames[i];
    }
    FrameLengthIsStable();
    DrainFrames(FrameLength, frames);
    ReadAllIsDrain(FrameLength, [], events);
    assert [] + Payload(events) == Concat(frames);
  }

  // ----- what an envelope says of itself

  lemma {:induction false} ByteSumAppend(a: seq<Byte>, b: seq<Byte>)
    ensures ByteSum(a + b) == ByteSum(a) + ByteSum(b)
    decreases |b|
  {
    if b == [] {
      assert a + b == a;
    } else {
      ByteSumAppend(a, b[..|b| - 1]);
      assert (a + b)[..|a + b| - 1] == a + b[..|b| - 1];
    }
  }

  /** The last seven bytes are a trailer whose digits give the sum of all bytes before it, modulo 256. */
  ghost predicate SumsUp(s: seq<Byte>) {
    && |s| >= 7 && s[|s| - 7..|s| - 4] == [49, 48, 61] && s[|s| - 1] == SOH
    && var digits := s[|s| - 4..|s| - 1];
    && AllDigits(digits) && DigitsValue(digits) == ByteSum(s[..|s| - 7]) % 256
  }

  lemma Print3Value(n: nat)
    requires n < 1000
    ensures DigitsValue(Print3(n)) == n
  {
    var s := Print3(n);
    assert s[..2] == [s[0], s[1]] && s[..2][..1] == [s[0]] && [s[0]][..0] == [];
    assert DigitsValue([s[0]]) == DigitsValue([]) * 10 + n / 100;
    assert DigitsValue(s[..2]) == n / 100 * 10 + n / 10 % 10;
    ThreeDigits(n);
  }

  lemma TrailerSums(pre: seq<Byte>, sum: nat)
    requires sum < 256
    ensures SumsUp(pre + ([49, 48, 61] + Print3(sum) + [SOH])) <==> sum == ByteSum(pre) % 256
  {
    hide Print3;
    var s := pre + ([49, 48, 61] + Print3(sum) + [SOH]);
    assert s[..|s| - 7] == pre && s[|s| - 4..|s| - 1] == Print3(sum);
    assert s[|s| - 7..|s| - 4] == [49, 48, 61];
    Print3Value(sum);
  }

  /** An envelope gives its middle part's length and the right checksum; a corrupted one the wrong one. */
  lemma EnvelopeSumsUp(begin: seq<Byte>, middle: seq<Byte>)
    ensures SumsUp(Envelope(begin, middle)) && !SumsUp(Garbled(Envelope(begin, middle)))
    ensures exists digits, trailer :: IsNumeral(digits, |middle|) && |trailer| == 7
                                      && Envelope(begin, middle) == Opening(begin, digits) + middle + trailer
  {
    hide Print3;
    hide SumsUp;
    hide PrintNat;
    var pre := PreChecksum(begin, middle);
    var c, raw := Checksum(pre), Envelope(begin, middle);
    TrailerSums(pre, c);
    TrailerSums(pre, (c + 1) % 256);
    var n := |raw|;
    assert raw[..n - 7] == pre;
    assert raw[..n - 4] == pre + [49, 48, 61] && raw[n - 1..] == [SOH];
    assert Garbled(raw) == pre + ([49, 48, 61] + Print3((c + 1) % 256) + [SOH]);
    assert (c + 1) % 256 != c;
    var digits, trailer := PrintNat(|middle|), [49, 48, 61] + Print3(c) + [SOH];
    assert IsNumeral(digits, |middle|) by { assert digits == Zeros(0) + PrintNat(|middle|); }
    assert raw == Opening(begin, digits) + middle + trailer;
  }

  // ----- rendered fields can be told apart again

  /** Reading `tag=value<SOH>` fields up to the end. */
  function ReadFields(s: seq<Byte>): (r: Option<seq<(nat, seq<Byte>)>>)
    decreases |s|
  {
    if s == [] then Some([])
    else match Find(s, SOH)
      case None => None
      case Some(end) => match Find(s[..end], 61)
        case None => None
        case Some(eq) => match ParseUnsigned(s[..eq], U32_MAX)
          case None => None
          case Some(tag) => match ReadFields(s[end + 1..])
            case None => None
            case Some(rest) => Some([(tag, s[eq + 1..end])] + rest)
  }

  ghost predicate Tellable(fields: seq<(nat, seq<Byte>)>) {
    forall i :: 0 <= i < |fields| ==> fields[i].0 <= U32_MAX && SOH !in fields[i].1
  }

  lemma {:induction false} FieldsReadBack(fields: seq<(nat, seq<Byte>)>)
    requires Tellable(fields)
    ensures ReadFields(RenderFields(fields)) == Some(fields)
  {
    if fields != [] {
      hide PrintNat;
      hide ParseUnsigned;
      hide Find;
      var tag, value, rest := fields[0].0, fields[0].1, RenderFields(fields[1..]);
      var digits := PrintNat(tag);
      var s := RenderFields(fields);
      var eq, end := |digits|, |digits| + 1 + |value|;
      assert s == digits + [61] + value + [SOH] + rest;
      assert s[..end] == digits + [61] + value && s[..eq] == digits && s[..end][..eq] == digits;
      NoneInDigits(digits);
      FindUnique(s, SOH, end);
      FindUnique(s[..end], 61, eq);
      assert s[end + 1..] == rest && s[eq + 1..end] == value;
      ParseUnsignedPrint(tag, U32_MAX);
      FieldsReadBack(fields[1..]);
      assert [(tag, value)] + fields[1..] == fields;
    }
  }

  lemma NoneInDigits(digits: seq<Byte>)
    requires AllDigits(digits)
    ensures SOH !in digits && 61 !in digits
  {
  }
}

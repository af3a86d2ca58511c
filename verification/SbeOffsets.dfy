/** Whether the fields of an SBE message lie side by side (`validate_offsets` in
    `truefix-dict/src/sbe_schema.rs`). */
module SbeOffsets {
  import opened Decimal

  datatype SbeDataType = UInt8 | UInt16 | UInt32 | Int32 | UInt64 | Int64 | Char

  datatype SbeField = SbeField(name: string, offset: nat, dataType: SbeDataType)

  datatype Overlap = Disjoint | OverlappingOffset(name: string, offset: nat)

  function Width(t: SbeDataType): nat {
    match t
    case UInt8 => 1
    case Char => 1
    case UInt16 => 2
    case UInt32 => 4
    case Int32 => 4
    case UInt64 => 8
    case Int64 => 8
  }

  /** The least and the greatest value of the type; a character is a byte. */
  function Range(t: SbeDataType): (r: (int, int)) {
    match t
    case UInt8 => (0, 0xFF)
    case Char => (0, 0xFF)
    case UInt16 => (0, 0xFFFF)
    case UInt32 => (0, 0xFFFF_FFFF)
    case Int32 => (-0x8000_0000, 0x7FFF_FFFF)
    case UInt64 => (0, 0xFFFF_FFFF_FFFF_FFFF)
    case Int64 => (-0x8000_0000_0000_0000, 0x7FFF_FFFF_FFFF_FFFF)
  }

  function ByteStrings(n: nat): (k: nat) {
    if n == 0 then 1 else 256 * ByteStrings(n - 1)
  }

  /** A value takes as many bytes as it takes to tell all values of its type apart. */
  lemma WidthHoldsRange(t: SbeDataType)
    ensures ByteStrings(Width(t)) == Range(t).1 - Range(t).0 + 1
  {
    assert ByteStrings(2) == 256 * ByteStrings(1) && ByteStrings(4) == 256 * (256 * ByteStrings(2));
    assert ByteStrings(6) == 256 * (256 * ByteStrings(4)) && ByteStrings(8) == 256 * (256 * ByteStrings(6));
  }

  function SaturatingAdd(a: nat, b: nat): nat {
    if a + b > U32_MAX then U32_MAX else a + b
  }

  /** The byte is one of the field's. */
  predicate Occupies(f: SbeField, b: nat) {
    f.offset <= b < f.offset + Width(f.dataType)
  }

  /** Two of the fields share a byte that an offset below the greatest can name. */
  ghost predicate Shares(fields: seq<SbeField>, i: nat, j: nat, b: nat) {
    i < j < |fields| && b < U32_MAX && Occupies(fields[i], b) && Occupies(fields[j], b)
  }

  /** Accepts exactly the layouts in which no two fields share a byte below the greatest offset; otherwise names
      the first field, and its first byte, to meet an earlier one. */
  method ValidateOffsets(fields: seq<SbeField>) returns (r: Overlap)
    requires forall f :: f in fields ==> f.offset <= U32_MAX
    ensures r.Disjoint? <==> !exists i: nat, j: nat, b: nat :: Shares(fields, i, j, b)
    ensures r.OverlappingOffset? ==>
              exists i: nat, j: nat :: Shares(fields, i, j, r.offset) && fields[j].name == r.name
                && (forall i': nat, j': nat, b: nat :: Shares(fields, i', j', b) ==> j <= j' && (j' == j ==> r.offset <= b))
  {
    var used: set<nat> := {};
    for j := 0 to |fields|
      invariant forall b: nat :: b in used <==> b < U32_MAX && exists i :: 0 <= i < j && Occupies(fields[i], b)
      invariant !exists i': nat, j': nat, b: nat :: Shares(fields, i', j', b) && j' < j
    {
      var f := fields[j];
      assert f in fields;
      var end := SaturatingAdd(f.offset, Width(f.dataType));
      ghost var before := used;
      for offset := f.offset to end
        invariant forall b: nat :: b in used <==> b in before || f.offset <= b < offset
        invariant forall b: nat :: f.offset <= b < offset ==> b !in before
      {
        if offset in used {
          assert offset in before;
          var i :| 0 <= i < j && Occupies(fields[i], offset);
          assert Shares(fields, i, j, offset);
          forall i': nat, j': nat, b: nat | Shares(fields, i', j', b) ensures j <= j' && (j' == j ==> offset <= b) {
            if j' == j {
              assert b in before;
            }
          }
          return OverlappingOffset(f.name, offset);
        }
        used := used + {offset};
      }
      forall b: nat ensures b in used <==> b < U32_MAX && exists i :: 0 <= i < j + 1 && Occupies(fields[i], b) {
        if b in before {
          var i :| 0 <= i < j && Occupies(fields[i], b);
        }
        if b < U32_MAX && Occupies(f, b) {
          assert f.offset <= b < end;
        }
        if f.offset <= b < end {
          assert Occupies(fields[j], b);
        }
      }
      forall i': nat, j': nat, b: nat | j' < j + 1 ensures !Shares(fields, i', j', b) {
        assert j' == j && b < U32_MAX && Occupies(f, b) ==> b !in before;
      }
    }
    r := Disjoint;
  }

  /** No two fields share any byte. */
  ghost predicate SideBySide(fields: seq<SbeField>) {
    forall i, j, b: nat :: 0 <= i < j < |fields| ==> !(Occupies(fields[i], b) && Occupies(fields[j], b))
  }

  predicate PastEnd(f: SbeField) {
    f.offset + Width(f.dataType) > U32_MAX
  }

  /** The end of a field saturates at the greatest offset, so the byte there is never looked at: the fields lie
      side by side exactly when the layout is accepted and at most one of them reaches that byte. */
  lemma SideBySideExactly(fields: seq<SbeField>)
    requires forall f :: f in fields ==> f.offset <= U32_MAX
    ensures SideBySide(fields) <==>
              && !(exists i: nat, j: nat, b: nat :: Shares(fields, i, j, b))
              && forall i, j :: 0 <= i < j < |fields| ==> !(PastEnd(fields[i]) && PastEnd(fields[j]))
  {
    if SideBySide(fields) {
      forall i, j | 0 <= i < j < |fields| ensures !(PastEnd(fields[i]) && PastEnd(fields[j])) {
        assert fields[i] in fields && fields[j] in fields;
        assert !(Occupies(fields[i], U32_MAX) && Occupies(fields[j], U32_MAX));
      }
      forall i: nat, j: nat, b: nat ensures !Shares(fields, i, j, b) {
      }
    } else {
      var i, j, b: nat :| 0 <= i < j < |fields| && Occupies(fields[i], b) && Occupies(fields[j], b);
      if b < U32_MAX {
        assert Shares(fields, i, j, b);
      }
    }
  }

  /** Two one-byte fields at the greatest offset are accepted. */
  lemma LastByteIsNotSeen(fields: seq<SbeField>)
    requires fields == [SbeField("A", U32_MAX, Char), SbeField("B", U32_MAX, Char)]
    ensures !SideBySide(fields) && !exists i: nat, j: nat, b: nat :: Shares(fields, i, j, b)
  {
    assert Occupies(fields[0], U32_MAX) && Occupies(fields[1], U32_MAX);
  }
}

/** A repeated field of a number type, counted or of fixed length, reads the same however its
    elements are split into packed runs and separately tagged elements. */
module Packed {
  import opened Bytes
  import opened Schema
  import opened Varint
  import opened EncodeSpec
  import opened DecodeSpec
  import opened RoundTrip
  import opened Meaning

  datatype Segment = Run(items: seq<Value>) | One(item: Value)

  function Items(seg: Segment): seq<Value> {
    match seg case Run(items) => items case One(v) => [v]
  }

  function AllItems(segs: seq<Segment>): seq<Value> {
    if segs == [] then [] else Items(segs[0]) + AllItems(segs[1..])
  }

  function SegmentBytes(f: Field, seg: Segment): Option<seq<byte>> {
    match seg
    case Run(items) => EncodePacked(f, items)
    case One(v) => EncodeTagged(f, v)
  }

  function SplitBytes(f: Field, segs: seq<Segment>): Option<seq<byte>> {
    if segs == [] then Some([]) else Append(SegmentBytes(f, segs[0]), SplitBytes(f, segs[1..]))
  }

  ghost predicate Conform(f: Field, items: seq<Value>) {
    forall k :: 0 <= k < |items| ==> ConformsValue(f, items[k], true)
  }

  /** Every packed run has a 32-bit size. */
  ghost predicate RunsFit(f: Field, segs: seq<Segment>) {
    forall k :: 0 <= k < |segs| && segs[k].Run? && EncodePackedData(f, segs[k].items).Some? ==>
      |EncodePackedData(f, segs[k].items).value| < UINT32
  }

  lemma {:induction false} PackedDataOverflow(f: Field, items: seq<Value>, room: nat)
    requires ValidField(f) && Packable(f.ltype) && Conform(f, items) && |items| > room
    ensures EncodePackedData(f, items).Some?
    ensures DecodePackedData(f, EncodePackedData(f, items).value, room) == None
    decreases items
  {
    hide EncodeScalar, DecodeScalar, ConformsValue, ZeroValue;
    assert ConformsValue(f, items[0], true);
    assert Conform(f, items[1..]);
    if room > 0 {
      PackedDataOverflow(f, items[1..], room - 1);
    } else {
      PackedDataRoundTrip(f, items[1..], |items|);
    }
    ZeroFits(f);
    ScalarRoundTrip(f, items[0], ZeroValue(f), EncodePackedData(f, items[1..]).value);
    ScalarNonEmpty(f, items[0]);
  }

  lemma {:induction false} RunElements(f: Field, items: seq<Value>, count: nat, cells: seq<Value>, rest: seq<byte>)
    requires ValidField(f) && Packable(f.ltype) && Conform(f, items) && count <= f.arraySize
    requires EncodePackedData(f, items).Some? ==> |EncodePackedData(f, items).value| < UINT32
    ensures EncodePackedData(f, items).Some?
    ensures DecodeElements(f, 2, EncString(EncodePackedData(f, items).value) + rest, count, cells)
         == if count + |items| <= f.arraySize then Good(items, rest) else Bad
  {
    hide EncodePackedData, DecodePackedData, DecodeValue, EncVarint, TakeDelimited, ConformsValue;
    if count + |items| <= f.arraySize {
      PackedDataRoundTrip(f, items, f.arraySize - count);
    } else {
      PackedDataOverflow(f, items, f.arraySize - count);
    }
    TakeDelimitedRoundTrip(EncodePackedData(f, items).value, rest);
  }

  lemma {:induction false} OneElement(f: Field, v: Value, count: nat, cells: seq<Value>, rest: seq<byte>)
    requires ValidField(f) && Packable(f.ltype) && ConformsValue(f, v, true) && count + |cells| == f.arraySize
    ensures EncodeScalar(f, v).Some?
    ensures DecodeElements(f, WireType(f.ltype), EncodeScalar(f, v).value + rest, count, cells)
         == if count + 1 <= f.arraySize then Good([v], rest) else Bad
  {
    hide EncodeScalar, DecodeScalar, ConformsValue;
    if cells != [] { ScalarRoundTrip(f, v, cells[0], rest); } else { ScalarRoundTrip(f, v, ZeroValue(f), rest); }
  }

  lemma {:induction false} ElementsFail(fields: seq<Field>, i: nat, wire: nat, s: seq<byte>, k: nat, st: State)
    requires i < |fields| && fields[i].htype.Repeated? && CountIs(fields, i, st, k)
    requires DecodeElements(fields[i], wire, s, k, CellsFrom(fields[i], st.m[SlotIdx(fields, i)], k)).Bad?
    ensures DecodeKnown(fields, i, wire, s, st).Bad?
  {
    hide DecodeElements, ConformsValue;
    var st1 := EnterField(fields, i, st).value;
    assert st1 == if HasSizeField(fields[i]) then st else st.(fixed := Some(i), fixedCount := k);
  }

  lemma {:induction false} SegmentTurn(fields: seq<Field>, i: nat, seg: Segment, k: nat, st: State, rest: seq<byte>)
    requires ValidSchema(fields) && i < |fields| && fields[i].htype.Repeated? && Packable(fields[i].ltype)
    requires CountIs(fields, i, st, k) && Conform(fields[i], Items(seg)) && RunsFit(fields[i], [seg])
    ensures SegmentBytes(fields[i], seg).Some?
    ensures k + |Items(seg)| <= fields[i].arraySize ==>
              |Items(seg)| <= |CellsFrom(fields[i], st.m[SlotIdx(fields, i)], k)|
              && CountIs(fields, i, Stored(fields, i, st, k, Items(seg)), k + |Items(seg)|)
    ensures DecodeLoop(fields, SegmentBytes(fields[i], seg).value + rest, st)
         == if k + |Items(seg)| <= fields[i].arraySize
            then DecodeLoop(fields, rest, Stored(fields, i, st, k, Items(seg))) else LoopFailed
  {
    hide DecodeLoop, EncTag, EncodePackedData, EncodeScalar, DecodeElements, ConformsValue, EncVarint, CountIs;
    hide CellsFrom, SlotIdx, Stored;
    CountShape(fields, i, st, k);
    var f := fields[i];
    var cells := CellsFrom(f, st.m[SlotIdx(fields, i)], k);
    assert ValidField(f);
    var wire := if seg.Run? then 2 else WireType(f.ltype);
    var body: seq<byte>;
    match seg {
      case Run(items) =>
        assert seg == [seg][0];
        RunElements(f, items, k, cells, rest);
        body := EncString(EncodePackedData(f, items).value);
      case One(v) =>
        assert ConformsValue(f, Items(seg)[0], true);
        OneElement(f, v, k, cells, rest);
        assert EncodeValue(f, v) == EncodeScalar(f, v);
        body := EncodeScalar(f, v).value;
    }
    assert SegmentBytes(f, seg).value == EncTag(f.tag, wire) + body;
    assert SegmentBytes(f, seg).value + rest == EncTag(f.tag, wire) + (body + rest);
    if k + |Items(seg)| <= f.arraySize {
      ElementsKnown(fields, i, wire, body + rest, Items(seg), k, st, rest);
      KnownTurn(fields, i, wire, body + rest, st);
    } else {
      ElementsFail(fields, i, wire, body + rest, k, st);
      KnownFails(fields, i, wire, body + rest, st);
    }
  }

  /** Storing elements in two steps is storing them in one. */
  lemma {:induction false} StoredTwice(fields: seq<Field>, i: nat, st: State, k: nat, a: seq<Value>, b: seq<Value>)
    requires i < |fields| && CountIs(fields, i, st, k) && k + |a| + |b| <= fields[i].arraySize
    requires |a| <= |CellsFrom(fields[i], st.m[SlotIdx(fields, i)], k)|
    requires CountIs(fields, i, Stored(fields, i, st, k, a), k + |a|)
    ensures |b| <= |CellsFrom(fields[i], Stored(fields, i, st, k, a).m[SlotIdx(fields, i)], k + |a|)|
    ensures |a + b| <= |CellsFrom(fields[i], st.m[SlotIdx(fields, i)], k)|
    ensures Stored(fields, i, Stored(fields, i, st, k, a), k + |a|, b) == Stored(fields, i, st, k, a + b)
  {
    hide ConformsValue, SlotIdx;
    var f, slot := fields[i], st.m[SlotIdx(fields, i)];
    if HasSizeField(f) {
      assert slot.items + a + b == slot.items + (a + b);
      assert slot.spare[|a|..][|b|..] == slot.spare[|a + b|..];
    } else {
      assert OverwriteAt(OverwriteAt(slot.items, k, a), k + |a|, b) == OverwriteAt(slot.items, k, a + b);
    }
  }

  /** Storing nothing changes nothing once the run is open. */
  lemma {:induction false} StoredNone(fields: seq<Field>, i: nat, st: State, k: nat)
    requires i < |fields| && CountIs(fields, i, st, k) && (HasSizeField(fields[i]) || st.fixed == Some(i))
    ensures Stored(fields, i, st, k, []) == st
  {
    hide ConformsValue, SlotIdx;
    var slot := st.m[SlotIdx(fields, i)];
    assert slot.items + [] == slot.items && slot.spare[0..] == slot.spare;
    if !HasSizeField(fields[i]) { assert OverwriteAt(slot.items, k, []) == slot.items; }
    assert st.m[SlotIdx(fields, i) := slot] == st.m;
  }

  /** However the elements are split, the loop goes on with all of them stored after the `k` there
      are, or fails when they do not fit the array. */
  lemma {:induction false} SplitDecodes(fields: seq<Field>, i: nat, segs: seq<Segment>, k: nat, st: State,
                                        rest: seq<byte>)
    requires ValidSchema(fields) && i < |fields| && fields[i].htype.Repeated? && !Delimiting(fields[i].ltype)
    requires CountIs(fields, i, st, k) && Conform(fields[i], AllItems(segs)) && RunsFit(fields[i], segs)
    requires segs != [] || HasSizeField(fields[i]) || st.fixed == Some(i)
    ensures SplitBytes(fields[i], segs).Some?
    ensures k + |AllItems(segs)| <= fields[i].arraySize ==>
              |AllItems(segs)| <= |CellsFrom(fields[i], st.m[SlotIdx(fields, i)], k)|
    ensures DecodeLoop(fields, SplitBytes(fields[i], segs).value + rest, st)
         == if k + |AllItems(segs)| <= fields[i].arraySize
            then DecodeLoop(fields, rest, Stored(fields, i, st, k, AllItems(segs))) else LoopFailed
    decreases segs
  {
    hide DecodeLoop, SegmentBytes, ConformsValue, SlotIdx, Items, CountIs, CellsFrom, Stored, EncodePackedData;
    CountShape(fields, i, st, k);
    var f := fields[i];
    if segs == [] {
      assert [] + rest == rest;
      StoredNone(fields, i, st, k);
    } else {
      var first, others := Items(segs[0]), AllItems(segs[1..]);
      assert first == AllItems(segs)[..|first|] && others == AllItems(segs)[|first|..];
      assert Conform(f, first) && Conform(f, others) && RunsFit(f, [segs[0]]) && RunsFit(f, segs[1..]);
      SplitSome(f, segs[1..]);
      var tail := SplitBytes(f, segs[1..]).value + rest;
      SegmentTurn(fields, i, segs[0], k, st, tail);
      assert SplitBytes(f, segs).value + rest == SegmentBytes(f, segs[0]).value + tail;
      if k + |first| <= f.arraySize {
        var st1 := Stored(fields, i, st, k, first);
        RunOpen(fields, i, st, k, first);
        SplitDecodes(fields, i, segs[1..], k + |first|, st1, rest);
        if k + |first| + |others| <= f.arraySize { StoredTwice(fields, i, st, k, first, others); }
      }
    }
  }

  lemma {:induction false} SplitSome(f: Field, segs: seq<Segment>)
    requires ValidField(f) && Packable(f.ltype) && Conform(f, AllItems(segs))
    ensures SplitBytes(f, segs).Some?
    decreases segs
  {
    hide ConformsValue, EncodePackedData, EncodeScalar;
    if segs != [] {
      var first, others := Items(segs[0]), AllItems(segs[1..]);
      assert first == AllItems(segs)[..|first|] && others == AllItems(segs)[|first|..];
      assert Conform(f, first) && Conform(f, others);
      match segs[0]
      case Run(items) => PackedDataRoundTrip(f, items, |items|); SplitSome(f, segs[1..]);
      case One(v) =>
        assert ConformsValue(f, first[0], true);
        ScalarRoundTrip(f, v, ZeroValue(f), []);
        assert EncodeValue(f, v) == EncodeScalar(f, v);
        SplitSome(f, segs[1..]);
    }
  }

  lemma {:induction false} RunOpen(fields: seq<Field>, i: nat, st: State, k: nat, vs: seq<Value>)
    requires i < |fields| && SlotIdx(fields, i) < |st.m| && st.m[SlotIdx(fields, i)].Rep?
    requires |vs| <= |CellsFrom(fields[i], st.m[SlotIdx(fields, i)], k)|
    requires HasSizeField(fields[i]) || k <= |st.m[SlotIdx(fields, i)].items|
    ensures HasSizeField(fields[i]) || Stored(fields, i, st, k, vs).fixed == Some(i)
  {
  }

  /** Packed and unpacked agree, for counted arrays and arrays of fixed length: two splits of the
      same elements decode to the same outcome. */
  lemma {:induction false} SplitsAgree(fields: seq<Field>, i: nat, a: seq<Segment>, b: seq<Segment>, k: nat, st: State,
                                       rest: seq<byte>)
    requires ValidSchema(fields) && i < |fields| && fields[i].htype.Repeated? && !Delimiting(fields[i].ltype)
    requires CountIs(fields, i, st, k) && AllItems(a) == AllItems(b) && Conform(fields[i], AllItems(a))
    requires RunsFit(fields[i], a) && RunsFit(fields[i], b)
    requires (a != [] && b != []) || HasSizeField(fields[i]) || st.fixed == Some(i)
    ensures SplitBytes(fields[i], a).Some? && SplitBytes(fields[i], b).Some?
    ensures DecodeLoop(fields, SplitBytes(fields[i], a).value + rest, st)
         == DecodeLoop(fields, SplitBytes(fields[i], b).value + rest, st)
  {
    hide DecodeLoop, SplitBytes, AllItems, CountIs, Stored, CellsFrom;
    SplitDecodes(fields, i, a, k, st, rest);
    SplitDecodes(fields, i, b, k, st, rest);
  }
}

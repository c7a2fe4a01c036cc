/** The decoder of `pb_decode.c`: it reads from a stream and updates a destination struct in
    place. Every method does exactly what its specification in `DecodeSpec` says. */
module Decoder {
  import opened Bytes
  import opened Schema
  import opened Varint
  import opened Bits
  import opened DecodeSpec
  import opened Preservation
  import opened RoundTrip
  import opened Streams
  import opened WireReader
  import opened FieldIter
  import opened FieldDecoders

  /** The destination struct. */
  class Struct {
    var slots: seq<Slot>

    constructor (s: seq<Slot>)
      ensures slots == s
    {
      slots := s;
    }
  }

  // ---------- defaults ----------

  /** `pb_field_set_to_default` on slot `n`. */
  method FieldSetToDefault(f: Field, dest: Struct, n: nat)
    requires n < |dest.slots| && ValidField(f) && ConformsSlot(f, dest.slots[n], false)
    modifies dest
    ensures dest.slots == old(dest.slots)[n := DefaultSlot(f, old(dest.slots)[n])]
    decreases f
  {
    hide ConformsMsg, Defaults;
    var was := dest.slots[n];
    var initData := true;
    if f.htype.Optional? && HasSizeField(f) {
      dest.slots := dest.slots[n := was.(has := false)];
    } else if f.htype.Repeated? {
      if HasSizeField(f) { dest.slots := dest.slots[n := Rep([], Cells(f, was))]; }
      initData := false;
    } else if f.htype.Oneof? {
      dest.slots := dest.slots[n := UNSET];
      initData := false;
    }
    if initData {
      var v;
      if f.ltype.LSubmessage? {
        var sub := new Struct(Held(was).slots);
        MessageSetToDefaults(f.sub, sub);
        v := VMsg(sub.slots);
      } else if f.dflt.Some? {
        v := f.dflt.value;
      } else {
        v := ZeroValue(f);
      }
      dest.slots := dest.slots[n := if f.htype.Optional? && HasSizeField(f) then Opt(false, v) else Single(v)];
    }
  }

  /** The slots before field `i` are at their defaults, those from it on as they were. */
  ghost predicate DefaultsUpTo(fields: seq<Field>, was: seq<Slot>, m: seq<Slot>, i: nat)
    requires i <= |fields|
  {
    var done := Collect(fields, DefaultSlots(fields, was), i);
    |m| == |was| == NumSlots(fields) && |done| <= |m| && m[..|done|] == done && m[|done|..] == was[|done|..]
  }

  lemma {:induction false} DefaultsGrow(fields: seq<Field>, was: seq<Slot>, m: seq<Slot>, i: nat)
    requires ValidSchema(fields) && Typed(fields, was) && i < |fields| && DefaultsUpTo(fields, was, m, i)
    ensures SlotIdx(fields, i) < |m| && ConformsSlot(fields[i], m[SlotIdx(fields, i)], false)
    ensures DefaultsUpTo(fields, was, m[SlotIdx(fields, i) := DefaultSlot(fields[i], m[SlotIdx(fields, i)])], i + 1)
  {
    hide DefaultSlot, ConformsSlot, ValidField, Collect, DefaultsUpTo;
    SlotInRange(fields, i);
    assert ConformsSlot(fields[i], was[SlotIdx(fields, i)], false) && ValidField(fields[i]);
    if i > 0 && SharesUnion(fields[i - 1], fields[i]) {
      SharedGrows(fields, was, m, i);
    } else {
      ApartGrows(fields, was, m, i);
    }
  }

  lemma {:induction false} SharedGrows(fields: seq<Field>, was: seq<Slot>, m: seq<Slot>, i: nat)
    requires 0 < i < |fields| && SharesUnion(fields[i - 1], fields[i]) && DefaultsUpTo(fields, was, m, i)
    requires ValidField(fields[i])
    ensures SlotIdx(fields, i) < |m| && ConformsSlot(fields[i], m[SlotIdx(fields, i)], false)
    ensures DefaultsUpTo(fields, was, m[SlotIdx(fields, i) := DefaultSlot(fields[i], m[SlotIdx(fields, i)])], i + 1)
  {
    hide DefaultSlot;
    SlotInRange(fields, i);
    var n, done := SlotIdx(fields, i), Collect(fields, DefaultSlots(fields, was), i);
    CollectLast(fields, was, i);
    assert m[n] == m[..|done|][n] == UNSET;
    UnsetByDefault(fields[i], m[n]);
    assert m[n := UNSET] == m;
    assert Collect(fields, DefaultSlots(fields, was), i + 1) == done;
  }

  lemma {:induction false} ApartGrows(fields: seq<Field>, was: seq<Slot>, m: seq<Slot>, i: nat)
    requires i < |fields| && !(i > 0 && SharesUnion(fields[i - 1], fields[i])) && DefaultsUpTo(fields, was, m, i)
    ensures SlotIdx(fields, i) < |m| == |was| && m[SlotIdx(fields, i)] == was[SlotIdx(fields, i)]
    ensures DefaultsUpTo(fields, was, m[SlotIdx(fields, i) := DefaultSlot(fields[i], m[SlotIdx(fields, i)])], i + 1)
  {
    hide DefaultSlot;
    SlotInRange(fields, i);
    var n, done := SlotIdx(fields, i), Collect(fields, DefaultSlots(fields, was), i);
    assert n == |done|;
    assert m[n] == m[n..][0] == was[n..][0] == SlotOf(fields, was, i);
    var m' := m[n := DefaultSlot(fields[i], m[n])];
    assert Collect(fields, DefaultSlots(fields, was), i + 1) == done + [m'[n]];
    assert m'[..n] == done && m'[..n + 1] == m'[..n] + [m'[n]];
    assert m'[n + 1..] == m[n..][1..] && was[n..][1..] == was[n + 1..];
  }

  lemma {:induction false} CollectLast(fields: seq<Field>, was: seq<Slot>, i: nat)
    requires 0 < i <= |fields| && fields[i - 1].htype.Oneof?
    ensures Collect(fields, DefaultSlots(fields, was), i)[SlotIdx(fields, i - 1)] == UNSET
    decreases i
  {
    hide DefaultSlot;
    UnsetByDefault(fields[i - 1], SlotOf(fields, was, i - 1));
    if i > 1 && SharesUnion(fields[i - 2], fields[i - 1]) { CollectLast(fields, was, i - 1); }
  }

  /** `pb_message_set_to_defaults`. */
  method MessageSetToDefaults(fields: seq<Field>, dest: Struct)
    requires ValidSchema(fields) && Typed(fields, dest.slots)
    modifies dest
    ensures dest.slots == Defaults(fields, old(dest.slots))
    decreases fields
  {
    hide DefaultSlot, SlotIdx, ConformsSlot, ValidField, PData, PSize;
    ghost var was := dest.slots;
    var iter := new Iter.Begin(fields);
    if fields == [] {
      assert dest.slots == Defaults(fields, was);
      return;
    }
    var more := true;
    while more
      invariant iter.Valid() && iter.start == fields && fresh(iter)
      invariant DefaultsUpTo(fields, was, dest.slots, if more then iter.pos else |fields|)
      decreases more, |fields| - iter.pos
    {
      DefaultsGrow(fields, was, dest.slots, iter.pos);
      FieldSetToDefault(fields[iter.pos], dest, SlotIdx(fields, iter.pos));
      more := iter.Next();
    }
    assert dest.slots[..|dest.slots|] == dest.slots;
  }

  // ---------- values ----------

  /** `pb_dec_submessage`. */
  method DecSubmessage(stream: IStream, f: Field, dest: Struct) returns (ok: bool)
    requires stream.Valid() && f.ltype.LSubmessage? && ValidField(f) && Typed(f.sub, dest.slots)
    modifies stream, dest
    ensures stream.Yields(old(stream.End()), ok, VMsg(dest.slots),
                          DecodeValue(f, old(stream.Left()), VMsg(old(dest.slots))))
    decreases stream.bytesLeft, 1
  {
    hide DecodeSpec.DecodeNoInit, TakeDelimited, ConformsSlot, ValidSchema, Defaults, SlotIdx;
    var sub;
    ok, sub := MakeStringSubstream(stream);
    if !ok { return; }
    var status;
    if f.htype.Repeated? {
      status := DecodeMessage(sub, f.sub, dest);
    } else {
      status := DecodeNoInit(sub, f.sub, dest);
    }
    ok := CloseStringSubstream(stream, sub);
    ok := ok && status;
  }

  /** One value, decoded over `base`. */
  method DecValue(stream: IStream, f: Field, base: Value) returns (ok: bool, v: Value)
    requires stream.Valid() && ValidField(f) && ConformsValue(f, base, false)
    modifies stream
    ensures stream.Yields(old(stream.End()), ok, v, DecodeValue(f, old(stream.Left()), base))
    decreases stream.bytesLeft, 2
  {
    hide DecodeScalar, DecodeSpec.DecodeNoInit, ValidField;
    if f.ltype.LSubmessage? {
      var dest := new Struct(base.slots);
      ok := DecSubmessage(stream, f, dest);
      v := VMsg(dest.slots);
    } else {
      ok, v := DecScalar(stream, f, base);
    }
  }

  // ---------- arrays ----------

  lemma {:induction false} DeliveredNext(f: Field, slot: Slot, count: nat, vs: seq<Value>, v: Value)
    requires slot.Rep? && |vs| < |CellsFrom(f, slot, count)| && (HasSizeField(f) || count <= |slot.items|)
    ensures |CellsFrom(f, Delivered(f, slot, count, vs), count + |vs|)| > 0
    ensures Delivered(f, slot, count, vs + [v]) == Delivered(f, Delivered(f, slot, count, vs), count + |vs|, [v])
  {
    CellsAdvance(f, slot, count, vs);
    if HasSizeField(f) {
      assert slot.items + vs + [v] == slot.items + (vs + [v]);
      assert slot.spare[|vs|..][1..] == slot.spare[|vs| + 1..];
    } else {
      assert OverwriteAt(OverwriteAt(slot.items, count, vs), count + |vs|, [v])
          == OverwriteAt(slot.items, count, vs + [v]);
    }
  }

  lemma {:induction false} DeliveredNone(f: Field, slot: Slot, count: nat)
    requires slot.Rep? && (HasSizeField(f) || count <= |slot.items|)
    ensures Delivered(f, slot, count, []) == slot
  {
    assert slot.items + [] == slot.items && slot.spare[0..] == slot.spare;
    if !HasSizeField(f) { assert OverwriteAt(slot.items, count, []) == slot.items; }
  }

  /** Storing one element in slot `n`, after `size` others. */
  method StoreItem(f: Field, dest: Struct, n: nat, size: nat, v: Value)
    requires f.htype.Repeated? && n < |dest.slots| && dest.slots[n].Rep? && |CellsFrom(f, dest.slots[n], size)| > 0
    requires if HasSizeField(f) then size == |dest.slots[n].items| else size < |dest.slots[n].items|
    modifies dest
    ensures dest.slots == old(dest.slots)[n := Delivered(f, old(dest.slots)[n], size, [v])]
  {
    var items, spare := dest.slots[n].items, dest.slots[n].spare;
    var slot := if HasSizeField(f) then Rep(items + [v], spare[1..]) else Rep(items[size := v], spare);
    dest.slots := dest.slots[n := slot];
    if !HasSizeField(f) { assert items[size := v] == OverwriteAt(items, size, [v]); }
  }

  /** `got` put before the elements still to be decoded. */
  function After(got: seq<Value>, more: Option<seq<Value>>): Option<seq<Value>> {
    match more case None => None case Some(vs) => Some(got + vs)
  }

  lemma {:induction false} PackedDataTurn(f: Field, s: seq<byte>, room: nat, got: seq<Value>)
    ensures s == [] ==> After(got, DecodePackedData(f, s, room)) == Some(got)
    ensures s != [] && room == 0 ==> After(got, DecodePackedData(f, s, room)) == None
    ensures s != [] && room > 0 ==>
              var r := DecodeScalar(f, s, ZeroValue(f));
              After(got, DecodePackedData(f, s, room))
              == if r.Bad? then None else After(got + [r.value], DecodePackedData(f, r.rest, room - 1))
    ensures After([], DecodePackedData(f, s, room)) == DecodePackedData(f, s, room)
  {
    hide DecodeScalar, ZeroValue;
    if s == [] {
      assert got + [] == got;
    } else if room > 0 {
      var r := DecodeScalar(f, s, ZeroValue(f));
      if r.Good? {
        var rest := DecodePackedData(f, r.rest, room - 1);
        if rest.Some? { assert got + ([r.value] + rest.value) == got + [r.value] + rest.value; }
      }
    }
    var all := DecodePackedData(f, s, room);
    if all.Some? { assert [] + all.value == all.value; }
  }

  /** The count of an array and its memory after that fit together: `start` elements, and cells for
      the rest of the array unless the count is corrupt. */
  predicate ArrayAt(f: Field, slot: Slot, start: nat) {
    slot.Rep? && (if HasSizeField(f) then start == |slot.items| else start <= f.arraySize == |slot.items|)
    && (start <= f.arraySize ==> start + |CellsFrom(f, slot, start)| == f.arraySize)
  }

  /** The loop over the elements of a packed run. It ends early when the array is full, and
      without `status` when an element cannot be decoded. */
  method DecPackedItems(sub: IStream, f: Field, dest: Struct, n: nat, start: nat) returns (status: bool, size: nat)
    requires sub.Valid() && ValidField(f) && f.htype.Repeated? && Packable(f.ltype)
    requires n < |dest.slots| && ArrayAt(f, dest.slots[n], start)
    modifies sub, dest
    ensures sub.Valid() && sub.End() <= old(sub.End())
    ensures var r := DecodePackedData(f, old(sub.Left()), if start <= f.arraySize then f.arraySize - start else 0);
            (status && sub.bytesLeft == 0 <==> r.Some?)
            && (r.Some? ==> sub.End() == old(sub.End()) && size == start + |r.value|
                            && |r.value| <= |CellsFrom(f, old(dest.slots)[n], start)|
                            && dest.slots == old(dest.slots)[n := Delivered(f, old(dest.slots)[n], start, r.value)])
  {
    hide DecodePackedData, DecodeScalar, ZeroValue, Delivered, ValidField;
    ghost var slot, slots := dest.slots[n], dest.slots;
    ghost var payload, room := sub.Left(), if start <= f.arraySize then f.arraySize - start else 0;
    ghost var got, end := [], sub.End();
    status, size := true, start;
    assert Destination(f, ZeroValue(f));
    PackedDataTurn(f, payload, room, got);
    DeliveredNone(f, slot, start);
    assert slots == slots[n := slot];
    while sub.bytesLeft > 0 && size < f.arraySize
      invariant sub.Valid() && sub.End() == end && status
      invariant size == start + |got| && (start <= f.arraySize ==> size <= f.arraySize && |got| <= room)
      invariant start > f.arraySize ==> got == []
      invariant |got| <= |CellsFrom(f, slot, start)| && dest.slots == slots[n := Delivered(f, slot, start, got)]
      invariant if HasSizeField(f) then |dest.slots[n].items| == size else |dest.slots[n].items| == f.arraySize
      invariant DecodePackedData(f, payload, room) == After(got, DecodePackedData(f, sub.Left(), room - |got|))
      decreases f.arraySize - size
    {
      PackedDataTurn(f, sub.Left(), room - |got|, got);
      var v;
      status, v := DecScalar(sub, f, ZeroValue(f));
      if !status { return; }
      DeliveredNext(f, slot, start, got, v);
      DeliveredSize(f, dest.slots[n], size, v);
      StoreItem(f, dest, n, size, v);
      size := size + 1;
      got := got + [v];
    }
    PackedDataTurn(f, sub.Left(), room - |got|, got);
  }

  lemma {:induction false} DeliveredSize(f: Field, slot: Slot, count: nat, v: Value)
    requires slot.Rep? && |CellsFrom(f, slot, count)| > 0 && (HasSizeField(f) || count <= |slot.items|)
    ensures |Delivered(f, slot, count, [v]).items| == if HasSizeField(f) then |slot.items| + 1 else |slot.items|
  {
  }

  /** The packed branch of `decode_static_field`. `size` is the array's count. */
  method DecPacked(stream: IStream, f: Field, dest: Struct, n: nat, start: nat) returns (ok: bool, size: nat)
    requires stream.Valid() && ValidField(f) && f.htype.Repeated? && Packable(f.ltype)
    requires n < |dest.slots| && ArrayAt(f, dest.slots[n], start)
    modifies stream, dest
    ensures stream.Valid() && stream.End() <= old(stream.End())
    ensures var cells := CellsFrom(f, old(dest.slots)[n], start);
            var r := DecodeElements(f, 2, old(stream.Left()), start, cells);
            (ok <==> r.Good?)
            && (ok ==> stream.End() == old(stream.End()) && stream.Left() == r.rest && size == start + |r.value|
                       && |r.value| <= |cells|
                       && dest.slots == old(dest.slots)[n := Delivered(f, old(dest.slots)[n], start, r.value)])
  {
    hide DecodePackedData, TakeDelimited, Delivered, ValidField;
    var sub, status;
    size := start;
    ok, sub := MakeStringSubstream(stream);
    if !ok { return; }
    status, size := DecPackedItems(sub, f, dest, n, start);
    if sub.bytesLeft != 0 { return false, size; }
    ok := CloseStringSubstream(stream, sub);
    ok := ok && status;
  }

  /** The repeated case of `decode_static_field`; `start` is the array's count. */
  method DecRepeated(stream: IStream, wire: nat, f: Field, dest: Struct, n: nat, start: nat)
    returns (ok: bool, size: nat)
    requires stream.Valid() && ValidField(f) && f.htype.Repeated?
    requires n < |dest.slots| && ArrayAt(f, dest.slots[n], start) && ConformsSlot(f, dest.slots[n], false)
    modifies stream, dest
    ensures stream.Valid() && stream.End() <= old(stream.End())
    ensures var cells := CellsFrom(f, old(dest.slots)[n], start);
            var r := DecodeElements(f, wire, old(stream.Left()), start, cells);
            (ok <==> r.Good?)
            && (ok ==> stream.End() == old(stream.End()) && stream.Left() == r.rest && size == start + |r.value|
                       && |r.value| <= |cells|
                       && dest.slots == old(dest.slots)[n := Delivered(f, old(dest.slots)[n], start, r.value)])
    decreases stream.bytesLeft, 3
  {
    hide DecodeValue, DecodePackedData, TakeDelimited, ConformsValue, ValidField, Delivered, OverwriteAt;
    if wire == 2 && Packable(f.ltype) {
      ok, size := DecPacked(stream, f, dest, n, start);
    } else {
      size := start + 1;
      if start >= f.arraySize { return false, size; }
      var cell := if HasSizeField(f) then dest.slots[n].spare[0] else dest.slots[n].items[start];
      assert cell == CellsFrom(f, dest.slots[n], start)[0];
      assert HasSizeField(f) ==> ConformsSpare(f, cell, false);
      var v;
      ok, v := DecValue(stream, f, cell);
      if !ok { return; }
      StoreItem(f, dest, n, start, v);
    }
  }

  // ---------- one field ----------

  /** `decode_static_field`, on the field the iterator points at. `fixedCount` is the decoder's
      `fixed_count_size`, which counts the elements of a fixed-count array. */
  method DecodeStaticField(stream: IStream, wire: nat, iter: Iter, dest: Struct, fixedCount: nat)
    returns (ok: bool, fixedCount': nat)
    requires stream.Valid() && iter.Valid() && iter.start != []
    requires ValidSchema(iter.start) && Typed(iter.start, dest.slots)
    requires var f := iter.start[iter.pos];
             if IsFixedCount(f) then iter.pSize.FixedCountSize? && fixedCount <= f.arraySize else iter.Synced()
    modifies stream, dest
    ensures stream.Valid() && stream.End() <= old(stream.End()) && SlotIdx(iter.start, iter.pos) < |old(dest.slots)|
    ensures var f, n := iter.start[iter.pos], SlotIdx(iter.start, iter.pos);
            var r := DecodeField(f, wire, old(stream.Left()), old(dest.slots)[n], fixedCount);
            (ok <==> r.Good?)
            && (ok ==> stream.End() == old(stream.End()) && stream.Left() == r.rest
                       && dest.slots == old(dest.slots)[n := r.value.0]
                       && fixedCount' == (if IsFixedCount(f) then fixedCount + r.value.1 else fixedCount)
                       && (IsFixedCount(f) ==> fixedCount' <= f.arraySize))
    decreases stream.bytesLeft, 4
  {
    hide DecodeValue, DecodeElements, SlotIdx, RequiredBefore, ConformsValue, MemberBase, ValidField, Delivered;
    hide CellsFrom, ArrayAt, ConformsSpare;
    var f, n := iter.start[iter.pos], SlotIdx(iter.start, iter.pos);
    assert ConformsSlot(f, dest.slots[n], false);
    if !f.htype.Oneof? { PointersTell(iter.start, iter.pos); }
    fixedCount' := fixedCount;
    var v;
    match f.htype {
      case Required =>
        ok, v := DecValue(stream, f, dest.slots[n].v);
        dest.slots := dest.slots[n := Single(v)];
      case Optional =>
        if iter.pSize != InStruct(iter.pData) {
          ok, v := DecValue(stream, f, dest.slots[n].ov);
          dest.slots := dest.slots[n := Opt(true, v)];
        } else {
          ok, v := DecValue(stream, f, dest.slots[n].v);
          dest.slots := dest.slots[n := Single(v)];
        }
      case Repeated =>
        TypedArray(f, dest.slots[n], fixedCount);
        var size := if iter.pSize.FixedCountSize? then fixedCount else |dest.slots[n].items|;
        ok, size := DecRepeated(stream, wire, f, dest, n, size);
        if iter.pSize.FixedCountSize? { fixedCount' := size; }
      case Oneof =>
        MemberBaseConforms(f, false);
        var base := NewMember(f);
        ok, v := DecValue(stream, f, base);
        dest.slots := dest.slots[n := Union(f.tag, v)];
    }
  }

  /** The memory of a oneof member is cleared, and a submessage set to its defaults. */
  method NewMember(f: Field) returns (v: Value)
    requires ValidField(f)
    ensures v == MemberBase(f)
  {
    v := ZeroValue(f);
    if f.ltype.LSubmessage? {
      var member := new Struct(v.slots);
      ZeroMsgWellFormed(f.sub);
      WellFormedIsTyped(f.sub, member.slots);
      MessageSetToDefaults(f.sub, member);
      v := VMsg(member.slots);
    }
  }

  /** The test `pSize != pData` tells whether there is a separate has-flag or count. */
  lemma {:induction false} PointersTell(fields: seq<Field>, i: nat)
    requires i < |fields| && !fields[i].htype.Oneof?
    ensures PSize(fields, i) == PData(fields, i) <==> !HasSizeField(fields[i])
  {
  }

  lemma {:induction false} TypedArray(f: Field, slot: Slot, fixedCount: nat)
    requires f.htype.Repeated? && ConformsSlot(f, slot, false) && (IsFixedCount(f) ==> fixedCount <= f.arraySize)
    ensures ArrayAt(f, slot, CountOf(f, slot, fixedCount))
    ensures CellsFrom(f, slot, CountOf(f, slot, fixedCount)) == CellsFrom(f, slot, fixedCount)
    ensures forall vs: seq<Value> :: |vs| <= |CellsFrom(f, slot, fixedCount)| ==>
              Delivered(f, slot, CountOf(f, slot, fixedCount), vs) == Delivered(f, slot, fixedCount, vs)
  {
    hide ConformsValue, ConformsSpare;
  }

  // ---------- required fields ----------

  const ALL_BITS := 0xFFFF_FFFF

  /** The two words of `fields_seen` hold the set `seen`, all of it below `limit`. */
  ghost predicate Tracks(words: seq<nat>, seen: set<nat>, limit: nat) {
    && |words| == 2 && words[0] < UINT32 && words[1] < UINT32
    && (forall k: nat :: k < 32 ==> (Bit(words[0], k) <==> k in seen))
    && (forall k: nat :: k < 32 ==> (Bit(words[1], k) <==> k + 32 in seen))
    && (forall r: nat :: r in seen ==> r < limit && r < 64)
  }

  lemma {:induction false} MarkTracks(words: seq<nat>, seen: set<nat>, limit: nat, r: nat)
    requires Tracks(words, seen, limit) && r < limit && r < 64
    ensures Tracks(words[r / 32 := BitOr(words[r / 32], Shl(1, r % 32))], seen + {r}, limit)
  {
    hide Bit, BitOr, Shl;
    SetBit(words[r / 32], r % 32);
  }

  /** Comparing a word with the mask of its `n` bits below the limit tells whether all are set. */
  lemma {:induction false} WordComplete(words: seq<nat>, seen: set<nat>, limit: nat, i: nat, n: nat)
    requires Tracks(words, seen, limit) && i < 2 && n <= 32 && (n == 32 || 32 * i + n == limit)
    ensures words[i] == Shl(1, n) - 1 <==> forall r: nat :: 32 * i <= r < 32 * i + n ==> r in seen
  {
    hide Bit, Shl;
    var w := words[i];
    MaskExact(w, n);
    WordSize();
    forall k: nat | k >= 32 ensures !Bit(w, k) { BitAbove(w, 32, k); }
    assert forall k: nat :: k < 32 ==> (Bit(w, k) <==> 32 * i + k in seen);
    if LowBits(w, n) {
      forall r: nat | 32 * i <= r < 32 * i + n ensures r in seen { assert Bit(w, r - 32 * i); }
    }
  }

  /** The check of `fields_seen` against the number of required fields. */
  method CheckRequired(words: array<nat>, count: nat, ghost seen: set<nat>) returns (ok: bool)
    requires words.Length == 2 && count <= 64 && (count > 0 ==> Tracks(words[..], seen, count))
    ensures ok <==> forall r: nat :: r < count ==> r in seen
  {
    hide Tracks, Shl, Shr;
    WordSize();
    if count > 0 {
      var i := 0;
      while i < count / 32
        invariant i <= count / 32
        invariant forall r: nat :: r < 32 * i ==> r in seen
      {
        WordComplete(words[..], seen, count, i, 32);
        if words[i] != ALL_BITS { return false; }
        i := i + 1;
      }
      if count % 32 != 0 {
        WordComplete(words[..], seen, count, i, count % 32);
        ShiftMask(32, 32 - count % 32);
        if words[count / 32] != Shr(ALL_BITS, 32 - count % 32) { return false; }
      }
    }
    return true;
  }

  /** The number of required fields, found by running the iterator to the end of the table. */
  method CountRequired(iter: Iter) returns (count: nat)
    requires iter.Valid()
    modifies iter
    ensures iter.Valid() && count == RequiredBefore(iter.start, |iter.start|)
  {
    hide PData, PSize;
    if iter.start == [] {
      count := iter.requiredIndex;
      return;
    }
    var last := iter.start[iter.pos].htype;
    count := iter.requiredIndex;
    var more := iter.Next();
    while more
      invariant iter.Valid() && (more ==> iter.pos > 0)
      invariant var at := if more then iter.pos - 1 else |iter.start| - 1;
                count == RequiredBefore(iter.start, at) && last == iter.start[at].htype
      decreases more, |iter.start| - iter.pos
    {
      last := iter.start[iter.pos].htype;
      count := iter.requiredIndex;
      more := iter.Next();
    }
    if last.Required? { count := count + 1; }
  }

  // ---------- messages ----------

  /** The locals and the destination of `pb_decode_noinit` stand for the state `st`. */
  ghost predicate Represents(fields: seq<Field>, st: State, slots: seq<Slot>, words: seq<nat>,
                             fixedField: Option<nat>, fixedSize: nat)
  {
    && StateFor(fields, st) && st.m == slots && st.fixed == fixedField && st.fixedCount == fixedSize
    && (fields != [] ==> Tracks(words, st.seen, RequiredBefore(fields, |fields|)))
    && (fixedField.Some? ==> fixedSize <= fields[fixedField.value].arraySize)
  }

  /** The part of the loop in `pb_decode_noinit` that deals with a field the iterator found:
      fixed-count bookkeeping, required-field bookkeeping, decoding. */
  method DecodeFound(stream: IStream, wire: nat, iter: Iter, dest: Struct, fieldsSeen: array<nat>,
                     fixedField: Option<nat>, fixedSize: nat, ghost st: State)
    returns (ok: bool, fixedField': Option<nat>, fixedSize': nat)
    requires stream.Valid() && iter.Valid() && iter.start != [] && fieldsSeen.Length == 2
    requires ValidSchema(iter.start) && Typed(iter.start, dest.slots)
    requires Represents(iter.start, st, dest.slots, fieldsSeen[..], fixedField, fixedSize)
    requires iter.pSize.FixedCountSize? ==> fixedField == Some(iter.pos)
    modifies stream, iter, dest, fieldsSeen
    ensures stream.Valid() && stream.End() <= old(stream.End())
    ensures var r := DecodeKnown(iter.start, old(iter.pos), wire, old(stream.Left()), st);
            (ok <==> r.Good?)
            && (ok ==> stream.End() == old(stream.End()) && stream.Left() == r.rest
                       && iter.Valid() && iter.pos == old(iter.pos)
                       && (iter.pSize.FixedCountSize? ==> fixedField' == Some(iter.pos))
                       && Represents(iter.start, r.value, dest.slots, fieldsSeen[..], fixedField', fixedSize'))
    decreases stream.bytesLeft, 5
  {
    hide DecodeField, Tracks, ConformsMsg, SlotIdx, ValidSchema, BitOr, Shl, PData, PSize, RequiredBefore;
    var f := iter.start[iter.pos];
    fixedField', fixedSize' := fixedField, fixedSize;
    if !f.htype.Oneof? { PointersTell(iter.start, iter.pos); }
    if f.htype.Repeated? && iter.pSize == InStruct(iter.pData) {
      if fixedField != Some(iter.pos) {
        if fixedField.Some? && fixedSize != iter.start[fixedField.value].arraySize {
          return false, fixedField', fixedSize';
        }
        fixedField', fixedSize' := Some(iter.pos), 0;
      }
      iter.pSize := FixedCountSize;
    }
    if f.htype.Required? && iter.requiredIndex < MAX_REQUIRED_FIELDS {
      ghost var words := fieldsSeen[..];
      var word := iter.requiredIndex / 32;
      RequiredBeforeStrict(iter.start, iter.pos, |iter.start|);
      MarkTracks(words, st.seen, RequiredBefore(iter.start, |iter.start|), iter.requiredIndex);
      assert word < 2;
      fieldsSeen[word] := BitOr(fieldsSeen[word], Shl(1, iter.requiredIndex % 32));
      assert fieldsSeen[..] == words[word := BitOr(words[word], Shl(1, iter.requiredIndex % 32))];
    }
    ok, fixedSize' := DecodeStaticField(stream, wire, iter, dest, fixedSize');
  }

  /** A turn of the loop in `pb_decode_noinit` once its key is read: find the field, or skip it. */
  method DecodeKeyed(stream: IStream, wire: nat, tag: nat, iter: Iter, dest: Struct, fieldsSeen: array<nat>,
                     fixedField: Option<nat>, fixedSize: nat, ghost st: State)
    returns (ok: bool, fixedField': Option<nat>, fixedSize': nat)
    requires stream.Valid() && iter.Valid() && fieldsSeen.Length == 2
    requires ValidSchema(iter.start) && Typed(iter.start, dest.slots)
    requires Represents(iter.start, st, dest.slots, fieldsSeen[..], fixedField, fixedSize)
    requires iter.pSize.FixedCountSize? ==> fixedField == Some(iter.pos)
    modifies stream, iter, dest, fieldsSeen
    ensures stream.Valid() && stream.End() <= old(stream.End())
    ensures var r := DecodeTagged(iter.start, tag, wire, old(stream.Left()), st);
            (ok <==> r.Good?)
            && (ok ==> stream.End() == old(stream.End()) && stream.Left() == r.rest && iter.Valid()
                       && (iter.pSize.FixedCountSize? ==> fixedField' == Some(iter.pos))
                       && Represents(iter.start, r.value, dest.slots, fieldsSeen[..], fixedField', fixedSize'))
    decreases stream.bytesLeft, 6
  {
    hide DecodeKnown, SkipField, DecVarint32, Tracks, ConformsMsg, ValidSchema, RequiredBefore, FindField;
    hide SlotIdx, BitOr;
    TableFacts(iter.start, dest.slots);
    fixedField', fixedSize' := fixedField, fixedSize;
    var found := iter.Find(tag);
    if !found {
      ok := DoSkipField(stream, wire);
    } else if iter.start == [] {
      // the terminator of an empty table decodes like a required bool outside the struct
      fieldsSeen[0] := BitOr(fieldsSeen[0], 1);
      var value;
      ok, value := DecodeVarint32(stream);
    } else {
      ok, fixedField', fixedSize' := DecodeFound(stream, wire, iter, dest, fieldsSeen, fixedField, fixedSize, st);
    }
  }

  /** The loop of `pb_decode_noinit`. */
  method DecodeFields(stream: IStream, iter: Iter, dest: Struct, fieldsSeen: array<nat>)
    returns (ok: bool, fixedField: Option<nat>, fixedSize: nat, ghost st: State)
    requires stream.Valid() && iter.Valid() && iter.pSize.InStruct? && fieldsSeen.Length == 2
    requires ValidSchema(iter.start) && Typed(iter.start, dest.slots)
    requires Represents(iter.start, InitialState(dest.slots), dest.slots, fieldsSeen[..], None, 0)
    modifies stream, iter, dest, fieldsSeen
    ensures stream.Valid() && stream.End() <= old(stream.End())
    ensures var r := DecodeLoop(iter.start, old(stream.Left()), InitialState(old(dest.slots)));
            (ok <==> r.LoopDone?)
            && (ok ==> stream.End() == old(stream.End()) && stream.Left() == r.rest && iter.Valid() && st == r.st
                       && Represents(iter.start, st, dest.slots, fieldsSeen[..], fixedField, fixedSize))
    decreases stream.bytesLeft, 7
  {
    hide DecodeTurn, DecodeTagged, DecVarint32, ConformsMsg, ValidSchema, Represents, DecodeLoop;
    fixedField, fixedSize, st := None, 0, InitialState(dest.slots);
    RepresentsState(iter.start, st, dest.slots, fieldsSeen[..], fixedField, fixedSize);
    var stopped := false;
    while stream.bytesLeft > 0 && !stopped
      invariant stream.Valid() && stream.End() == old(stream.End()) && stream.bytesLeft <= old(stream.bytesLeft)
      invariant iter.Valid() && (iter.pSize.FixedCountSize? ==> fixedField == Some(iter.pos))
      invariant Typed(iter.start, dest.slots) && StateFor(iter.start, st) && st.m == dest.slots
      invariant Represents(iter.start, st, dest.slots, fieldsSeen[..], fixedField, fixedSize)
      invariant DecodeLoop(iter.start, old(stream.Left()), InitialState(old(dest.slots)))
             == if stopped then LoopDone(st, stream.Left(), true) else DecodeLoop(iter.start, stream.Left(), st)
      decreases stream.bytesLeft
    {
      ghost var left := stream.Left();
      var tagged, wire, tag, eof := DecodeTag(stream);
      LoopTurn(iter.start, left, st);
      if tagged {
        ok, fixedField, fixedSize := DecodeKeyed(stream, wire, tag, iter, dest, fieldsSeen, fixedField, fixedSize, st);
        if !ok { return; }
        TurnConforms(iter.start, left, st, false);
        st := DecodeTurn(iter.start, left, st).st;
        RepresentsState(iter.start, st, dest.slots, fieldsSeen[..], fixedField, fixedSize);
      } else if eof {
        stopped := true;
      } else {
        return false, fixedField, fixedSize, st;
      }
    }
    assert stopped || stream.Left() == [];
    LoopEnds(iter.start, st);
    ok := true;
  }

  /** `pb_decode_noinit`. */
  method DecodeNoInit(stream: IStream, fields: seq<Field>, dest: Struct) returns (ok: bool)
    requires stream.Valid() && ValidSchema(fields) && Typed(fields, dest.slots)
    modifies stream, dest
    ensures stream.Yields(old(stream.End()), ok, dest.slots,
                          DecodeSpec.DecodeNoInit(fields, old(stream.Left()), old(dest.slots)))
    decreases stream.bytesLeft, 8
  {
    hide DecodeLoop, ConformsMsg, ValidSchema, Tracks, RunComplete, RequiredPresent;
    var fieldsSeen := new nat[2](_ => 0);
    var iter := new Iter.Begin(fields);
    NothingSeen(fieldsSeen[..], RequiredBefore(fields, |fields|));
    TableFacts(fields, dest.slots);
    var fixedField, fixedSize;
    ghost var st;
    ok, fixedField, fixedSize, st := DecodeFields(stream, iter, dest, fieldsSeen);
    if !ok { return; }
    ok := CheckComplete(iter, fieldsSeen, fixedField, fixedSize, st);
  }

  lemma {:induction false} RepresentsState(fields: seq<Field>, st: State, slots: seq<Slot>, words: seq<nat>,
                                           fixedField: Option<nat>, fixedSize: nat)
    requires Represents(fields, st, slots, words, fixedField, fixedSize)
    ensures StateFor(fields, st) && st.m == slots
  {
  }

  /** The checks at the end of `pb_decode_noinit`: the last fixed-count run is complete and every
      required field was present. */
  method CheckComplete(iter: Iter, fieldsSeen: array<nat>, fixedField: Option<nat>, fixedSize: nat, ghost st: State)
    returns (ok: bool)
    requires iter.Valid() && fieldsSeen.Length == 2
    requires Represents(iter.start, st, st.m, fieldsSeen[..], fixedField, fixedSize)
    modifies iter
    ensures ok <==> RunComplete(iter.start, st) && RequiredPresent(iter.start, st.seen)
  {
    hide Tracks, PData, PSize, SlotIdx, NumSlots, RequiredBefore;
    if fixedField.Some? && fixedSize != iter.start[fixedField.value].arraySize { return false; }
    var count := CountRequired(iter);
    if iter.start != [] { TracksBelow(fieldsSeen[..], st.seen, count); }
    if count > MAX_REQUIRED_FIELDS { count := MAX_REQUIRED_FIELDS; }
    ok := CheckRequired(fieldsSeen, count, st.seen);
  }

  lemma {:induction false} TableFacts(fields: seq<Field>, m: seq<Slot>)
    requires ValidSchema(fields) && Typed(fields, m)
    ensures DistinctTags(fields) && |m| == NumSlots(fields)
  {
  }

  lemma {:induction false} TracksBelow(words: seq<nat>, seen: set<nat>, limit: nat)
    requires Tracks(words, seen, limit)
    ensures Tracks(words, seen, if limit > 64 then 64 else limit)
  {
    hide Bit;
  }

  lemma {:induction false} NothingSeen(words: seq<nat>, limit: nat)
    requires |words| == 2 && words[0] == words[1] == 0
    ensures Tracks(words, {}, limit)
  {
    forall k: nat ensures !Bit(0, k) { NoBits(k); }
  }

  /** One turn of the loop, in terms of its key. */
  lemma {:induction false} LoopTurn(fields: seq<Field>, s: seq<byte>, st: State)
    requires StateFor(fields, st) && s != []
    ensures var key := DecVarint32(s);
            DecodeLoop(fields, s, st)
            == if key.Bad? then LoopFailed
               else if key.value == 0 then LoopDone(st, key.rest, true)
               else match DecodeTagged(fields, key.value / 8, key.value % 8, key.rest, st)
                    case Bad => LoopFailed
                    case Good(st', rest) => DecodeLoop(fields, rest, st')
    ensures var key := DecVarint32(s);
            key.Good? && key.value != 0 ==>
              var r := DecodeTagged(fields, key.value / 8, key.value % 8, key.rest, st);
              r.Good? ==> DecodeTurn(fields, s, st) == Next(r.value, r.rest)
  {
    hide DecodeTagged, DecVarint32;
  }

  /** `pb_decode`. */
  method DecodeMessage(stream: IStream, fields: seq<Field>, dest: Struct) returns (ok: bool)
    requires stream.Valid() && ValidSchema(fields) && Typed(fields, dest.slots)
    modifies stream, dest
    ensures stream.Yields(old(stream.End()), ok, dest.slots, Decode(fields, old(stream.Left()), old(dest.slots)))
    decreases stream.bytesLeft, 9
  {
    hide DecodeSpec.DecodeNoInit, ConformsMsg, ValidSchema, Defaults;
    DefaultsConform(fields, dest.slots, false);
    MessageSetToDefaults(fields, dest);
    ok := DecodeNoInit(stream, fields, dest);
  }

  /** `pb_decode_delimited`. */
  method DecodeDelimited(stream: IStream, fields: seq<Field>, dest: Struct) returns (ok: bool)
    requires stream.Valid() && ValidSchema(fields) && Typed(fields, dest.slots)
    modifies stream, dest
    ensures stream.Yields(old(stream.End()), ok, dest.slots,
                          DecodeSpec.DecodeDelimited(fields, old(stream.Left()), old(dest.slots)))
  {
    hide Decode, TakeDelimited, ValidSchema, ConformsMsg;
    var sub;
    ok, sub := MakeStringSubstream(stream);
    if !ok { return; }
    var status := DecodeMessage(sub, fields, dest);
    ok := CloseStringSubstream(stream, sub);
    ok := ok && status;
  }
}

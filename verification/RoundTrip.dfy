/** Decoding what the encoder wrote: success, full consumption, and the struct that arrives. */
module RoundTrip {
  import opened Bytes
  import opened Schema
  import opened Varint
  import opened EncodeSpec
  import opened DecodeSpec
  import opened Preservation

  // ---------- what arrives ----------

  /** `b` is what a receiver of `a` ends up with: the same value, except that a proto3
      field left out as default takes its table default. */
  ghost predicate ArrivesValue(f: Field, a: Value, b: Value)
    decreases f, 0
  {
    if f.ltype.LSubmessage? then a.VMsg? && b.VMsg? && ArrivesMsg(f.sub, a.slots, b.slots)
    else SameValue(f, a, b)
  }

  ghost predicate ArrivesItems(f: Field, a: seq<Value>, b: seq<Value>, n: nat)
    decreases f, 1
  {
    n <= |a| && n <= |b| && forall k :: 0 <= k < n ==> ArrivesValue(f, a[k], b[k])
  }

  ghost predicate ArrivesSlot(f: Field, s: Slot, t: Slot)
    decreases f, 2
  {
    match f.htype
    case Required => s.Single? && t.Single? && ArrivesValue(f, s.v, t.v)
    case Optional =>
      if HasSizeField(f)
      then s.Opt? && t.Opt? && s.has == t.has && (s.has ==> ArrivesValue(f, s.ov, t.ov))
      else s.Single? && t.Single?
           && if IsDefault(f, s) then AtDefault(f, t) else ArrivesValue(f, s.v, t.v)
    case Repeated => s.Rep? && t.Rep? && |s.items| == |t.items| && ArrivesItems(f, s.items, t.items, |s.items|)
    case Oneof =>
      s.Union? && t.Union? && (t.which == 0 || t.which == s.which) && (s.which == f.tag <==> t.which == f.tag)
      && (s.which == f.tag ==> ArrivesValue(f, s.member, t.member))
  }

  ghost predicate ArrivesMsg(fields: seq<Field>, a: seq<Slot>, b: seq<Slot>)
    decreases fields
  {
    |a| == |b| == NumSlots(fields)
    && forall i :: 0 <= i < |fields| ==>
         SlotIdx(fields, i) < |a|
         && ArrivesSlot(fields[i], a[SlotIdx(fields, i)], b[SlotIdx(fields, i)])
  }

  // ---------- scalars ----------

  lemma {:induction false} SignedInverse(size: nat, i: int)
    requires SignedFits(size, i)
    ensures (if size == 8 then ToInt64(ToUint64(i)) else ToInt32(ToUint64(i))) == i
  {
    if size != 8 && i < 0 {
      assert i >= -UINT31;
      Low32Wraps(0xFFFF_FFFF, UINT32 + i);
    }
  }

  lemma {:induction false} CStrOfPrefix(s: seq<byte>, r: seq<byte>)
    requires 0 !in s && |s| < |r| && r[..|s|] == s && r[|s|] == 0
    ensures CStr(r) == s
    decreases s
  {
    if s != [] {
      assert r[0] == s[0];
      assert 0 !in s[1..];
      assert r[1..][..|s| - 1] == s[1..];
      CStrOfPrefix(s[1..], r[1..]);
    }
  }

  lemma {:induction false} CStrShorter(s: seq<byte>)
    requires 0 in s
    ensures |CStr(s)| < |s|
  {
    assert CStr(s) != s;
  }

  /** The destination fits the field: a string array of the right size, or a submessage
      that is at its defaults when decoding starts. */
  ghost predicate BaseFor(f: Field, base: Value) {
    match f.ltype
    case LString => base.VString? && |base.chars| == f.dataSize
    case LSubmessage => base.VMsg? && AtDefaults(f.sub, SubBase(f, base))
    case _ => true
  }

  lemma {:induction false} ScalarRoundTrip(f: Field, v: Value, base: Value, rest: seq<byte>)
    requires ValidField(f) && !f.ltype.LSubmessage? && ConformsValue(f, v, true) && BaseFor(f, base)
    ensures EncodeScalar(f, v).Some?
    ensures DecodeScalar(f, EncodeScalar(f, v).value + rest, base).Good?
    ensures DecodeScalar(f, EncodeScalar(f, v).value + rest, base).rest == rest
    ensures SameValue(f, v, DecodeScalar(f, EncodeScalar(f, v).value + rest, base).value)
  {
    hide DecVarint32, DecVarint, EncVarint, TakeDelimited, EncFixed, FixedValue, ToInt32, ToInt64, Unzigzag;
    hide Zigzag, ToUint64;
    match f.ltype
    case LBool => Varint32RoundTrip(if v.b then 1 else 0, rest);
    case LVarint =>
      VarintRoundTrip(ToUint64(v.i), rest);
      SignedInverse(f.dataSize, v.i);
    case LUVarint => VarintRoundTrip(v.i, rest);
    case LSVarint =>
      VarintRoundTrip(Zigzag(v.i), rest);
      ZigzagInverse(v.i, 0);
    case LFixed32 => FixedFieldRoundTrip(4, v.i, rest);
    case LFixed64 => FixedFieldRoundTrip(8, v.i, rest);
    case LBytes => TakeDelimitedRoundTrip(v.content, rest);
    case LString =>
      var c := CStr(v.chars);
      CStrShorter(v.chars);
      TakeDelimitedRoundTrip(c, rest);
      CStrOfPrefix(c, StoreString(base.chars, c));
    case LFixedBytes => TakeDelimitedRoundTrip(v.data, rest);
  }

  lemma {:induction false} FixedFieldRoundTrip(n: nat, v: nat, rest: seq<byte>)
    requires (n == 4 && v < UINT32) || (n == 8 && v < UINT64)
    ensures DecFixed(EncFixed(n, v) + rest, n) == Good(v, rest)
  {
    hide EncFixed, FixedValue, Pow256;
    Pow256Facts();
    FixedRoundTrip(n, v);
    assert (EncFixed(n, v) + rest)[..n] == EncFixed(n, v);
    assert (EncFixed(n, v) + rest)[n..] == rest;
  }

  lemma {:induction false} ZeroFits(f: Field)
    requires !f.ltype.LSubmessage?
    ensures BaseFor(f, ZeroValue(f))
  {
  }

  /** A packed run reads back as the very elements written. */
  lemma {:induction false} PackedDataRoundTrip(f: Field, items: seq<Value>, room: nat)
    requires ValidField(f) && Packable(f.ltype) && |items| <= room
    requires forall k :: 0 <= k < |items| ==> ConformsValue(f, items[k], true)
    ensures EncodePackedData(f, items).Some?
    ensures DecodePackedData(f, EncodePackedData(f, items).value, room) == Some(items)
    decreases items
  {
    hide EncodeScalar, DecodeScalar;
    if items != [] {
      PackedDataRoundTrip(f, items[1..], room - 1);
      var rest := EncodePackedData(f, items[1..]).value;
      ZeroFits(f);
      ScalarRoundTrip(f, items[0], ZeroValue(f), rest);
      ScalarNonEmpty(f, items[0]);
      assert [items[0]] + items[1..] == items;
    }
  }

  lemma {:induction false} ScalarNonEmpty(f: Field, v: Value)
    requires EncodeScalar(f, v).Some?
    ensures |EncodeScalar(f, v).value| >= 1
  {
  }

  // ---------- one turn of the loop ----------

  /** A turn on the key of field `i` decodes that field. */
  lemma {:induction false} KnownTurn(fields: seq<Field>, i: nat, wire: nat, p: seq<byte>, st: State)
    requires ValidSchema(fields) && i < |fields| && wire < 8 && StateFor(fields, st)
    requires DecodeKnown(fields, i, wire, p, st).Good?
    ensures DecodeLoop(fields, EncTag(fields[i].tag, wire) + p, st)
         == DecodeLoop(fields, DecodeKnown(fields, i, wire, p, st).rest, DecodeKnown(fields, i, wire, p, st).value)
  {
    hide DecodeKnown, DecVarint32, EncVarint, FindField;
    var tag := fields[i].tag;
    assert ValidField(fields[i]);
    Varint32RoundTrip(8 * tag + wire, p);
    FindUnique(fields, i);
    assert (8 * tag + wire) / 8 == tag && (8 * tag + wire) % 8 == wire;
    var r := DecodeKnown(fields, i, wire, p, st);
    assert DecodeTagged(fields, tag, wire, p, st) == r;
    assert DecodeTurn(fields, EncTag(tag, wire) + p, st) == Next(r.value, r.rest);
  }

  /** If that fails, the loop fails. */
  lemma {:induction false} KnownFails(fields: seq<Field>, i: nat, wire: nat, p: seq<byte>, st: State)
    requires ValidSchema(fields) && i < |fields| && wire < 8 && StateFor(fields, st)
    requires DecodeKnown(fields, i, wire, p, st).Bad?
    ensures DecodeLoop(fields, EncTag(fields[i].tag, wire) + p, st) == LoopFailed
  {
    hide DecodeKnown, DecVarint32, EncVarint, FindField;
    var tag := fields[i].tag;
    assert ValidField(fields[i]);
    Varint32RoundTrip(8 * tag + wire, p);
    FindUnique(fields, i);
    assert (8 * tag + wire) / 8 == tag && (8 * tag + wire) % 8 == wire;
    assert DecodeTagged(fields, tag, wire, p, st) == Bad;
    assert DecodeTurn(fields, EncTag(tag, wire) + p, st) == Failed;
  }

  /** `k` elements of repeated field `i` have been delivered. For an array of fixed length its run
      is open at `k`, or it can be entered. */
  ghost predicate CountIs(fields: seq<Field>, i: nat, st: State, k: nat)
    requires i < |fields|
  {
    StateFor(fields, st) && SlotIdx(fields, i) < |st.m| && k <= fields[i].arraySize
    && var f, slot := fields[i], st.m[SlotIdx(fields, i)];
       slot.Rep?
       && (if HasSizeField(f) then |slot.items| == k && k + |slot.spare| == f.arraySize
           else |slot.items| == f.arraySize
                && ((st.fixed == Some(i) && st.fixedCount == k)
                    || (k == 0 && st.fixed != Some(i) && RunComplete(fields, st))))
       && forall c :: 0 <= c < |CellsFrom(f, slot, k)| ==> ConformsValue(f, CellsFrom(f, slot, k)[c], false)
  }

  /** The state after the elements `vs` of field `i` are stored from `k` on. */
  function Stored(fields: seq<Field>, i: nat, st: State, k: nat, vs: seq<Value>): State
    requires i < |fields| && SlotIdx(fields, i) < |st.m| && st.m[SlotIdx(fields, i)].Rep?
    requires |vs| <= |CellsFrom(fields[i], st.m[SlotIdx(fields, i)], k)|
    requires HasSizeField(fields[i]) || k <= |st.m[SlotIdx(fields, i)].items|
  {
    var n := SlotIdx(fields, i);
    var stored := st.(m := st.m[n := Delivered(fields[i], st.m[n], k, vs)]);
    if HasSizeField(fields[i]) then stored else stored.(fixed := Some(i), fixedCount := k + |vs|)
  }

  /** If an occurrence delivers `vs` as the elements from `k` on, that is what is stored. */
  lemma {:induction false} ElementsKnown(fields: seq<Field>, i: nat, wire: nat, s: seq<byte>, vs: seq<Value>,
                                         k: nat, st: State, rest: seq<byte>)
    requires i < |fields| && fields[i].htype.Repeated? && CountIs(fields, i, st, k)
    requires DecodeElements(fields[i], wire, s, k, CellsFrom(fields[i], st.m[SlotIdx(fields, i)], k)) == Good(vs, rest)
    requires k + |vs| <= fields[i].arraySize
    ensures |vs| <= |CellsFrom(fields[i], st.m[SlotIdx(fields, i)], k)|
    ensures DecodeKnown(fields, i, wire, s, st) == Good(Stored(fields, i, st, k, vs), rest)
    ensures CountIs(fields, i, Stored(fields, i, st, k, vs), k + |vs|)
  {
    hide DecodeElements, ConformsValue;
    var st1 := EnterField(fields, i, st).value;
    assert st1 == if HasSizeField(fields[i]) then st else st.(fixed := Some(i), fixedCount := k);
    CellsAdvance(fields[i], st.m[SlotIdx(fields, i)], k, vs);
  }

  /** The cells left after storing are those after the ones stored. */
  lemma {:induction false} CellsAdvance(f: Field, slot: Slot, k: nat, vs: seq<Value>)
    requires slot.Rep? && |vs| <= |CellsFrom(f, slot, k)| && (HasSizeField(f) || k <= |slot.items|)
    ensures CellsFrom(f, Delivered(f, slot, k, vs), k + |vs|) == CellsFrom(f, slot, k)[|vs|..]
  {
  }

  /** One element decodes as element `k` of a repeated field. */
  lemma {:induction false} ElementTurn(fields: seq<Field>, i: nat, p: seq<byte>, v: Value, k: nat, st: State,
                                       rest: seq<byte>)
    requires ValidSchema(fields) && i < |fields| && CountIs(fields, i, st, k)
    requires fields[i].htype.Repeated? && !Packable(fields[i].ltype) && k < fields[i].arraySize
    requires |CellsFrom(fields[i], st.m[SlotIdx(fields, i)], k)| > 0
    requires DecodeValue(fields[i], p, CellsFrom(fields[i], st.m[SlotIdx(fields, i)], k)[0]) == Good(v, rest)
    ensures CountIs(fields, i, Stored(fields, i, st, k, [v]), k + 1)
    ensures DecodeLoop(fields, EncTag(fields[i].tag, WireType(fields[i].ltype)) + p, st)
         == DecodeLoop(fields, rest, Stored(fields, i, st, k, [v]))
  {
    hide DecodeValue, DecodeLoop, EncTag, DecodePackedData, Stored, CountIs, CellsFrom;
    CountShape(fields, i, st, k);
    var wire := WireType(fields[i].ltype);
    var cells := CellsFrom(fields[i], st.m[SlotIdx(fields, i)], k);
    assert DecodeElements(fields[i], wire, p, k, cells) == Good([v], rest);
    ElementsKnown(fields, i, wire, p, [v], k, st, rest);
    KnownTurn(fields, i, wire, p, st);
  }

  lemma {:induction false} CountShape(fields: seq<Field>, i: nat, st: State, k: nat)
    requires i < |fields| && CountIs(fields, i, st, k)
    ensures StateFor(fields, st) && SlotIdx(fields, i) < |st.m| && st.m[SlotIdx(fields, i)].Rep?
    ensures var f, slot := fields[i], st.m[SlotIdx(fields, i)];
            k + |CellsFrom(f, slot, k)| == f.arraySize && (HasSizeField(f) || k <= |slot.items|)
            && forall c :: 0 <= c < |CellsFrom(f, slot, k)| ==> ConformsValue(f, CellsFrom(f, slot, k)[c], false)
  {
    hide ConformsValue;
  }

  // ---------- progress through a message ----------

  /** Where the slot of a field stands while the fields of `src` arrive in table order. */
  ghost predicate FieldState(f: Field, src: Slot, dst: Slot, done: bool) {
    if f.htype.Oneof? then
      dst.Union? && src.Union? && (dst.which == 0 || dst.which == src.which)
      && (done ==> ArrivesSlot(f, src, dst))
    else if done then ArrivesSlot(f, src, dst)
    else AtDefault(f, dst)
  }

  ghost predicate SlotsInProgress(fields: seq<Field>, src: seq<Slot>, dst: seq<Slot>, i: nat) {
    |src| == |dst| == NumSlots(fields)
    && forall j :: 0 <= j < |fields| ==>
         SlotIdx(fields, j) < |src|
         && FieldState(fields[j], src[SlotIdx(fields, j)], dst[SlotIdx(fields, j)], j < i)
  }

  ghost predicate Marked(fields: seq<Field>, seen: set<nat>, i: nat)
    requires i <= |fields|
  {
    forall j :: 0 <= j < i && fields[j].htype.Required? && RequiredBefore(fields, j) < MAX_REQUIRED_FIELDS
            ==> RequiredBefore(fields, j) in seen
  }

  ghost predicate Progress(fields: seq<Field>, src: seq<Slot>, st: State, i: nat) {
    i <= |fields| && StateFor(fields, st) && RunComplete(fields, st)
    && (st.fixed.Some? ==> st.fixed.value < i)
    && SlotsInProgress(fields, src, st.m, i)
    && Marked(fields, st.seen, i)
  }

  /** Storing what arrived for field `i` completes that field and disturbs no other. */
  lemma {:induction false} SlotsAdvance(fields: seq<Field>, src: seq<Slot>, dst: seq<Slot>, i: nat, slot: Slot)
    requires ValidSchema(fields) && i < |fields| && SlotsInProgress(fields, src, dst, i)
    requires FieldState(fields[i], src[SlotIdx(fields, i)], slot, true)
    requires fields[i].htype.Oneof? ==>
               slot == dst[SlotIdx(fields, i)] || slot.which == src[SlotIdx(fields, i)].which == fields[i].tag
    ensures SlotsInProgress(fields, src, dst[SlotIdx(fields, i) := slot], i + 1)
  {
    hide ArrivesSlot;
    var dst' := dst[SlotIdx(fields, i) := slot];
    forall j | 0 <= j < |fields|
      ensures FieldState(fields[j], src[SlotIdx(fields, j)], dst'[SlotIdx(fields, j)], j < i + 1)
    {
      assert FieldState(fields[j], src[SlotIdx(fields, j)], dst[SlotIdx(fields, j)], j < i);
      if j != i && SlotIdx(fields, j) == SlotIdx(fields, i) {
        OtherMember(fields, src, dst, i, j, slot);
      }
    }
  }

  lemma {:induction false} OtherMember(fields: seq<Field>, src: seq<Slot>, dst: seq<Slot>, i: nat, j: nat, slot: Slot)
    requires ValidSchema(fields) && i < |fields| && SlotsInProgress(fields, src, dst, i)
    requires FieldState(fields[i], src[SlotIdx(fields, i)], slot, true)
    requires fields[i].htype.Oneof? ==>
               slot == dst[SlotIdx(fields, i)] || slot.which == src[SlotIdx(fields, i)].which == fields[i].tag
    requires j < |fields| && j != i && SlotIdx(fields, j) == SlotIdx(fields, i)
    ensures FieldState(fields[j], src[SlotIdx(fields, j)], slot, j < i + 1)
  {
    hide ArrivesValue, SlotIdx;
    if i < j {
      SlotShared(fields, i, j);
      assert fields[i].tag != fields[j].tag;
    } else {
      SlotShared(fields, j, i);
      assert fields[j].tag != fields[i].tag;
    }
    assert FieldState(fields[j], src[SlotIdx(fields, j)], dst[SlotIdx(fields, j)], j < i);
  }

  // ---------- the round trip, by induction over the table ----------

  lemma {:induction false} ValueRoundTrip(f: Field, v: Value, base: Value, rest: seq<byte>)
    requires ValidField(f) && ConformsValue(f, v, true) && BaseFor(f, base)
    requires EncodeValue(f, v).Some? && PayloadFits(f, v, UINT32)
    ensures DecodeValue(f, EncodeValue(f, v).value + rest, base).Good?
    ensures DecodeValue(f, EncodeValue(f, v).value + rest, base).rest == rest
    ensures ArrivesValue(f, v, DecodeValue(f, EncodeValue(f, v).value + rest, base).value)
    decreases f, 0
  {
    hide EncodeMsg, DecodeNoInit, EncodeScalar, DecodeScalar, TakeDelimited, EncVarint, AtDefaults;
    if f.ltype.LSubmessage? {
      var payload := EncodeMsg(f.sub, v.slots).value;
      TakeDelimitedRoundTrip(payload, rest);
      MessageRoundTrip(f.sub, v.slots, SubBase(f, base));
    } else {
      ScalarRoundTrip(f, v, base, rest);
    }
  }

  lemma {:induction false} CellFits(f: Field, v: Value)
    requires ValidField(f) && f.htype.Repeated? && ConformsValue(f, v, false)
    ensures BaseFor(f, v)
  {
    if f.ltype.LSubmessage? { DefaultsAtDefaults(f.sub, v.slots); }
  }

  lemma {:induction false} UnpackedRoundTrip(fields: seq<Field>, i: nat, items: seq<Value>, k: nat, st: State,
                                             rest: seq<byte>) returns (st': State)
    requires ValidSchema(fields) && i < |fields| && k <= |items| <= fields[i].arraySize
    requires fields[i].htype.Repeated? && !Packable(fields[i].ltype) && CountIs(fields, i, st, k)
    requires forall n :: 0 <= n < |items| ==> ConformsValue(fields[i], items[n], true)
    requires ArrivesItems(fields[i], items, st.m[SlotIdx(fields, i)].items, k)
    requires forall n :: 0 <= n < |items| ==> PayloadFits(fields[i], items[n], UINT32)
    requires EncodeUnpacked(fields[i], items[k..]).Some?
    ensures CountIs(fields, i, st', |items|) && OnlySlot(fields, i, st, st')
    ensures ArrivesItems(fields[i], items, st'.m[SlotIdx(fields, i)].items, |items|)
    ensures DecodeLoop(fields, EncodeUnpacked(fields[i], items[k..]).value + rest, st)
         == DecodeLoop(fields, rest, st')
    decreases fields[i], 2, |items| - k
  {
    hide DecodeLoop, DecodeValue, EncodeValue, EncodeUnpacked, EncTag, ConformsValue, ArrivesValue, CountIs;
    hide PayloadFits, CellsFrom, BaseFor, SlotIdx;
    var f := fields[i];
    CountShape(fields, i, st, k);
    EncodeUnpackedSplit(f, items, k);
    if k == |items| {
      st' := st;
      assert [] + rest == rest;
    } else {
      var e := EncodeValue(f, items[k]).value;
      var more := EncodeUnpacked(f, items[k + 1..]).value + rest;
      var cell := CellsFrom(f, st.m[SlotIdx(fields, i)], k)[0];
      assert ValidField(f);
      CellFits(f, cell);
      ValueRoundTrip(f, items[k], cell, more);
      var v := DecodeValue(f, e + more, cell).value;
      ElementTurn(fields, i, e + more, v, k, st, more);
      var st1 := Stored(fields, i, st, k, [v]);
      assert EncodeUnpacked(f, items[k..]).value + rest == EncTag(f.tag, WireType(f.ltype)) + (e + more);
      StoredItems(fields, i, st, k, v);
      ItemsArriveNext(f, items, st.m[SlotIdx(fields, i)].items, st1.m[SlotIdx(fields, i)].items, k, v);
      st' := UnpackedRoundTrip(fields, i, items, k + 1, st1, rest);
    }
  }

  /** Storing element `k` keeps the elements before it and touches only its field. */
  lemma {:induction false} StoredItems(fields: seq<Field>, i: nat, st: State, k: nat, v: Value)
    requires i < |fields| && CountIs(fields, i, st, k) && k < fields[i].arraySize
    ensures |CellsFrom(fields[i], st.m[SlotIdx(fields, i)], k)| > 0
    ensures OnlySlot(fields, i, st, Stored(fields, i, st, k, [v]))
    ensures var got, got' := st.m[SlotIdx(fields, i)].items, Stored(fields, i, st, k, [v]).m[SlotIdx(fields, i)].items;
            k < |got'| && k <= |got| && got'[..k] == got[..k] && got'[k] == v
  {
    hide ConformsValue, SlotIdx;
  }

  lemma {:induction false} ItemsArriveNext(f: Field, items: seq<Value>, got: seq<Value>, got': seq<Value>,
                                           k: nat, v: Value)
    requires ArrivesItems(f, items, got, k) && k < |items| && ArrivesValue(f, items[k], v)
    requires k < |got'| && got'[..k] == got[..k] && got'[k] == v
    ensures ArrivesItems(f, items, got', k + 1)
  {
    hide ArrivesValue;
    forall n | 0 <= n < k + 1 ensures ArrivesValue(f, items[n], got'[n]) {
      if n < k { assert got'[..k][n] == got[..k][n]; }
    }
  }

  lemma {:induction false} EncodeUnpackedSplit(f: Field, items: seq<Value>, k: nat)
    requires k <= |items| && EncodeUnpacked(f, items[k..]).Some?
    ensures k == |items| ==> EncodeUnpacked(f, items[k..]) == Some([])
    ensures k < |items| ==>
              EncodeValue(f, items[k]).Some? && EncodeUnpacked(f, items[k + 1..]).Some?
              && EncodeUnpacked(f, items[k..]).value
                 == EncTag(f.tag, WireType(f.ltype)) + EncodeValue(f, items[k]).value
                    + EncodeUnpacked(f, items[k + 1..]).value
  {
    hide EncodeValue, EncTag;
    if k < |items| { assert items[k..][1..] == items[k + 1..]; }
  }

  /** From `st` to `st'` only the slot of field `i` and its fixed-count run have changed. */
  ghost predicate OnlySlot(fields: seq<Field>, i: nat, st: State, st': State)
    requires i < |fields|
  {
    StateFor(fields, st) && StateFor(fields, st') && SlotIdx(fields, i) < |st.m|
    && st'.m == st.m[SlotIdx(fields, i) := st'.m[SlotIdx(fields, i)]]
    && st'.seen == st.seen
    && (HasSizeField(fields[i]) ==> st'.fixed == st.fixed && st'.fixedCount == st.fixedCount)
  }

  /** A packed run delivers all its elements in one turn. */
  lemma {:induction false} PackedRoundTrip(fields: seq<Field>, i: nat, items: seq<Value>, st: State, rest: seq<byte>)
    requires ValidSchema(fields) && i < |fields| && 0 < |items| <= fields[i].arraySize
    requires fields[i].htype.Repeated? && Packable(fields[i].ltype) && CountIs(fields, i, st, 0)
    requires forall n :: 0 <= n < |items| ==> ConformsValue(fields[i], items[n], true)
    requires EncodePackedData(fields[i], items).Some? && |EncodePackedData(fields[i], items).value| < UINT32
    ensures EncodePacked(fields[i], items).Some?
    ensures |items| <= |CellsFrom(fields[i], st.m[SlotIdx(fields, i)], 0)|
    ensures DecodeLoop(fields, EncodePacked(fields[i], items).value + rest, st)
         == DecodeLoop(fields, rest, Stored(fields, i, st, 0, items))
  {
    hide DecodeLoop, EncTag, EncodePackedData, DecodePackedData, EncVarint, ConformsValue, TakeDelimited;
    var f := fields[i];
    assert ValidField(f);
    PackedDataRoundTrip(f, items, f.arraySize);
    var d := EncodePackedData(f, items).value;
    TakeDelimitedRoundTrip(d, rest);
    var cells := CellsFrom(f, st.m[SlotIdx(fields, i)], 0);
    assert DecodeElements(f, 2, EncString(d) + rest, 0, cells) == Good(items, rest);
    ElementsKnown(fields, i, 2, EncString(d) + rest, items, 0, st, rest);
    KnownTurn(fields, i, 2, EncString(d) + rest, st);
    assert EncodePacked(f, items).value + rest == EncTag(f.tag, 2) + (EncString(d) + rest);
  }

  /** The slot a singular field or union member has once `v` is stored. */
  function NewSlot(f: Field, v: Value): Slot {
    match f.htype
    case Oneof => Union(f.tag, v)
    case _ => if f.htype.Optional? && HasSizeField(f) then Opt(true, v) else Single(v)
  }

  /** What a singular field or union member decodes into. */
  function SlotBase(f: Field, slot: Slot): Value {
    match slot
    case Single(v) => v
    case Opt(_, v) => v
    case _ => MemberBase(f)
  }

  predicate SingularSlot(f: Field, slot: Slot) {
    match f.htype
    case Required => slot.Single?
    case Optional => if HasSizeField(f) then slot.Opt? else slot.Single?
    case Repeated => false
    case Oneof => slot.Union?
  }

  lemma {:induction false} SingularTurn(fields: seq<Field>, i: nat, p: seq<byte>, v: Value, st: State, rest: seq<byte>)
    requires ValidSchema(fields) && i < |fields| && StateFor(fields, st) && SlotIdx(fields, i) < |st.m|
    requires SingularSlot(fields[i], st.m[SlotIdx(fields, i)])
    requires DecodeValue(fields[i], p, SlotBase(fields[i], st.m[SlotIdx(fields, i)])) == Good(v, rest)
    ensures DecodeLoop(fields, EncTag(fields[i].tag, WireType(fields[i].ltype)) + p, st)
         == DecodeLoop(fields, rest,
                       MarkSeen(fields, i, st).(m := st.m[SlotIdx(fields, i) := NewSlot(fields[i], v)]))
  {
    hide DecodeValue, DecodeLoop, EncTag, MarkSeen;
    var f, wire := fields[i], WireType(fields[i].ltype);
    assert EnterField(fields, i, st) == Some(MarkSeen(fields, i, st));
    assert DecodeField(f, wire, p, st.m[SlotIdx(fields, i)], st.fixedCount) == Good((NewSlot(f, v), 1), rest);
    KnownTurn(fields, i, wire, p, st);
  }

  /** A singular field or union member that is written arrives. */
  lemma {:induction false} TaggedRoundTrip(fields: seq<Field>, src: seq<Slot>, i: nat, v: Value, st: State,
                                           rest: seq<byte>)
      returns (st': State)
    requires ValidSchema(fields) && i < |fields| && Progress(fields, src, st, i)
    requires SingularSlot(fields[i], src[SlotIdx(fields, i)]) && ConformsValue(fields[i], v, true)
    requires Written(fields[i], src[SlotIdx(fields, i)], v)
    requires EncodeTagged(fields[i], v).Some? && PayloadFits(fields[i], v, UINT32)
    ensures Progress(fields, src, st', i + 1)
    ensures DecodeLoop(fields, EncodeTagged(fields[i], v).value + rest, st) == DecodeLoop(fields, rest, st')
    decreases fields[i], 3
  {
    hide DecodeLoop, DecodeValue, EncodeValue, EncTag, ConformsValue, ArrivesValue, SlotIdx, IsDefault, PayloadFits;
    hide BaseFor;
    var f, n := fields[i], SlotIdx(fields, i);
    var e := EncodeValue(f, v).value;
    var base := SlotBase(f, st.m[n]);
    assert FieldState(f, src[n], st.m[n], false);
    BaseOfDefault(f, st.m[n]);
    ValueRoundTrip(f, v, base, rest);
    var w := DecodeValue(f, e + rest, base).value;
    SingularTurn(fields, i, e + rest, w, st, rest);
    assert EncodeTagged(f, v).value + rest == EncTag(f.tag, WireType(f.ltype)) + (e + rest);
    st' := MarkSeen(fields, i, st).(m := st.m[n := NewSlot(f, w)]);
    SlotsAdvance(fields, src, st.m, i, NewSlot(f, w));
    MarkedNext(fields, i, st);
  }

  /** `v` is the value of slot `s` that the encoder writes under the tag of `f`. */
  ghost predicate Written(f: Field, s: Slot, v: Value) {
    match s
    case Single(w) => w == v && !IsDefault(f, s)
    case Opt(has, w) => has && w == v
    case Rep(_, _) => false
    case Union(which, w) => which == f.tag && w == v
  }

  lemma {:induction false} BaseOfDefault(f: Field, slot: Slot)
    requires ValidField(f)
    requires if f.htype.Oneof? then slot.Union? else !f.htype.Repeated? && AtDefault(f, slot)
    ensures SingularSlot(f, slot) && BaseFor(f, SlotBase(f, slot))
  {
    hide ConformsMsg, AtDefaults, Defaults, ZeroMsg;
    if !f.htype.Oneof? { assert ConformsSlot(f, slot, false) && ConformsValue(f, SlotBase(f, slot), false); }
    if f.ltype.LSubmessage? {
      if f.htype.Oneof? {
        ZeroMsgWellFormed(f.sub);
        WellFormedIsTyped(f.sub, ZeroMsg(f.sub));
        DefaultsAtDefaults(f.sub, ZeroMsg(f.sub));
      } else {
        SubmessageAtDefault(f, Held(slot));
      }
    }
  }

  lemma {:induction false} SubmessageAtDefault(f: Field, v: Value)
    requires f.ltype.LSubmessage? && ConformsValue(f, v, false) && DefaultValue(f, v) == v
    ensures AtDefaults(f.sub, v.slots)
  {
  }

  /** An array at its default is ready for its first element. */
  lemma {:induction false} ArrayAtDefault(fields: seq<Field>, i: nat, st: State)
    requires i < |fields| && fields[i].htype.Repeated? && StateFor(fields, st) && SlotIdx(fields, i) < |st.m|
    requires AtDefault(fields[i], st.m[SlotIdx(fields, i)]) && RunComplete(fields, st) && st.fixed != Some(i)
    ensures CountIs(fields, i, st, 0)
  {
    hide ConformsValue, SlotIdx, DefaultValue;
    var f, slot := fields[i], st.m[SlotIdx(fields, i)];
    forall c | 0 <= c < |slot.spare| ensures ConformsValue(f, slot.spare[c], false) {
      assert ConformsSpare(f, slot.spare[c], false);
    }
  }

  lemma {:induction false} MarkedNext(fields: seq<Field>, i: nat, st: State)
    requires i < |fields| && Marked(fields, st.seen, i)
    ensures Marked(fields, MarkSeen(fields, i, st).seen, i + 1)
  {
    hide RequiredBefore;
  }

  /** A field of which nothing is written is already as it should arrive. */
  lemma {:induction false} AbsentArrives(fields: seq<Field>, src: seq<Slot>, i: nat, st: State)
    requires ValidSchema(fields) && WellFormed(fields, src) && i < |fields| && Progress(fields, src, st, i)
    requires Absent(fields[i], src[SlotIdx(fields, i)])
    ensures Progress(fields, src, st, i + 1)
  {
    hide SlotIdx, RequiredBefore, IsDefault, DefaultValue, ArrivesValue, ConformsValue, ConformsSpare;
    var f, n := fields[i], SlotIdx(fields, i);
    assert ConformsSlot(f, src[n], true);
    assert FieldState(f, src[n], st.m[n], false);
    assert ArrivesSlot(f, src[n], st.m[n]);
    SlotsAdvance(fields, src, st.m, i, st.m[n]);
    assert st.m[n := st.m[n]] == st.m;
  }

  /** The encoder writes nothing for the field. */
  ghost predicate Absent(f: Field, s: Slot) {
    match s
    case Single(_) => f.htype.Optional? && IsDefault(f, s)
    case Opt(has, _) => !has
    case Rep(items, _) => items == []
    case Union(which, _) => which != f.tag
  }

  /** A repeated field arrives, whether it is packed or not. */
  lemma {:induction false} ArrayRoundTrip(fields: seq<Field>, src: seq<Slot>, i: nat, st: State, rest: seq<byte>)
      returns (st': State)
    requires ValidSchema(fields) && WellFormed(fields, src) && i < |fields| && Progress(fields, src, st, i)
    requires fields[i].htype.Repeated? && src[SlotIdx(fields, i)].Rep? && src[SlotIdx(fields, i)].items != []
    requires EncodeArray(fields[i], src[SlotIdx(fields, i)].items).Some?
    requires SlotPayloadsFit(fields[i], src[SlotIdx(fields, i)], UINT32)
    ensures Progress(fields, src, st', i + 1)
    ensures DecodeLoop(fields, EncodeArray(fields[i], src[SlotIdx(fields, i)].items).value + rest, st)
         == DecodeLoop(fields, rest, st')
    decreases fields[i], 3
  {
    hide DecodeLoop, EncodeUnpacked, EncTag, ConformsValue, ConformsSpare, ArrivesValue, SlotIdx, RequiredBefore;
    hide PayloadFits, EncodePackedData, DefaultValue;
    var f, n := fields[i], SlotIdx(fields, i);
    var items := src[n].items;
    assert ConformsSlot(f, src[n], true);
    assert FieldState(f, src[n], st.m[n], false);
    ArrayAtDefault(fields, i, st);
    if Packable(f.ltype) {
      PackedRoundTrip(fields, i, items, st, rest);
      st' := Stored(fields, i, st, 0, items);
      assert st'.m[n].items == items;
      SameItemsArrive(f, items);
    } else {
      assert items[0..] == items;
      st' := UnpackedRoundTrip(fields, i, items, 0, st, rest);
    }
    SlotsAdvance(fields, src, st.m, i, st'.m[n]);
  }

  lemma {:induction false} SameItemsArrive(f: Field, items: seq<Value>)
    requires Packable(f.ltype)
    ensures ArrivesItems(f, items, items, |items|)
  {
  }

  lemma {:induction false} FieldRoundTrip(fields: seq<Field>, src: seq<Slot>, i: nat, st: State, rest: seq<byte>)
      returns (st': State)
    requires ValidSchema(fields) && WellFormed(fields, src) && i < |fields| && Progress(fields, src, st, i)
    requires EncodeField(fields[i], src[SlotIdx(fields, i)]).Some?
    requires SlotPayloadsFit(fields[i], src[SlotIdx(fields, i)], UINT32)
    ensures Progress(fields, src, st', i + 1)
    ensures DecodeLoop(fields, EncodeField(fields[i], src[SlotIdx(fields, i)]).value + rest, st)
         == DecodeLoop(fields, rest, st')
    decreases fields[i], 4
  {
    hide DecodeLoop, EncodeArray, EncodeTagged, Progress, SlotIdx, ConformsValue, ConformsSpare, IsDefault;
    hide PayloadFits, EncodePackedData;
    var f, s := fields[i], src[SlotIdx(fields, i)];
    assert ConformsSlot(f, s, true);
    if Absent(f, s) {
      assert [] + rest == rest;
      assert EncodeArray(f, []) == Some([]) by { EncodeNothing(f); }
      AbsentArrives(fields, src, i, st);
      st' := st;
    } else if s.Rep? {
      st' := ArrayRoundTrip(fields, src, i, st, rest);
    } else {
      var v := match s case Single(v) => v case Opt(_, v) => v case Union(_, v) => v;
      RequiredNeverDefault(f, s);
      st' := TaggedRoundTrip(fields, src, i, v, st, rest);
    }
  }

  lemma {:induction false} EncodeNothing(f: Field)
    ensures EncodeArray(f, []) == Some([])
  {
  }

  lemma {:induction false} RequiredNeverDefault(f: Field, s: Slot)
    ensures f.htype.Required? ==> !IsDefault(f, s)
  {
  }

  lemma {:induction false} EncodeFromSplit(fields: seq<Field>, src: seq<Slot>, i: nat)
    requires |src| == NumSlots(fields) && i <= |fields| && EncodeFrom(fields, src, i).Some?
    ensures i == |fields| ==> EncodeFrom(fields, src, i) == Some([])
    ensures i < |fields| ==>
              SlotIdx(fields, i) < |src|
              && EncodeField(fields[i], src[SlotIdx(fields, i)]).Some?
              && EncodeFrom(fields, src, i + 1).Some?
              && EncodeFrom(fields, src, i).value
                 == EncodeField(fields[i], src[SlotIdx(fields, i)]).value + EncodeFrom(fields, src, i + 1).value
  {
    hide EncodeField, SlotIdx;
    if i < |fields| { SlotInRange(fields, i); }
  }

  lemma {:induction false} ProgressShape(fields: seq<Field>, src: seq<Slot>, st: State, i: nat)
    requires WellFormed(fields, src) && Progress(fields, src, st, i)
    ensures |src| == NumSlots(fields) && StateFor(fields, st) && i <= |fields|
  {
    hide ConformsSlot, SlotIdx;
  }

  lemma {:induction false} FieldsRoundTrip(fields: seq<Field>, src: seq<Slot>, i: nat, st: State)
      returns (st': State)
    requires ValidSchema(fields) && WellFormed(fields, src) && Progress(fields, src, st, i)
    requires EncodeFrom(fields, src, i).Some? && PayloadsFit(fields, src, UINT32)
    ensures Progress(fields, src, st', |fields|)
    ensures DecodeLoop(fields, EncodeFrom(fields, src, i).value, st) == LoopDone(st', [], false)
    decreases fields, 0, |fields| - i
  {
    hide DecodeLoop, EncodeFrom, EncodeField, ConformsMsg, ValidSchema, Progress, SlotIdx, SlotPayloadsFit;
    ProgressShape(fields, src, st, i);
    EncodeFromSplit(fields, src, i);
    if i == |fields| {
      st' := st;
      LoopEnds(fields, st);
    } else {
      var rest := EncodeFrom(fields, src, i + 1).value;
      var st1 := FieldRoundTrip(fields, src, i, st, rest);
      st' := FieldsRoundTrip(fields, src, i + 1, st1);
    }
  }

  /** Into a struct at its defaults: everything that was written arrives. */
  lemma {:induction false} MessageRoundTrip(fields: seq<Field>, src: seq<Slot>, base: seq<Slot>)
    requires ValidSchema(fields) && WellFormed(fields, src) && AtDefaults(fields, base)
    requires EncodeMsg(fields, src).Some? && PayloadsFit(fields, src, UINT32)
    ensures var r := DecodeNoInit(fields, EncodeMsg(fields, src).value, base);
            r.Good? && r.rest == [] && ArrivesMsg(fields, src, r.value) && Typed(fields, r.value)
    decreases fields, 1
  {
    hide DecodeLoop, EncodeFrom, ArrivesSlot, ConformsSlot, RequiredBefore, PayloadsFit, Defaults;
    var st := InitialState(base);
    StartProgress(fields, src, base);
    var st' := FieldsRoundTrip(fields, src, 0, st);
    AllRequiredMarked(fields, st'.seen);
    forall j | 0 <= j < |fields|
      ensures ArrivesSlot(fields[j], src[SlotIdx(fields, j)], st'.m[SlotIdx(fields, j)])
    {
      assert FieldState(fields[j], src[SlotIdx(fields, j)], st'.m[SlotIdx(fields, j)], true);
    }
    NoInitConforms(fields, EncodeMsg(fields, src).value, base, false);
  }

  lemma {:induction false} StartProgress(fields: seq<Field>, src: seq<Slot>, base: seq<Slot>)
    requires ValidSchema(fields) && WellFormed(fields, src) && AtDefaults(fields, base)
    ensures Progress(fields, src, InitialState(base), 0)
  {
    hide Defaults, SlotIdx, DefaultSlot, ConformsValue, ConformsSpare;
    forall j | 0 <= j < |fields|
      ensures SlotIdx(fields, j) < |src| == |base|
      ensures FieldState(fields[j], src[SlotIdx(fields, j)], base[SlotIdx(fields, j)], false)
    {
      DefaultsAt(fields, base, j);
      assert ConformsSlot(fields[j], src[SlotIdx(fields, j)], true);
      assert ConformsSlot(fields[j], base[SlotIdx(fields, j)], false);
      if fields[j].htype.Oneof? { UnsetByDefault(fields[j], base[SlotIdx(fields, j)]); }
    }
  }

  lemma {:induction false} RequiredIndexOf(fields: seq<Field>, r: nat, n: nat) returns (j: nat)
    requires n <= |fields| && r < RequiredBefore(fields, n)
    ensures j < n && fields[j].htype.Required? && RequiredBefore(fields, j) == r
  {
    if fields[n - 1].htype.Required? && RequiredBefore(fields, n - 1) == r {
      j := n - 1;
    } else {
      j := RequiredIndexOf(fields, r, n - 1);
    }
  }

  lemma {:induction false} AllRequiredMarked(fields: seq<Field>, seen: set<nat>)
    requires Marked(fields, seen, |fields|)
    ensures RequiredPresent(fields, seen)
  {
    forall r: nat | r < RequiredBefore(fields, |fields|) && r < MAX_REQUIRED_FIELDS ensures r in seen {
      var j := RequiredIndexOf(fields, r, |fields|);
    }
  }
}

/** Field descriptor tables (`pb_field_t` arrays) and the structs they describe.

    A struct is a sequence of typed slots. A required or proto3 field has a slot
    with its value, an optional field one with its has-flag, a repeated field one
    with its elements (the `_count` of a counted array is the number of elements)
    and what the rest of the array holds, and all members of a oneof share the slot
    of the union. */
module Schema {
  import opened Bytes

  datatype LType =
    | LBool | LVarint | LUVarint | LSVarint | LFixed32 | LFixed64
    | LBytes | LString | LSubmessage | LFixedBytes

  datatype HType = Required | Optional | Repeated | Oneof

  /** One `pb_field_t`. Its `ptr` is `sub` for a submessage and `dflt` otherwise. */
  datatype Field = Field(
    tag: nat, ltype: LType, htype: HType,
    dataOffset: nat, sizeOffset: int, dataSize: nat, arraySize: nat,
    sub: seq<Field>, dflt: Option<Value>)

  datatype Value =
    | VBool(b: bool)
    | VInt(i: int)
    | VBytes(content: seq<byte>)      // pb_bytes_array_t: size and the bytes up to it
    | VString(chars: seq<byte>)       // char[data_size], the NUL and what follows included
    | VFixedBytes(data: seq<byte>)    // pb_byte_t[data_size]
    | VMsg(slots: seq<Slot>)

  datatype Slot =
    | Single(v: Value)
    | Opt(has: bool, ov: Value)
    | Rep(items: seq<Value>, spare: seq<Value>)
    | Union(which: nat, member: Value)

  const PB_SIZE_MAX := 0xFFFF_FFFF       // pb_size_t is uint32_t (PB_FIELD_32BIT)
  const SIZE_BYTES := 4                  // sizeof(pb_size_t)
  const BYTES_OFFSET := 4                // offsetof(pb_bytes_array_t, bytes)
  const MAX_TAG := 0x2000_0000           // field numbers are below 2^29
  const MAX_REQUIRED_FIELDS := 64

  predicate Packable(l: LType) {
    l.LBool? || l.LVarint? || l.LUVarint? || l.LSVarint? || l.LFixed32? || l.LFixed64?
  }

  /** The has-flag, count or which-field lies outside the data (`pSize != pData`). */
  predicate HasSizeField(f: Field) {
    f.sizeOffset != 0
  }

  predicate IsFixedCount(f: Field) {
    f.htype.Repeated? && !HasSizeField(f)
  }

  // ---------- slots ----------

  /** `cur` is a further member of the union that `prev` belongs to. */
  predicate SharesUnion(prev: Field, cur: Field) {
    prev.htype.Oneof? && cur.htype.Oneof? && cur.dataOffset == PB_SIZE_MAX
  }

  function SlotIdx(fields: seq<Field>, i: nat): (n: nat)
    requires i < |fields|
    ensures n <= i
    decreases i
  {
    if i == 0 then 0
    else SlotIdx(fields, i - 1) + if SharesUnion(fields[i - 1], fields[i]) then 0 else 1
  }

  function NumSlots(fields: seq<Field>): nat {
    if fields == [] then 0 else SlotIdx(fields, |fields| - 1) + 1
  }

  lemma {:induction false} SlotIdxMonotone(fields: seq<Field>, i: nat, j: nat)
    requires i <= j < |fields|
    ensures SlotIdx(fields, i) <= SlotIdx(fields, j)
    decreases j
  {
    if i < j { SlotIdxMonotone(fields, i, j - 1); }
  }

  lemma {:induction false} SlotInRange(fields: seq<Field>, i: nat)
    requires i < |fields|
    ensures SlotIdx(fields, i) < NumSlots(fields)
  {
    SlotIdxMonotone(fields, i, |fields| - 1);
  }

  /** Only members of a union share a slot. */
  lemma {:induction false} SlotShared(fields: seq<Field>, i: nat, j: nat)
    requires i < j < |fields| && SlotIdx(fields, i) == SlotIdx(fields, j)
    ensures fields[i].htype.Oneof? && fields[j].htype.Oneof?
    decreases j
  {
    SlotIdxMonotone(fields, i, j - 1);
    assert SharesUnion(fields[j - 1], fields[j]);
    if i < j - 1 { SlotShared(fields, i, j - 1); }
  }

  // ---------- defaults ----------

  /** One slot for each field, or for each union, of the slots of all fields before `n`. */
  function Collect(fields: seq<Field>, slots: seq<Slot>, n: nat): (m: seq<Slot>)
    requires n <= |fields| == |slots|
    ensures |m| == if n == 0 then 0 else SlotIdx(fields, n - 1) + 1
  {
    if n == 0 then []
    else
      var before := Collect(fields, slots, n - 1);
      if n > 1 && SharesUnion(fields[n - 2], fields[n - 1]) then before else before + [slots[n - 1]]
  }

  lemma {:induction false} CollectAt(fields: seq<Field>, slots: seq<Slot>, n: nat, i: nat)
    requires i < n <= |fields| == |slots|
    requires forall j :: 0 < j < |fields| && SharesUnion(fields[j - 1], fields[j]) ==> slots[j] == slots[j - 1]
    ensures SlotIdx(fields, i) < |Collect(fields, slots, n)|
    ensures Collect(fields, slots, n)[SlotIdx(fields, i)] == slots[i]
    decreases n
  {
    SlotIdxMonotone(fields, i, n - 1);
    if i < n - 1 {
      CollectAt(fields, slots, n - 1, i);
    } else if n > 1 && SharesUnion(fields[n - 2], fields[n - 1]) {
      CollectAt(fields, slots, n - 1, n - 2);
    }
  }

  function Zeros(n: nat): (s: seq<byte>)
    ensures |s| == n && forall k :: 0 <= k < n ==> s[k] == 0
  {
    seq(n, _ => 0)
  }

  /** Zeroed memory (`memset(pData, 0, data_size)`) read as the value of a field. */
  function ZeroValue(f: Field): Value
    decreases f, 0
  {
    match f.ltype
    case LBool => VBool(false)
    case LBytes => VBytes([])
    case LString => VString(Zeros(f.dataSize))
    case LFixedBytes => VFixedBytes(Zeros(f.dataSize))
    case LSubmessage => VMsg(ZeroMsg(f.sub))
    case _ => VInt(0)
  }

  /** What a union that is not set holds in the model. */
  const UNSET := Union(0, VBool(false))

  function ZeroSlot(f: Field): Slot
    decreases f, 1
  {
    match f.htype
    case Required => Single(ZeroValue(f))
    case Optional => if HasSizeField(f) then Opt(false, ZeroValue(f)) else Single(ZeroValue(f))
    case Repeated =>
      var cells := seq(f.arraySize, _ => ZeroValue(f));
      if HasSizeField(f) then Rep([], cells) else Rep(cells, [])
    case Oneof => UNSET
  }

  /** A struct of zeroed memory. */
  function ZeroMsg(fields: seq<Field>): (m: seq<Slot>)
    ensures |m| == NumSlots(fields)
    decreases fields, 1
  {
    Collect(fields, seq(|fields|, i requires 0 <= i < |fields| => ZeroSlot(fields[i])), |fields|)
  }

  lemma {:induction false} ZeroMsgAt(fields: seq<Field>, i: nat)
    requires i < |fields|
    ensures SlotIdx(fields, i) < |ZeroMsg(fields)| && ZeroMsg(fields)[SlotIdx(fields, i)] == ZeroSlot(fields[i])
  {
    CollectAt(fields, seq(|fields|, i requires 0 <= i < |fields| => ZeroSlot(fields[i])), |fields|, i);
  }

  /** The value in a slot of a singular field. */
  function Held(s: Slot): Value {
    match s
    case Single(v) => v
    case Opt(_, v) => v
    case Rep(_, _) => VBool(false)
    case Union(_, v) => v
  }

  /** All elements of an array, counted or not. */
  function Cells(f: Field, s: Slot): (cells: seq<Value>)
    requires s.Rep?
    ensures |cells| <= f.arraySize || |cells| == |s.items + s.spare|
  {
    var cells := s.items + s.spare;
    if |cells| <= f.arraySize then cells else cells[..f.arraySize]
  }

  /** What `pb_field_set_to_default` makes of the data of a singular field. A submessage is set
      to its defaults over what it holds. */
  function DefaultValue(f: Field, was: Value): Value
    decreases f, 0
  {
    if f.ltype.LSubmessage? then VMsg(Defaults(f.sub, if was.VMsg? then was.slots else []))
    else if f.dflt.Some? then f.dflt.value
    else ZeroValue(f)
  }

  /** `pb_field_set_to_default`. The count of an array becomes zero and its elements stay. An array
      of fixed length has no count and keeps its elements; that the code writes a zero count over
      its first bytes is left to the choice of `was`, of which nothing is assumed. */
  function DefaultSlot(f: Field, was: Slot): Slot
    decreases f, 1
  {
    match f.htype
    case Required => Single(DefaultValue(f, Held(was)))
    case Optional =>
      if HasSizeField(f) then Opt(false, DefaultValue(f, Held(was))) else Single(DefaultValue(f, Held(was)))
    case Repeated => if !was.Rep? then was else if HasSizeField(f) then Rep([], Cells(f, was)) else was
    case Oneof => UNSET
  }

  /** The slot of field `i`, or something of no consequence in a struct of another table. */
  function SlotOf(fields: seq<Field>, m: seq<Slot>, i: nat): Slot
    requires i < |fields|
  {
    if SlotIdx(fields, i) < |m| then m[SlotIdx(fields, i)] else UNSET
  }

  /** `pb_message_set_to_defaults` on a struct that holds `m`. */
  function Defaults(fields: seq<Field>, m: seq<Slot>): (r: seq<Slot>)
    ensures |r| == NumSlots(fields)
    decreases fields, 1
  {
    Collect(fields, DefaultSlots(fields, m), |fields|)
  }

  function DefaultSlots(fields: seq<Field>, m: seq<Slot>): (r: seq<Slot>)
    ensures |r| == |fields|
    decreases fields, 0
  {
    seq(|fields|, i requires 0 <= i < |fields| => DefaultSlot(fields[i], SlotOf(fields, m, i)))
  }

  lemma {:induction false} UnsetByDefault(f: Field, was: Slot)
    requires f.htype.Oneof?
    ensures DefaultSlot(f, was) == UNSET
  {
  }

  lemma {:induction false} DefaultsAt(fields: seq<Field>, m: seq<Slot>, i: nat)
    requires i < |fields|
    ensures SlotIdx(fields, i) < |Defaults(fields, m)|
    ensures Defaults(fields, m)[SlotIdx(fields, i)] == DefaultSlot(fields[i], SlotOf(fields, m, i))
  {
    hide DefaultSlot;
    var slots := DefaultSlots(fields, m);
    forall j | 0 < j < |fields| && SharesUnion(fields[j - 1], fields[j]) ensures slots[j] == slots[j - 1] {
      UnsetByDefault(fields[j], SlotOf(fields, m, j));
      UnsetByDefault(fields[j - 1], SlotOf(fields, m, j - 1));
    }
    CollectAt(fields, slots, |fields|, i);
  }

  /** A struct as an initializer with the default values leaves it (`X_init_default`). */
  function InitDefault(fields: seq<Field>): (m: seq<Slot>)
    ensures |m| == NumSlots(fields)
  {
    Defaults(fields, ZeroMsg(fields))
  }

  // ---------- C types and well-formedness ----------

  /** 2^(8 * size - 1) for the integer sizes the codec accepts. */
  function IntBound(size: nat): (b: int)
    ensures 0 <= b <= UINT63
  {
    match size
    case 1 => 0x80
    case 2 => 0x8000
    case 4 => 0x8000_0000
    case 8 => 0x8000_0000_0000_0000
    case _ => 0
  }

  predicate SignedFits(size: nat, i: int) {
    -IntBound(size) <= i < IntBound(size)
  }

  predicate UnsignedFits(size: nat, i: int) {
    0 <= i < 2 * IntBound(size)
  }

  /** `v` has the C type the descriptor gives it. A `strict` value also keeps the
      limits the codec checks: bytes fit their slot, strings hold a NUL, and counts
      do not exceed `array_size`. */
  ghost predicate ConformsValue(f: Field, v: Value, strict: bool)
    decreases f, 0
  {
    match f.ltype
    case LBool => v.VBool?
    case LVarint => v.VInt? && SignedFits(f.dataSize, v.i)
    case LSVarint => v.VInt? && SignedFits(f.dataSize, v.i)
    case LUVarint => v.VInt? && UnsignedFits(f.dataSize, v.i)
    case LFixed32 => v.VInt? && 0 <= v.i < UINT32
    case LFixed64 => v.VInt? && 0 <= v.i < UINT64
    case LBytes => v.VBytes? && |v.content| <= PB_SIZE_MAX && (strict ==> |v.content| + BYTES_OFFSET <= f.dataSize)
    case LString => v.VString? && |v.chars| == f.dataSize && (strict ==> 0 in v.chars)
    case LFixedBytes => v.VFixedBytes? && |v.data| == f.dataSize
    case LSubmessage => v.VMsg? && ConformsMsg(f.sub, v.slots, strict)
  }

  /** An element past the count has its C type. A strict one makes a well-formed element once it
      is set to its defaults. */
  ghost predicate ConformsSpare(f: Field, v: Value, strict: bool)
    decreases f, 1
  {
    ConformsValue(f, v, false)
    && (strict && f.ltype.LSubmessage? ==> ConformsMsg(f.sub, Defaults(f.sub, v.slots), true))
  }

  ghost predicate ConformsSlot(f: Field, s: Slot, strict: bool)
    decreases f, 2
  {
    match f.htype
    case Required => s.Single? && ConformsValue(f, s.v, strict)
    case Optional =>
      if HasSizeField(f) then s.Opt? && ConformsValue(f, s.ov, strict)
      else s.Single? && ConformsValue(f, s.v, strict)
    case Repeated =>
      s.Rep?
      && (forall k :: 0 <= k < |s.items| ==> ConformsValue(f, s.items[k], strict))
      && (forall k :: 0 <= k < |s.spare| ==> ConformsSpare(f, s.spare[k], strict))
      && (if HasSizeField(f)
          then (strict ==> |s.items| <= f.arraySize)
               && (|s.items| <= f.arraySize ==> |s.items| + |s.spare| == f.arraySize)
          else |s.items| == f.arraySize && s.spare == [])
    case Oneof => s.Union? && (s.which == f.tag ==> ConformsValue(f, s.member, strict))
  }

  ghost predicate ConformsMsg(fields: seq<Field>, m: seq<Slot>, strict: bool)
    decreases fields
  {
    |m| == NumSlots(fields)
    && forall i :: 0 <= i < |fields| ==>
         SlotIdx(fields, i) < |m| && ConformsSlot(fields[i], m[SlotIdx(fields, i)], strict)
  }

  ghost predicate WellFormed(fields: seq<Field>, m: seq<Slot>) {
    ConformsMsg(fields, m, true)
  }

  ghost predicate Typed(fields: seq<Field>, m: seq<Slot>) {
    ConformsMsg(fields, m, false)
  }

  lemma {:induction false} StrictValueConforms(f: Field, v: Value)
    requires ConformsValue(f, v, true)
    ensures ConformsValue(f, v, false)
    decreases f, 0
  {
    if f.ltype.LSubmessage? { WellFormedIsTyped(f.sub, v.slots); }
  }

  lemma {:induction false} WellFormedIsTyped(fields: seq<Field>, m: seq<Slot>)
    requires WellFormed(fields, m)
    ensures Typed(fields, m)
    decreases fields
  {
    forall i | 0 <= i < |fields|
      ensures ConformsSlot(fields[i], m[SlotIdx(fields, i)], false)
    {
      var f, s := fields[i], m[SlotIdx(fields, i)];
      assert ConformsSlot(f, s, true);
      match s
      case Single(v) => StrictValueConforms(f, v);
      case Opt(_, v) => StrictValueConforms(f, v);
      case Rep(items, _) =>
        forall k | 0 <= k < |items| ensures ConformsValue(f, items[k], false) {
          StrictValueConforms(f, items[k]);
        }
      case Union(which, v) => if which == f.tag { StrictValueConforms(f, v); }
    }
  }

  // ---------- valid tables ----------

  predicate ValidSize(f: Field) {
    match f.ltype
    case LVarint => IntBound(f.dataSize) > 0
    case LUVarint => IntBound(f.dataSize) > 0
    case LSVarint => IntBound(f.dataSize) > 0
    case LBytes => f.dataSize >= BYTES_OFFSET
    case LString => f.dataSize >= 1
    case _ => true
  }

  /** Setting an array without a count to its default writes a zero count over its first bytes; the
      array is large enough for that. */
  predicate RoomForCount(f: Field) {
    IsFixedCount(f) ==> f.dataSize * f.arraySize >= SIZE_BYTES
  }

  ghost predicate ValidField(f: Field)
    decreases f
  {
    && 1 <= f.tag < MAX_TAG
    && f.dataSize <= PB_SIZE_MAX && f.arraySize <= PB_SIZE_MAX
    && ValidSize(f) && RoomForCount(f)
    && (f.htype.Oneof? ==> HasSizeField(f))
    && (if f.ltype.LSubmessage? then ValidSchema(f.sub)
        else f.dflt.Some? ==> ConformsValue(f, f.dflt.value, true))
  }

  ghost predicate DistinctTags(fields: seq<Field>) {
    forall i, j :: 0 <= i < j < |fields| ==> fields[i].tag != fields[j].tag
  }

  ghost predicate ValidSchema(fields: seq<Field>)
    decreases fields
  {
    DistinctTags(fields) && forall i :: 0 <= i < |fields| ==> ValidField(fields[i])
  }

  // ---------- setting defaults keeps types and limits ----------

  lemma {:induction false} ZeroConforms(f: Field)
    requires ValidField(f)
    ensures ConformsValue(f, ZeroValue(f), true) && ConformsSpare(f, ZeroValue(f), true)
    decreases f, 0
  {
    if f.ltype.LSubmessage? {
      ZeroMsgWellFormed(f.sub);
      DefaultsConform(f.sub, ZeroMsg(f.sub), true);
    } else if f.ltype.LString? {
      assert Zeros(f.dataSize)[0] == 0;
    }
    StrictValueConforms(f, ZeroValue(f));
  }

  /** Zeroed memory is a well-formed struct. */
  lemma {:induction false} ZeroMsgWellFormed(fields: seq<Field>)
    requires ValidSchema(fields)
    ensures WellFormed(fields, ZeroMsg(fields))
    decreases fields
  {
    forall i | 0 <= i < |fields|
      ensures SlotIdx(fields, i) < |ZeroMsg(fields)|
      ensures ConformsSlot(fields[i], ZeroMsg(fields)[SlotIdx(fields, i)], true)
    {
      ZeroMsgAt(fields, i);
      assert ValidField(fields[i]);
      ZeroConforms(fields[i]);
    }
  }

  lemma {:induction false} DefaultValueConforms(f: Field, v: Value, strict: bool)
    requires ValidField(f) && ConformsValue(f, v, strict)
    ensures ConformsValue(f, DefaultValue(f, v), strict)
    decreases f, 1
  {
    if f.ltype.LSubmessage? {
      DefaultsConform(f.sub, v.slots, strict);
    } else {
      if f.dflt.None? { ZeroConforms(f); }
      if !strict { StrictValueConforms(f, DefaultValue(f, v)); }
    }
  }

  /** An element that no longer counts. */
  lemma {:induction false} ItemSpared(f: Field, v: Value, strict: bool)
    requires ValidField(f) && ConformsValue(f, v, strict)
    ensures ConformsSpare(f, v, strict)
    decreases f, 0
  {
    if strict {
      StrictValueConforms(f, v);
      if f.ltype.LSubmessage? { DefaultsConform(f.sub, v.slots, true); }
    }
  }

  lemma {:induction false} DefaultSlotConforms(f: Field, s: Slot, strict: bool)
    requires ValidField(f) && ConformsSlot(f, s, strict)
    ensures ConformsSlot(f, DefaultSlot(f, s), strict)
    decreases f, 2
  {
    hide ConformsValue, ConformsSpare, DefaultValue;
    match f.htype
    case Required => DefaultValueConforms(f, s.v, strict);
    case Optional => DefaultValueConforms(f, Held(s), strict);
    case Repeated =>
      if HasSizeField(f) {
        forall k | 0 <= k < |s.items| ensures ConformsSpare(f, s.items[k], strict) {
          ItemSpared(f, s.items[k], strict);
        }
      }
    case Oneof => assert f.tag != 0;
  }

  /** Setting a struct to its defaults keeps its C type, and keeps it within its limits. */
  lemma {:induction false} DefaultsConform(fields: seq<Field>, m: seq<Slot>, strict: bool)
    requires ValidSchema(fields) && ConformsMsg(fields, m, strict)
    ensures ConformsMsg(fields, Defaults(fields, m), strict)
    decreases fields
  {
    hide ConformsSlot, DefaultSlot;
    forall i | 0 <= i < |fields|
      ensures SlotIdx(fields, i) < |Defaults(fields, m)|
      ensures ConformsSlot(fields[i], Defaults(fields, m)[SlotIdx(fields, i)], strict)
    {
      DefaultsAt(fields, m, i);
      assert ConformsSlot(fields[i], m[SlotIdx(fields, i)], strict) && ValidField(fields[i]);
      DefaultSlotConforms(fields[i], m[SlotIdx(fields, i)], strict);
    }
  }

  lemma {:induction false} InitDefaultWellFormed(fields: seq<Field>)
    requires ValidSchema(fields)
    ensures WellFormed(fields, InitDefault(fields))
  {
    ZeroMsgWellFormed(fields);
    DefaultsConform(fields, ZeroMsg(fields), true);
  }

  // ---------- structs at their defaults ----------

  /** Setting the slot to its default changes nothing. */
  ghost predicate AtDefault(f: Field, s: Slot) {
    ConformsSlot(f, s, false) && DefaultSlot(f, s) == s
  }

  ghost predicate AtDefaults(fields: seq<Field>, m: seq<Slot>) {
    Typed(fields, m) && Defaults(fields, m) == m
  }

  lemma {:induction false} DefaultTwice(f: Field, s: Slot)
    requires ConformsSlot(f, s, false)
    ensures DefaultSlot(f, DefaultSlot(f, s)) == DefaultSlot(f, s)
    decreases f, 1
  {
    if f.ltype.LSubmessage? && !f.htype.Repeated? && !f.htype.Oneof? { DefaultsTwice(f.sub, Held(s).slots); }
  }

  /** Setting defaults twice is setting them once. */
  lemma {:induction false} DefaultsTwice(fields: seq<Field>, m: seq<Slot>)
    requires Typed(fields, m)
    ensures Defaults(fields, Defaults(fields, m)) == Defaults(fields, m)
    decreases fields
  {
    hide DefaultSlot, ConformsSlot;
    var once := Defaults(fields, m);
    forall i | 0 <= i < |fields| ensures DefaultSlots(fields, once)[i] == DefaultSlots(fields, m)[i] {
      DefaultsAt(fields, m, i);
      assert ConformsSlot(fields[i], m[SlotIdx(fields, i)], false);
      DefaultTwice(fields[i], m[SlotIdx(fields, i)]);
    }
    assert DefaultSlots(fields, once) == DefaultSlots(fields, m);
  }

  lemma {:induction false} DefaultsAtDefaults(fields: seq<Field>, m: seq<Slot>)
    requires ValidSchema(fields) && Typed(fields, m)
    ensures AtDefaults(fields, Defaults(fields, m))
  {
    DefaultsConform(fields, m, false);
    DefaultsTwice(fields, m);
  }

  // ---------- semantic equality ----------

  /** The characters of a C string, up to its NUL or the end of its array. */
  function CStr(s: seq<byte>): (r: seq<byte>)
    ensures |r| <= |s| && r == s[..|r|]
    ensures |r| < |s| ==> s[|r|] == 0
    ensures 0 !in r
  {
    if s == [] || s[0] == 0 then [] else [s[0]] + CStr(s[1..])
  }

  /** Equality as a user of the struct sees it: what lies behind a cleared has-flag,
      past a string's NUL or in an inactive union member does not matter. */
  ghost predicate SameValue(f: Field, a: Value, b: Value)
    decreases f, 0
  {
    match f.ltype
    case LString => a.VString? && b.VString? && CStr(a.chars) == CStr(b.chars)
    case LSubmessage => a.VMsg? && b.VMsg? && SameMsg(f.sub, a.slots, b.slots)
    case _ => a == b
  }

  ghost predicate SameSlot(f: Field, s: Slot, t: Slot)
    decreases f, 1
  {
    match f.htype
    case Required => s.Single? && t.Single? && SameValue(f, s.v, t.v)
    case Optional =>
      if HasSizeField(f)
      then s.Opt? && t.Opt? && s.has == t.has && (s.has ==> SameValue(f, s.ov, t.ov))
      else s.Single? && t.Single? && SameValue(f, s.v, t.v)
    case Repeated =>
      s.Rep? && t.Rep? && |s.items| == |t.items|
      && forall k :: 0 <= k < |s.items| ==> SameValue(f, s.items[k], t.items[k])
    case Oneof =>
      s.Union? && t.Union? && (s.which == f.tag <==> t.which == f.tag)
      && (s.which == f.tag ==> SameValue(f, s.member, t.member))
  }

  ghost predicate SameMsg(fields: seq<Field>, a: seq<Slot>, b: seq<Slot>)
    decreases fields
  {
    |a| == |b| == NumSlots(fields)
    && forall i :: 0 <= i < |fields| ==>
         SlotIdx(fields, i) < |a|
         && SameSlot(fields[i], a[SlotIdx(fields, i)], b[SlotIdx(fields, i)])
  }
}

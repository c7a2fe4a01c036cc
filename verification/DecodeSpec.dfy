/** What `pb_decode` makes of a byte sequence, as a function of the table, the bytes
    and the struct it decodes into. */
module DecodeSpec {
  import opened Bytes
  import opened Schema
  import opened Varint

  // ---------- finding fields ----------

  /** The field with a given tag, as an index into the table. */
  function FindField(fields: seq<Field>, tag: nat): (r: Option<nat>)
    ensures r.Some? ==> r.value < |fields| && fields[r.value].tag == tag
    ensures r.None? ==> forall i :: 0 <= i < |fields| ==> fields[i].tag != tag
  {
    if fields == [] then None
    else if fields[|fields| - 1].tag == tag then Some(|fields| - 1)
    else FindField(fields[..|fields| - 1], tag)
  }

  /** With distinct tags there is one field to find. */
  lemma {:induction false} FindUnique(fields: seq<Field>, i: nat)
    requires DistinctTags(fields) && i < |fields|
    ensures FindField(fields, fields[i].tag) == Some(i)
  {
    assert FindField(fields, fields[i].tag).Some?;
  }

  /** Number of required fields before field `i`: its `required_field_index`. */
  function RequiredBefore(fields: seq<Field>, i: nat): (n: nat)
    requires i <= |fields|
    ensures n <= i
  {
    if i == 0 then 0
    else RequiredBefore(fields, i - 1) + if fields[i - 1].htype.Required? then 1 else 0
  }

  lemma {:induction false} RequiredBeforeStrict(fields: seq<Field>, i: nat, j: nat)
    requires i < j <= |fields| && fields[i].htype.Required?
    ensures RequiredBefore(fields, i) < RequiredBefore(fields, j)
    decreases j
  {
    if i < j - 1 { RequiredBeforeStrict(fields, i, j - 1); }
  }

  // ---------- values ----------

  function DecodeSigned(f: Field, i: int, rest: seq<byte>): Parse<Value> {
    if SignedFits(f.dataSize, i) then Good(VInt(i), rest) else Bad
  }

  /** `pb_dec_string`: the bytes, a NUL, and what the array held after it. */
  function StoreString(buf: seq<byte>, s: seq<byte>): (r: seq<byte>)
    requires |s| < |buf|
    ensures |r| == |buf| && r[|s|] == 0 && r[..|s|] == s
  {
    s + [0] + buf[|s| + 1..]
  }

  /** The field decoders `PB_DECODERS`, but for submessages. `base` is what the
      destination holds. */
  function DecodeScalar(f: Field, s: seq<byte>, base: Value): (r: Parse<Value>)
    ensures r.Good? ==> |r.rest| <= |s|
  {
    match f.ltype
    case LBool =>
      (match DecVarint32(s)
       case Bad => Bad
       case Good(n, rest) => Good(VBool(n != 0), rest))
    case LVarint =>
      (match DecVarint(s)
       case Bad => Bad
       case Good(n, rest) => DecodeSigned(f, if f.dataSize == 8 then ToInt64(n) else ToInt32(n), rest))
    case LUVarint =>
      (match DecVarint(s)
       case Bad => Bad
       case Good(n, rest) => if UnsignedFits(f.dataSize, n) then Good(VInt(n), rest) else Bad)
    case LSVarint =>
      (match DecVarint(s)
       case Bad => Bad
       case Good(n, rest) => DecodeSigned(f, Unzigzag(n), rest))
    case LFixed32 => (match DecFixed(s, 4) case Bad => Bad case Good(n, rest) => Good(VInt(n), rest))
    case LFixed64 => (match DecFixed(s, 8) case Bad => Bad case Good(n, rest) => Good(VInt(n), rest))
    case LBytes =>
      (match TakeDelimited(s)
       case Bad => Bad
       case Good(b, rest) => if |b| + BYTES_OFFSET <= f.dataSize then Good(VBytes(b), rest) else Bad)
    case LString =>
      (match TakeDelimited(s)
       case Bad => Bad
       case Good(b, rest) =>
         if base.VString? && |b| + 1 <= f.dataSize == |base.chars|
         then Good(VString(StoreString(base.chars, b)), rest) else Bad)
    case LFixedBytes =>
      (match TakeDelimited(s)
       case Bad => Bad
       case Good(b, rest) =>
         if b == [] then Good(VFixedBytes(Zeros(f.dataSize)), rest)
         else if |b| == f.dataSize then Good(VFixedBytes(b), rest) else Bad)
    case LSubmessage => Bad
  }

  /** The struct `pb_dec_submessage` decodes into: an array element is set to its defaults
      first, another destination is used as it is. */
  function SubBase(f: Field, base: Value): (m: seq<Slot>)
    requires base.VMsg?
  {
    if f.htype.Repeated? then Defaults(f.sub, base.slots) else base.slots
  }

  function DecodeValue(f: Field, s: seq<byte>, base: Value): (r: Parse<Value>)
    ensures r.Good? ==> |r.rest| <= |s|
    decreases |s|, 0
  {
    if !f.ltype.LSubmessage? then DecodeScalar(f, s, base)
    else if !base.VMsg? then Bad
    else
      match TakeDelimited(s)
      case Bad => Bad
      case Good(payload, rest) =>
        match DecodeNoInit(f.sub, payload, SubBase(f, base))
        case Bad => Bad
        case Good(m, _) => Good(VMsg(m), rest)
  }

  /** How many elements a repeated field has so far, by its own count or that of its run. */
  function CountOf(f: Field, slot: Slot, fixedCount: nat): nat
    requires slot.Rep?
  {
    if HasSizeField(f) then |slot.items| else fixedCount
  }

  /** The elements of its array after those. */
  function CellsFrom(f: Field, slot: Slot, fixedCount: nat): seq<Value>
    requires slot.Rep?
  {
    if HasSizeField(f) then slot.spare else if fixedCount <= |slot.items| then slot.items[fixedCount..] else []
  }

  function OverwriteAt(items: seq<Value>, at: nat, vs: seq<Value>): (r: seq<Value>)
    requires at + |vs| <= |items|
    ensures |r| == |items|
  {
    items[..at] + vs + items[at + |vs|..]
  }

  /** The array with `vs` put in after the elements there are. */
  function Delivered(f: Field, slot: Slot, fixedCount: nat, vs: seq<Value>): (r: Slot)
    requires slot.Rep? && |vs| <= |CellsFrom(f, slot, fixedCount)|
    requires HasSizeField(f) || fixedCount <= |slot.items|
    ensures r.Rep?
  {
    if HasSizeField(f) then Rep(slot.items + vs, slot.spare[|vs|..])
    else Rep(OverwriteAt(slot.items, fixedCount, vs), slot.spare)
  }

  // ---------- one field ----------

  /** What a oneof member decodes into: zeroed memory, a submessage set to its defaults. */
  function MemberBase(f: Field): Value {
    if f.ltype.LSubmessage? then VMsg(InitDefault(f.sub)) else ZeroValue(f)
  }

  /** The elements of a packed run; at most `room` of them. None of the packable types depends
      on what its destination held. */
  function DecodePackedData(f: Field, s: seq<byte>, room: nat): (r: Option<seq<Value>>)
    ensures r.Some? ==> |r.value| <= room
    decreases room
  {
    if s == [] then Some([])
    else if room == 0 then None
    else
      match DecodeScalar(f, s, ZeroValue(f))
      case Bad => None
      case Good(v, rest) =>
        match DecodePackedData(f, rest, room - 1)
        case None => None
        case Some(vs) => Some([v] + vs)
  }

  /** The elements one occurrence of a repeated field adds to the `count` there are; `cells` are
      the array's elements from `count` on. */
  function DecodeElements(f: Field, wire: nat, s: seq<byte>, count: nat, cells: seq<Value>): (r: Parse<seq<Value>>)
    ensures r.Good? ==> |r.rest| <= |s| && (count <= f.arraySize ==> count + |r.value| <= f.arraySize)
    decreases |s|, 1
  {
    if wire == 2 && Packable(f.ltype) then
      match TakeDelimited(s)
      case Bad => Bad
      case Good(payload, rest) =>
        match DecodePackedData(f, payload, if count <= f.arraySize then f.arraySize - count else 0)
        case None => Bad
        case Some(vs) => Good(vs, rest)
    else if count >= f.arraySize || cells == [] then Bad
    else
      match DecodeValue(f, s, cells[0])
      case Bad => Bad
      case Good(v, rest) => Good([v], rest)
  }

  /** `decode_static_field`: the new slot and how many elements were delivered.
      `fixedCount` counts the elements of a fixed-count array. */
  function DecodeField(f: Field, wire: nat, s: seq<byte>, slot: Slot, fixedCount: nat): (r: Parse<(Slot, nat)>)
    ensures r.Good? ==> |r.rest| <= |s|
    decreases |s|, 2
  {
    match f.htype
    case Required => DecodeSingle(f, s, slot)
    case Optional =>
      if HasSizeField(f) then
        if !slot.Opt? then Bad
        else
          match DecodeValue(f, s, slot.ov)
          case Bad => Bad
          case Good(v, rest) => Good((Opt(true, v), 1), rest)
      else DecodeSingle(f, s, slot)
    case Repeated =>
      if !slot.Rep? then Bad
      else
        (match DecodeElements(f, wire, s, CountOf(f, slot, fixedCount), CellsFrom(f, slot, fixedCount))
         case Bad => Bad
         case Good(vs, rest) =>
           if |vs| <= |CellsFrom(f, slot, fixedCount)| && (HasSizeField(f) || fixedCount <= |slot.items|)
           then Good((Delivered(f, slot, fixedCount, vs), |vs|), rest) else Bad)
    case Oneof =>
      if !slot.Union? then Bad
      else
        match DecodeValue(f, s, MemberBase(f))
        case Bad => Bad
        case Good(v, rest) => Good((Union(f.tag, v), 1), rest)
  }

  function DecodeSingle(f: Field, s: seq<byte>, slot: Slot): (r: Parse<(Slot, nat)>)
    ensures r.Good? ==> |r.rest| <= |s|
    decreases |s|, 1
  {
    if !slot.Single? then Bad
    else
      match DecodeValue(f, s, slot.v)
      case Bad => Bad
      case Good(v, rest) => Good((Single(v), 1), rest)
  }

  // ---------- the loop over fields ----------

  /** The locals of `pb_decode_noinit`: `seen` are the required-field indices marked in
      `fields_seen`, `fixed` is `fixed_count_field` as a table index. */
  datatype State = State(m: seq<Slot>, seen: set<nat>, fixed: Option<nat>, fixedCount: nat)

  predicate StateFor(fields: seq<Field>, st: State) {
    |st.m| == NumSlots(fields) && (st.fixed.Some? ==> st.fixed.value < |fields|)
  }

  /** No fixed-count run is open, or the open one is complete. */
  predicate RunComplete(fields: seq<Field>, st: State)
    requires StateFor(fields, st)
  {
    st.fixed.Some? ==> st.fixedCount == fields[st.fixed.value].arraySize
  }

  /** Bookkeeping before field `i` is decoded: enter its fixed-count run, mark it seen. */
  function EnterField(fields: seq<Field>, i: nat, st: State): (r: Option<State>)
    requires StateFor(fields, st) && i < |fields|
    ensures r.Some? ==> StateFor(fields, r.value) && r.value.m == st.m
  {
    if IsFixedCount(fields[i]) && st.fixed != Some(i) then
      if RunComplete(fields, st) then Some(MarkSeen(fields, i, st.(fixed := Some(i), fixedCount := 0)))
      else None
    else Some(MarkSeen(fields, i, st))
  }

  function MarkSeen(fields: seq<Field>, i: nat, st: State): (r: State)
    requires i < |fields|
    ensures r.m == st.m && r.fixed == st.fixed && r.fixedCount == st.fixedCount
  {
    if fields[i].htype.Required? && RequiredBefore(fields, i) < MAX_REQUIRED_FIELDS
    then st.(seen := st.seen + {RequiredBefore(fields, i)}) else st
  }

  /** Storing what field `i` decoded to. */
  function StoreField(fields: seq<Field>, i: nat, st: State, slot: Slot, delivered: nat): (r: State)
    requires StateFor(fields, st) && i < |fields|
    ensures StateFor(fields, r) && r.seen == st.seen && r.fixed == st.fixed
  {
    SlotInRange(fields, i);
    st.(m := st.m[SlotIdx(fields, i) := slot],
        fixedCount := if IsFixedCount(fields[i]) then st.fixedCount + delivered else st.fixedCount)
  }

  /** Decoding one occurrence of field `i`, its key already read. */
  function DecodeKnown(fields: seq<Field>, i: nat, wire: nat, s: seq<byte>, st: State): (r: Parse<State>)
    requires StateFor(fields, st) && i < |fields|
    ensures r.Good? ==> |r.rest| <= |s| && StateFor(fields, r.value)
    decreases |s|, 3
  {
    SlotInRange(fields, i);
    match EnterField(fields, i, st)
    case None => Bad
    case Some(st1) =>
      match DecodeField(fields[i], wire, s, st1.m[SlotIdx(fields, i)], st1.fixedCount)
      case Bad => Bad
      case Good((slot, n), rest) => Good(StoreField(fields, i, st1, slot, n), rest)
  }

  /** What one turn of the loop does: fail, stop at a zero key, or go on. */
  datatype Turn = Failed | Stopped(after: seq<byte>) | Next(st: State, rest: seq<byte>)

  /** The rest of a turn once its nonzero key is read. Looking for tag 0 in the table of an
      empty message finds the terminator, which decodes like a required bool. */
  function DecodeTagged(fields: seq<Field>, tag: nat, wire: nat, s: seq<byte>, st: State): (r: Parse<State>)
    requires StateFor(fields, st)
    ensures r.Good? ==> |r.rest| <= |s| && StateFor(fields, r.value)
    decreases |s|, 4
  {
    match FindField(fields, tag)
    case Some(i) => DecodeKnown(fields, i, wire, s, st)
    case None =>
      if fields == [] && tag == 0 then
        match DecVarint32(s)
        case Bad => Bad
        case Good(_, rest) => Good(st, rest)
      else
        match SkipField(wire, s)
        case Bad => Bad
        case Good(_, rest) => Good(st, rest)
  }

  function DecodeTurn(fields: seq<Field>, s: seq<byte>, st: State): (r: Turn)
    requires StateFor(fields, st)
    ensures r.Next? ==> |r.rest| < |s| && StateFor(fields, r.st)
    ensures r.Stopped? ==> |r.after| < |s|
    decreases |s|, 0
  {
    match DecVarint32(s)
    case Bad => Failed
    case Good(key, s1) =>
      if key == 0 then Stopped(s1)
      else
        match DecodeTagged(fields, key / 8, key % 8, s1, st)
        case Bad => Failed
        case Good(st', rest) => Next(st', rest)
  }

  /** How the loop ends: with an error, or with what it left unread; `Stopped` at a zero key. */
  datatype Outcome = LoopFailed | LoopDone(st: State, rest: seq<byte>, stopped: bool)

  function DecodeLoop(fields: seq<Field>, s: seq<byte>, st: State): (r: Outcome)
    requires StateFor(fields, st)
    ensures r.LoopDone? ==> StateFor(fields, r.st) && |r.rest| <= |s| && (!r.stopped ==> r.rest == [])
    decreases |s|, 1
  {
    if s == [] then LoopDone(st, [], false)
    else
      match DecodeTurn(fields, s, st)
      case Failed => LoopFailed
      case Stopped(rest) => LoopDone(st, rest, true)
      case Next(st', rest) => DecodeLoop(fields, rest, st')
  }

  /** The first 64 required fields are all marked. */
  predicate RequiredPresent(fields: seq<Field>, seen: set<nat>) {
    forall r: nat | r < RequiredBefore(fields, |fields|) && r < MAX_REQUIRED_FIELDS :: r in seen
  }

  function InitialState(m: seq<Slot>): State {
    State(m, {}, None, 0)
  }

  /** `pb_decode_noinit`. */
  function DecodeNoInit(fields: seq<Field>, s: seq<byte>, m: seq<Slot>): (r: Parse<seq<Slot>>)
    ensures r.Good? ==> |r.rest| <= |s| && |r.value| == NumSlots(fields)
    decreases |s|, 2
  {
    if |m| != NumSlots(fields) then Bad
    else
      match DecodeLoop(fields, s, InitialState(m))
      case LoopFailed => Bad
      case LoopDone(st, rest, _) =>
        if RunComplete(fields, st) && RequiredPresent(fields, st.seen) then Good(st.m, rest) else Bad
  }

  /** `pb_decode` into a struct that holds `m`. */
  function Decode(fields: seq<Field>, s: seq<byte>, m: seq<Slot>): (r: Parse<seq<Slot>>) {
    DecodeNoInit(fields, s, Defaults(fields, m))
  }

  /** `pb_decode_delimited`. */
  function DecodeDelimited(fields: seq<Field>, s: seq<byte>, m: seq<Slot>): (r: Parse<seq<Slot>>)
    ensures r.Good? ==> |r.rest| < |s|
  {
    match TakeDelimited(s)
    case Bad => Bad
    case Good(payload, rest) =>
      match Decode(fields, payload, m)
      case Bad => Bad
      case Good(m', _) => Good(m', rest)
  }

  // ---------- taking a turn apart ----------

  lemma {:induction false} LoopEnds(fields: seq<Field>, st: State)
    requires StateFor(fields, st)
    ensures DecodeLoop(fields, [], st) == LoopDone(st, [], false)
  {
  }

  lemma {:induction false} KnownParts(fields: seq<Field>, i: nat, wire: nat, s: seq<byte>, st: State)
    requires StateFor(fields, st) && i < |fields| && DecodeKnown(fields, i, wire, s, st).Good?
    ensures EnterField(fields, i, st).Some? && SlotIdx(fields, i) < |st.m|
    ensures var st1 := EnterField(fields, i, st).value;
            var r := DecodeField(fields[i], wire, s, st.m[SlotIdx(fields, i)], st1.fixedCount);
            r.Good? && DecodeKnown(fields, i, wire, s, st)
                       == Good(StoreField(fields, i, st1, r.value.0, r.value.1), r.rest)
  {
    hide DecodeField;
    SlotInRange(fields, i);
  }

  lemma {:induction false} TurnParts(fields: seq<Field>, s: seq<byte>, st: State)
    requires StateFor(fields, st) && DecodeTurn(fields, s, st).Next?
    ensures DecVarint32(s).Good?
    ensures var key := DecVarint32(s).value;
            match FindField(fields, key / 8)
            case None => DecodeTurn(fields, s, st).st == st
            case Some(i) =>
              var r := DecodeKnown(fields, i, key % 8, DecVarint32(s).rest, st);
              r.Good? && DecodeTurn(fields, s, st) == Next(r.value, r.rest)
  {
    hide DecodeKnown, DecVarint32, SkipField, FindField;
  }
}

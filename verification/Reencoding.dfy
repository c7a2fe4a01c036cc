/** When everything `pb_decode` accepts can be encoded again: exactly when the destination is writable
    once it is set to its defaults. If it is not, an input is constructed that is accepted and leaves
    a struct that `pb_encode` refuses. */
module Reencoding {
  import opened Bytes
  import opened Schema
  import opened Varint
  import opened EncodeSpec
  import opened DecodeSpec
  import opened DecodeLaws
  import opened Preservation
  import opened Proto3
  import opened RoundTrip
  import opened Writability

  // ---------- the least input a table accepts ----------

  function LeastValue(f: Field): seq<byte>
    decreases f, 0
  {
    if f.ltype.LSubmessage? then EncString(Least(f.sub, |f.sub|))
    else match EncodeScalar(f, ZeroValue(f)) case Some(b) => b case None => []
  }

  /** One occurrence of a field that holds `payload`. */
  function Occurrence(f: Field, value: seq<byte>): seq<byte> {
    EncTag(f.tag, WireType(f.ltype)) + value
  }

  function LeastFrom(fields: seq<Field>, j: nat, skip: nat): seq<byte>
    requires j <= |fields|
    decreases fields, 0, |fields| - j
  {
    if j == |fields| then []
    else
      (if fields[j].htype.Required? && j != skip then Occurrence(fields[j], LeastValue(fields[j])) else [])
      + LeastFrom(fields, j + 1, skip)
  }

  /** All required fields but field `skip`, each with the least value there is. */
  function Least(fields: seq<Field>, skip: nat): seq<byte>
    decreases fields, 1
  {
    LeastFrom(fields, 0, skip)
  }

  // ---------- how long an input has to be to reach every part of a struct ----------

  function ReachField(f: Field): nat
    decreases f, 0
  {
    if !f.ltype.LSubmessage? || f.htype.Oneof? then 0
    else
      (if f.htype.Repeated? then f.arraySize * |Occurrence(f, LeastValue(f))| else 0)
      + |Occurrence(f, [])| + 5 + Reach(f.sub)
  }

  function ReachFrom(fields: seq<Field>, j: nat): nat
    requires j <= |fields|
    decreases fields, 0, |fields| - j
  {
    if j == |fields| then 0
    else
      var here, later := ReachField(fields[j]), ReachFrom(fields, j + 1);
      if here > later then here else later
  }

  /** A bound on the length of an input that reaches a given part of a struct. To reach an element of
      an array without a count all its elements have to be there. */
  function Reach(fields: seq<Field>): nat
    decreases fields, 1
  {
    |Least(fields, |fields|)| + ReachFrom(fields, 0)
  }

  /** Every part of a submessage can be reached within the 32-bit size of its payload. */
  predicate Reachable(fields: seq<Field>) {
    forall i | 0 <= i < |fields| :: ReachableField(fields[i])
  }

  predicate ReachableField(f: Field) {
    f.ltype.LSubmessage? && !f.htype.Oneof? ==> Reach(f.sub) < UINT32
  }

  lemma {:induction false} ReachFromAt(fields: seq<Field>, j: nat, i: nat)
    requires j <= i < |fields|
    ensures ReachField(fields[i]) <= ReachFrom(fields, j)
    decreases i - j
  {
    hide ReachField;
    if j < i { ReachFromAt(fields, j + 1, i); }
  }

  lemma {:induction false} ReachableSub(fields: seq<Field>)
    requires Reach(fields) < UINT32
    ensures Reachable(fields)
  {
    hide Least, Occurrence;
    forall i | 0 <= i < |fields| ensures ReachableField(fields[i]) {
      ReachFromAt(fields, 0, i);
      if fields[i].ltype.LSubmessage? && !fields[i].htype.Oneof? { ReachedField(fields[i]); }
    }
  }

  lemma {:induction false} ReachedField(f: Field)
    requires f.ltype.LSubmessage? && !f.htype.Oneof?
    ensures Reach(f.sub) <= ReachField(f)
  {
    hide Occurrence, LeastValue, Reach;
    assert f.arraySize * |Occurrence(f, LeastValue(f))| >= 0;
  }

  lemma {:induction false} LeastSkips(fields: seq<Field>, j: nat, skip: nat)
    requires j <= |fields|
    ensures |LeastFrom(fields, j, skip)| <= |LeastFrom(fields, j, |fields|)|
    decreases |fields| - j
  {
    hide Occurrence, LeastValue;
    if j < |fields| { LeastSkips(fields, j + 1, skip); }
  }

  lemma {:induction false} SizePrefix(s: seq<byte>)
    requires |s| < UINT32
    ensures |EncString(s)| <= 5 + |s|
  {
    ShlConstants(1);
    EncVarintLength(|s|, 5);
  }

  // ---------- the least input is accepted ----------

  /** The required fields before `n`, but for field `skip`, are marked as seen. */
  ghost predicate MarkedBut(fields: seq<Field>, seen: set<nat>, n: nat, skip: nat)
    requires n <= |fields|
  {
    forall j :: 0 <= j < n && j != skip && fields[j].htype.Required? && RequiredBefore(fields, j) < MAX_REQUIRED_FIELDS
            ==> RequiredBefore(fields, j) in seen
  }

  /** The slots of field `skip` and of those that are not required are the same. */
  ghost predicate KeptBut(fields: seq<Field>, m: seq<Slot>, m': seq<Slot>, skip: nat) {
    |m| == |m'| == NumSlots(fields)
    && forall j :: 0 <= j < |fields| && (j == skip || !fields[j].htype.Required?) ==>
         SlotIdx(fields, j) < |m| && m'[SlotIdx(fields, j)] == m[SlotIdx(fields, j)]
  }

  lemma {:induction false} LeastValueDecodes(f: Field, base: Value, rest: seq<byte>)
    requires ValidField(f) && ConformsValue(f, base, false) && ReachableField(f) && !f.htype.Oneof?
    ensures DecodeValue(f, LeastValue(f) + rest, base).Good?
    ensures DecodeValue(f, LeastValue(f) + rest, base).rest == rest
    ensures ConformsValue(f, DecodeValue(f, LeastValue(f) + rest, base).value, false)
    decreases f, 2
  {
    hide EncodeScalar, DecodeScalar, DecodeNoInit, TakeDelimited, EncVarint, Defaults, Least, Reach;
    var r := DecodeValue(f, LeastValue(f) + rest, base);
    if f.ltype.LSubmessage? {
      var payload, m := Least(f.sub, |f.sub|), SubBase(f, base);
      if f.htype.Repeated? { DefaultsConform(f.sub, base.slots, false); }
      LeastWithin(f.sub);
      TakeDelimitedRoundTrip(payload, rest);
      LeastDecodes(f.sub, m);
      NoInitConforms(f.sub, payload, m, false);
    } else {
      ZeroConforms(f);
      ScalarRoundTrip(f, ZeroValue(f), base, rest);
      ScalarConforms(f, LeastValue(f) + rest, base);
      StrictValueConforms(f, r.value);
    }
  }

  lemma {:induction false} LeastWithin(fields: seq<Field>)
    requires Reach(fields) < UINT32
    ensures |Least(fields, |fields|)| < UINT32 && Reachable(fields)
  {
    hide Least, ReachFrom, Reachable;
    ReachableSub(fields);
  }

  lemma {:induction false} LeastLoop(fields: seq<Field>, j: nat, skip: nat, st: State, rest: seq<byte>)
      returns (st': State)
    requires ValidSchema(fields) && Reachable(fields) && StateFor(fields, st) && Typed(fields, st.m)
    requires j <= |fields| && MarkedBut(fields, st.seen, j, skip)
    ensures StateFor(fields, st') && Typed(fields, st'.m) && KeptBut(fields, st.m, st'.m, skip)
    ensures st'.fixed == st.fixed && st'.fixedCount == st.fixedCount && MarkedBut(fields, st'.seen, |fields|, skip)
    ensures DecodeLoop(fields, LeastFrom(fields, j, skip) + rest, st) == DecodeLoop(fields, rest, st')
    decreases fields, 0, |fields| - j
  {
    hide DecodeLoop, LeastValue, Occurrence, ConformsMsg, ValidSchema, Reachable, MarkedBut, KeptBut, NumSlots;
    SlotsKept(fields, st.m, skip);
    if j == |fields| {
      st' := st;
      assert [] + rest == rest;
    } else {
      var more := LeastFrom(fields, j + 1, skip) + rest;
      var st1 := st;
      if fields[j].htype.Required? && j != skip {
        st1 := LeastTurn(fields, j, skip, st, more);
        assert LeastFrom(fields, j, skip) + rest == Occurrence(fields[j], LeastValue(fields[j])) + more;
      } else {
        assert LeastFrom(fields, j, skip) + rest == more;
        NotMarked(fields, st.seen, j, skip);
      }
      st' := LeastLoop(fields, j + 1, skip, st1, rest);
      KeptTwice(fields, st.m, st1.m, st'.m, skip);
    }
  }

  lemma {:induction false} NotMarked(fields: seq<Field>, seen: set<nat>, j: nat, skip: nat)
    requires j < |fields| && MarkedBut(fields, seen, j, skip) && (j == skip || !fields[j].htype.Required?)
    ensures MarkedBut(fields, seen, j + 1, skip)
  {
    hide RequiredBefore;
  }

  lemma {:induction false} KeptTwice(fields: seq<Field>, a: seq<Slot>, b: seq<Slot>, c: seq<Slot>, skip: nat)
    requires KeptBut(fields, a, b, skip) && KeptBut(fields, b, c, skip)
    ensures KeptBut(fields, a, c, skip)
  {
    hide SlotIdx;
  }

  lemma {:induction false} SlotsKept(fields: seq<Field>, m: seq<Slot>, skip: nat)
    requires |m| == NumSlots(fields)
    ensures KeptBut(fields, m, m, skip)
  {
    forall j | 0 <= j < |fields| ensures SlotIdx(fields, j) < |m| { SlotInRange(fields, j); }
  }

  lemma {:induction false} LeastTurn(fields: seq<Field>, j: nat, skip: nat, st: State, more: seq<byte>)
      returns (st': State)
    requires ValidSchema(fields) && Reachable(fields) && StateFor(fields, st) && Typed(fields, st.m)
    requires j < |fields| && j != skip && fields[j].htype.Required? && MarkedBut(fields, st.seen, j, skip)
    ensures StateFor(fields, st') && Typed(fields, st'.m) && KeptBut(fields, st.m, st'.m, skip)
    ensures st'.fixed == st.fixed && st'.fixedCount == st.fixedCount && MarkedBut(fields, st'.seen, j + 1, skip)
    ensures DecodeLoop(fields, Occurrence(fields[j], LeastValue(fields[j])) + more, st) == DecodeLoop(fields, more, st')
    decreases fields[j], 3
  {
    hide DecodeLoop, LeastValue, DecodeValue, EncTag, ConformsValue, RequiredBefore, SlotIdx, ReachableField;
    var f, n := fields[j], SlotIdx(fields, j);
    assert ConformsSlot(f, st.m[n], false) && ValidField(f) && ReachableField(f);
    var base := st.m[n].v;
    LeastValueDecodes(f, base, more);
    var v := DecodeValue(f, LeastValue(f) + more, base).value;
    SingularTurn(fields, j, LeastValue(f) + more, v, st, more);
    st' := MarkSeen(fields, j, st).(m := st.m[n := Single(v)]);
    assert Occurrence(f, LeastValue(f)) + more == EncTag(f.tag, WireType(f.ltype)) + (LeastValue(f) + more);
    StoreConforms(fields, st.m, j, Single(v), false);
    StoredKeeps(fields, st.m, j, skip, Single(v));
  }

  lemma {:induction false} StoredKeeps(fields: seq<Field>, m: seq<Slot>, j: nat, skip: nat, slot: Slot)
    requires j < |fields| && j != skip && fields[j].htype.Required? && |m| == NumSlots(fields)
    ensures SlotIdx(fields, j) < |m| && KeptBut(fields, m, m[SlotIdx(fields, j) := slot], skip)
  {
    hide SlotIdx;
    SlotsKept(fields, m, skip);
    SlotInRange(fields, j);
    forall k | 0 <= k < |fields| && k != j && SlotIdx(fields, k) == SlotIdx(fields, j) ensures false {
      if k < j { SlotShared(fields, k, j); } else { SlotShared(fields, j, k); }
    }
  }

  /** Every table accepts its least input, into any struct. */
  lemma {:induction false} LeastDecodes(fields: seq<Field>, m: seq<Slot>)
    requires ValidSchema(fields) && Reachable(fields) && Typed(fields, m)
    ensures DecodeNoInit(fields, Least(fields, |fields|), m).Good?
    ensures KeptBut(fields, m, DecodeNoInit(fields, Least(fields, |fields|), m).value, |fields|)
    decreases fields, 1
  {
    hide DecodeLoop, LeastFrom, ConformsSlot, Reachable, RequiredBefore, SlotIdx, KeptBut;
    var s := LeastFrom(fields, 0, |fields|);
    var st := LeastLoop(fields, 0, |fields|, InitialState(m), []);
    assert s + [] == s;
    LoopEnds(fields, st);
    assert Marked(fields, st.seen, |fields|);
    AllRequiredMarked(fields, st.seen);
  }

  // ---------- an input that shows what does not fit ----------

  /** Decoding `payload` over an element leaves something in it that does not fit. */
  ghost predicate Breaks(f: Field, cell: Value, payload: seq<byte>) {
    cell.VMsg?
    && var r := DecodeNoInit(f.sub, payload, Defaults(f.sub, cell.slots)); r.Good? && !Fits(f.sub, r.value)
  }

  /** Occurrences of the elements from `c` up to `n` of an array: element `k` with the given payload, the
      others with the least there is. */
  function ElementsFrom(f: Field, c: nat, n: nat, k: nat, payload: seq<byte>): seq<byte>
    decreases n - c
  {
    if c >= n then []
    else Occurrence(f, if c == k then EncString(payload) else LeastValue(f)) + ElementsFrom(f, c + 1, n, k, payload)
  }

  lemma {:induction false} ElementsLength(f: Field, c: nat, n: nat, k: nat, payload: seq<byte>)
    requires c <= n <= f.arraySize && |payload| < UINT32
    ensures |ElementsFrom(f, c, n, k, payload)|
         <= (n - c) * |Occurrence(f, LeastValue(f))|
            + if c <= k then |Occurrence(f, [])| + 5 + |payload| else 0
    decreases n - c
  {
    hide LeastValue, EncTag, EncString;
    SizePrefix(payload);
    if c < n {
      ElementsLength(f, c + 1, n, k, payload);
      var l := |Occurrence(f, LeastValue(f))|;
      assert (n - c) * l == (n - (c + 1)) * l + l;
    }
  }

  lemma {:induction false} BrokenValue(f: Field, cell: Value, payload: seq<byte>, rest: seq<byte>)
    requires f.ltype.LSubmessage? && f.htype.Repeated? && Breaks(f, cell, payload) && |payload| < UINT32
    ensures DecodeValue(f, EncString(payload) + rest, cell).Good?
    ensures DecodeValue(f, EncString(payload) + rest, cell).rest == rest
    ensures !FitsValue(f, DecodeValue(f, EncString(payload) + rest, cell).value)
  {
    hide DecodeNoInit, TakeDelimited, EncVarint, Fits, Defaults;
    TakeDelimitedRoundTrip(payload, rest);
  }

  lemma {:induction false} ProbeElements(fields: seq<Field>, i: nat, st: State, c: nat, n: nat, k: nat,
                                         payload: seq<byte>) returns (st': State)
    requires ValidSchema(fields) && i < |fields| && fields[i].htype.Repeated? && fields[i].ltype.LSubmessage?
    requires ReachableField(fields[i]) && |payload| < UINT32
    requires CountIs(fields, i, st, c) && c <= n <= fields[i].arraySize && k < n
    requires c <= k ==> k - c < |CellsFrom(fields[i], st.m[SlotIdx(fields, i)], c)|
                        && Breaks(fields[i], CellsFrom(fields[i], st.m[SlotIdx(fields, i)], c)[k - c], payload)
    requires c > k ==> k < |st.m[SlotIdx(fields, i)].items| && !FitsValue(fields[i], st.m[SlotIdx(fields, i)].items[k])
    ensures CountIs(fields, i, st', n) && OnlySlot(fields, i, st, st')
    ensures k < |st'.m[SlotIdx(fields, i)].items| && !FitsValue(fields[i], st'.m[SlotIdx(fields, i)].items[k])
    ensures DecodeLoop(fields, ElementsFrom(fields[i], c, n, k, payload), st) == DecodeLoop(fields, [], st')
    decreases n - c
  {
    hide DecodeLoop, DecodeValue, LeastValue, EncTag, EncString, CountIs, Breaks, FitsValue, ConformsValue, SlotIdx;
    hide ValidField, CellsFrom, Stored, ReachableField;
    var f, slot := fields[i], SlotIdx(fields, i);
    CountShape(fields, i, st, c);
    if c == n {
      st' := st;
      assert st.m[slot := st.m[slot]] == st.m;
    } else {
      var more := ElementsFrom(f, c + 1, n, k, payload);
      var value := if c == k then EncString(payload) else LeastValue(f);
      var cells := CellsFrom(f, st.m[slot], c);
      assert ValidField(f);
      if c == k { BrokenValue(f, cells[0], payload, more); } else { LeastValueDecodes(f, cells[0], more); }
      var v := DecodeValue(f, value + more, cells[0]).value;
      ElementTurn(fields, i, value + more, v, c, st, more);
      assert Occurrence(f, value) + more == EncTag(f.tag, WireType(f.ltype)) + (value + more);
      var st1 := Stored(fields, i, st, c, [v]);
      StoredItems(fields, i, st, c, v);
      StoredCells(fields, i, st, c, v);
      if c > k { assert st1.m[slot].items[..c][k] == st.m[slot].items[..c][k]; }
      st' := ProbeElements(fields, i, st1, c + 1, n, k, payload);
    }
  }

  lemma {:induction false} StoredCells(fields: seq<Field>, i: nat, st: State, k: nat, v: Value)
    requires i < |fields| && CountIs(fields, i, st, k) && k < fields[i].arraySize
    ensures |CellsFrom(fields[i], st.m[SlotIdx(fields, i)], k)| > 0
    ensures var n := SlotIdx(fields, i);
            var st' := Stored(fields, i, st, k, [v]);
            n < |st'.m| && st'.m[n].Rep?
            && CellsFrom(fields[i], st'.m[n], k + 1) == CellsFrom(fields[i], st.m[n], k)[1..]
  {
    hide ConformsValue, SlotIdx;
    CellsAdvance(fields[i], st.m[SlotIdx(fields, i)], k, [v]);
  }

  /** Some submessage of the slot, though it may not be written now, can be decoded over and does not
      stay writable. */
  ghost predicate Exposed(f: Field, s: Slot) {
    f.ltype.LSubmessage?
    && match f.htype
       case Required => !WritableValue(f, Held(s))
       case Optional => !WritableValue(f, Held(s))
       case Repeated => s.Rep? && exists k :: 0 <= k < |CellsFrom(f, s, 0)| && !WritableSpare(f, CellsFrom(f, s, 0)[k])
       case Oneof => false
  }

  lemma {:induction false} UnfitOrExposed(f: Field, s: Slot)
    requires ValidField(f) && AtDefault(f, s) && !WritableSlot(f, s) && !Exposed(f, s)
    ensures f.htype.Repeated? && !FitsSlot(f, s)
  {
    hide ConformsMsg, Defaults, FitsValue, WritableSpare, WritableValue, DefaultValue, ConformsValue, ConformsSpare;
    if !f.ltype.LSubmessage? { NoSpare(f); }
    match f.htype
    case Required => if !f.ltype.LSubmessage? { DefaultScalarWritable(f, s.v); }
    case Optional => if !f.ltype.LSubmessage? { DefaultScalarWritable(f, Held(s)); }
    case Repeated =>
      assert HasSizeField(f) ==> s.items == [] && CellsFrom(f, s, 0) == s.spare;
      assert !HasSizeField(f) ==> CellsFrom(f, s, 0) == s.items && s.spare == [];
    case Oneof =>
  }

  lemma {:induction false} DefaultScalarWritable(f: Field, was: Value)
    requires ValidField(f) && !f.ltype.LSubmessage?
    ensures WritableValue(f, DefaultValue(f, was))
  {
  }

  lemma {:induction false} NoSpare(f: Field)
    requires !f.ltype.LSubmessage?
    ensures forall v :: WritableSpare(f, v)
  {
  }

  /** An all-default struct fits, whatever it holds. */
  lemma {:induction false} DefaultFits(fields: seq<Field>, m: seq<Slot>)
    requires ValidSchema(fields) && |m| == NumSlots(fields) && AllDefault(fields, m, 0)
    ensures Fits(fields, m)
  {
    hide SlotIdx, AllDefault, FitsValue, IsZeroData;
    forall i | 0 <= i < |fields| ensures SlotIdx(fields, i) < |m| && FitsSlot(fields[i], m[SlotIdx(fields, i)]) {
      AllDefaultAt(fields, m, 0, i);
      assert ValidField(fields[i]);
    }
  }

  /** A written submessage that does not fit is not left out. */
  lemma {:induction false} UnfitIsWritten(f: Field, m: seq<Slot>)
    requires ValidField(f) && f.ltype.LSubmessage? && !Fits(f.sub, m) && (f.htype.Required? || f.htype.Optional?)
    ensures !FitsSlot(f, NewSlot(f, VMsg(m)))
  {
    hide AllDefault, Fits;
    assert !FitsValue(f, VMsg(m));
    assert IsZeroData(f, VMsg(m)) == (|m| == NumSlots(f.sub) && AllDefault(f.sub, m, 0));
    if |m| == NumSlots(f.sub) && AllDefault(f.sub, m, 0) { DefaultFits(f.sub, m); }
  }

  /** Where an exposed submessage of a singular field is decoded over. */
  lemma {:induction false} ProbeSingular(fields: seq<Field>, i: nat, st: State) returns (p: seq<byte>, st': State)
    requires ValidSchema(fields) && Reachable(fields) && i < |fields| && StateFor(fields, st)
    requires SlotIdx(fields, i) < |st.m| && AtDefault(fields[i], st.m[SlotIdx(fields, i)])
    requires Exposed(fields[i], st.m[SlotIdx(fields, i)]) && !fields[i].htype.Repeated?
    ensures StateFor(fields, st') && !FitsSlot(fields[i], st'.m[SlotIdx(fields, i)]) && |p| <= ReachField(fields[i])
    ensures st' == MarkSeen(fields, i, st).(m := st'.m) && DecodeLoop(fields, p, st) == DecodeLoop(fields, [], st')
    decreases fields[i], 1
  {
    hide DecodeLoop, DecodeNoInit, EncTag, EncVarint, TakeDelimited, Defaults, Reach, ConformsMsg, Fits, Writable;
    hide SlotIdx, FitsSlot, MarkSeen;
    var f, n := fields[i], SlotIdx(fields, i);
    var held := Held(st.m[n]);
    assert ValidField(f) && ReachableField(f);
    assert ConformsSlot(f, st.m[n], false) && ConformsValue(f, held, false) && DefaultValue(f, held) == held;
    SubmessageAtDefault(f, held);
    ReachableSub(f.sub);
    var payload := ProbeMsg(f.sub, held.slots);
    var r := DecodeNoInit(f.sub, payload, held.slots).value;
    TakeDelimitedRoundTrip(payload, []);
    assert EncString(payload) + [] == EncString(payload);
    SingularTurn(fields, i, EncString(payload), VMsg(r), st, []);
    p := Occurrence(f, EncString(payload));
    SizePrefix(payload);
    st' := MarkSeen(fields, i, st).(m := st.m[n := NewSlot(f, VMsg(r))]);
    UnfitIsWritten(f, r);
  }

  /** Where an exposed element of an array is decoded over. */
  lemma {:induction false} ProbeArray(fields: seq<Field>, i: nat, st: State) returns (p: seq<byte>, st': State)
    requires ValidSchema(fields) && Reachable(fields) && i < |fields| && StateFor(fields, st)
    requires SlotIdx(fields, i) < |st.m| && AtDefault(fields[i], st.m[SlotIdx(fields, i)])
    requires Exposed(fields[i], st.m[SlotIdx(fields, i)]) && fields[i].htype.Repeated? && st.fixed == None
    ensures StateFor(fields, st') && !FitsSlot(fields[i], st'.m[SlotIdx(fields, i)]) && |p| <= ReachField(fields[i])
    ensures RunComplete(fields, st') && st'.seen == st.seen && DecodeLoop(fields, p, st) == DecodeLoop(fields, [], st')
    decreases fields[i], 1
  {
    hide DecodeLoop, DecodeNoInit, Defaults, Reach, ConformsValue, Fits, FitsValue, Occurrence, LeastValue, CellsFrom;
    hide SlotIdx, Writable, CountIs, ElementsFrom, EncString, FitsSlot, ReachField, AtDefaults, DefaultSlot;
    hide ConformsMsg;
    var f, slot := fields[i], SlotIdx(fields, i);
    assert ValidField(f) && ReachableField(f);
    ArrayAtDefault(fields, i, st);
    CountShape(fields, i, st, 0);
    var cells := CellsFrom(f, st.m[slot], 0);
    var k :| 0 <= k < |cells| && !WritableSpare(f, cells[k]);
    var cell := cells[k];
    TypedElement(f, cell);
    ReachableSub(f.sub);
    var payload := ProbeMsg(f.sub, Defaults(f.sub, cell.slots));
    var n := if HasSizeField(f) then k + 1 else f.arraySize;
    p := ElementsFrom(f, 0, n, k, payload);
    st' := ProbeElements(fields, i, st, 0, n, k, payload);
    ElementsReach(f, n, k, payload);
    UnfitElement(fields, i, st', n, k);
  }

  lemma {:induction false} ElementsReach(f: Field, n: nat, k: nat, payload: seq<byte>)
    requires f.ltype.LSubmessage? && f.htype.Repeated? && n <= f.arraySize
    requires |payload| <= Reach(f.sub) < UINT32
    ensures |ElementsFrom(f, 0, n, k, payload)| <= ReachField(f)
  {
    hide Occurrence, LeastValue, ElementsFrom, Reach;
    ElementsLength(f, 0, n, k, payload);
    Fewer(n, f.arraySize, |Occurrence(f, LeastValue(f))|);
  }

  lemma {:induction false} Fewer(n: nat, a: nat, l: nat)
    requires n <= a
    ensures n * l <= a * l
  {
  }

  lemma {:induction false} UnfitElement(fields: seq<Field>, i: nat, st: State, n: nat, k: nat)
    requires i < |fields| && fields[i].htype.Repeated? && CountIs(fields, i, st, n) && k < n
    requires n == fields[i].arraySize || HasSizeField(fields[i])
    requires k < |st.m[SlotIdx(fields, i)].items| && !FitsValue(fields[i], st.m[SlotIdx(fields, i)].items[k])
    ensures !FitsSlot(fields[i], st.m[SlotIdx(fields, i)])
    ensures !HasSizeField(fields[i]) ==> RunComplete(fields, st)
  {
    hide ConformsValue, FitsValue;
  }

  lemma {:induction false} TypedElement(f: Field, cell: Value)
    requires f.ltype.LSubmessage? && ValidField(f) && ConformsValue(f, cell, false)
    ensures cell.VMsg? && ValidSchema(f.sub) && AtDefaults(f.sub, Defaults(f.sub, cell.slots))
  {
    DefaultsAtDefaults(f.sub, cell.slots);
  }

  /** A struct at its defaults that is not writable: an input that is accepted, within the bound, after
      which something that is written does not fit. */
  lemma {:induction false} ProbeMsg(fields: seq<Field>, m: seq<Slot>) returns (s: seq<byte>)
    requires ValidSchema(fields) && Reachable(fields) && AtDefaults(fields, m) && !Writable(fields, m)
    ensures DecodeNoInit(fields, s, m).Good? && !Fits(fields, DecodeNoInit(fields, s, m).value)
    ensures |s| <= Reach(fields)
    decreases fields, 2
  {
    hide DecodeLoop, WritableSlot, FitsSlot, LeastFrom, ReachField, ConformsSlot, Exposed, DefaultSlot, SlotIdx;
    hide ValidField, Reachable, RequiredBefore, AtDefault, Defaults;
    var i: nat :| i < |fields| && !WritableSlot(fields[i], m[SlotIdx(fields, i)]);
    var f, n := fields[i], SlotIdx(fields, i);
    assert ValidField(f);
    SlotAtDefault(fields, m, i);
    ReachFromAt(fields, 0, i);
    if Exposed(f, m[n]) {
      LeastSkips(fields, 0, i);
      var p := ProbeField(fields, m, i);
      s := LeastFrom(fields, 0, i) + p;
    } else {
      UnfitOrExposed(f, m[n]);
      LeastDecodes(fields, m);
      s := Least(fields, |fields|);
    }
  }

  lemma {:induction false} SlotAtDefault(fields: seq<Field>, m: seq<Slot>, i: nat)
    requires AtDefaults(fields, m) && i < |fields|
    ensures SlotIdx(fields, i) < |m| && AtDefault(fields[i], m[SlotIdx(fields, i)])
  {
    hide DefaultSlot, ConformsSlot, Defaults;
    DefaultsAt(fields, m, i);
    assert ConformsSlot(fields[i], m[SlotIdx(fields, i)], false);
  }

  /** The required fields, then the exposed field. */
  lemma {:induction false} ProbeField(fields: seq<Field>, m: seq<Slot>, i: nat) returns (p: seq<byte>)
    requires ValidSchema(fields) && Reachable(fields) && AtDefaults(fields, m) && i < |fields|
    requires SlotIdx(fields, i) < |m| && AtDefault(fields[i], m[SlotIdx(fields, i)])
    requires Exposed(fields[i], m[SlotIdx(fields, i)])
    ensures |p| <= ReachField(fields[i])
    ensures var s := LeastFrom(fields, 0, i) + p;
            DecodeNoInit(fields, s, m).Good? && !Fits(fields, DecodeNoInit(fields, s, m).value)
    decreases fields, 1
  {
    hide DecodeLoop, FitsSlot, LeastFrom, ReachField, ConformsSlot, Exposed, SlotIdx, Defaults, Reachable, AtDefault;
    hide RequiredBefore, MarkSeen;
    var f, n, least := fields[i], SlotIdx(fields, i), LeastFrom(fields, 0, i);
    var st := LeastLoop(fields, 0, i, InitialState(m), []);
    var st';
    assert least + [] == least;
    LoopEnds(fields, st);
    if f.htype.Repeated? {
      p, st' := ProbeArray(fields, i, st);
    } else {
      p, st' := ProbeSingular(fields, i, st);
    }
    LoopConcat(fields, least, p, InitialState(m));
    LoopEnds(fields, st');
    AllMarked(fields, i, st, st'.seen);
    AllRequiredMarked(fields, st'.seen);
  }

  lemma {:induction false} AllMarked(fields: seq<Field>, i: nat, st: State, seen: set<nat>)
    requires i < |fields| && MarkedBut(fields, st.seen, |fields|, i)
    requires seen == if fields[i].htype.Repeated? then st.seen else MarkSeen(fields, i, st).seen
    ensures Marked(fields, seen, |fields|)
  {
    hide RequiredBefore;
  }

  // ---------- the exact condition ----------

  /** What is decoded into a writable destination can be encoded again. */
  lemma {:induction false} WritableReencodes(fields: seq<Field>, s: seq<byte>, m: seq<Slot>)
    requires ValidSchema(fields) && Typed(fields, m) && Decode(fields, s, m).Good?
    requires Writable(fields, Defaults(fields, m))
    ensures Writable(fields, Decode(fields, s, m).value) && EncodeMsg(fields, Decode(fields, s, m).value).Some?
  {
    hide DecodeNoInit, ConformsMsg, Defaults, EncodeMsg, Writable, Fits;
    var base, r := Defaults(fields, m), Decode(fields, s, m).value;
    DefaultsConform(fields, m, false);
    NoInitConforms(fields, s, base, false);
    NoInitWritable(fields, s, base);
    WritableFits(fields, r);
    EncodableExact(fields, r);
  }

  /** For every table, and every destination of its C types: all that `pb_decode` accepts can be
      encoded again if and only if the destination is writable once it is set to its defaults. */
  lemma {:induction false} ReencodesExact(fields: seq<Field>, m: seq<Slot>)
    requires ValidSchema(fields) && Reachable(fields) && Typed(fields, m)
    ensures (forall s: seq<byte> :: Decode(fields, s, m).Good? ==> EncodeMsg(fields, Decode(fields, s, m).value).Some?)
       <==> Writable(fields, Defaults(fields, m))
  {
    hide DecodeNoInit, ConformsMsg, Defaults, EncodeMsg, Writable, Fits, Reachable, AtDefaults, Reach;
    var base := Defaults(fields, m);
    if Writable(fields, base) {
      forall s: seq<byte> | Decode(fields, s, m).Good? ensures EncodeMsg(fields, Decode(fields, s, m).value).Some? {
        WritableReencodes(fields, s, m);
      }
    } else {
      DefaultsAtDefaults(fields, m);
      var s := ProbeMsg(fields, base);
      BaseTyped(fields, base);
      NoInitConforms(fields, s, base, false);
      EncodableExact(fields, Decode(fields, s, m).value);
      assert Decode(fields, s, m).Good?;
    }
  }

  lemma {:induction false} BaseTyped(fields: seq<Field>, m: seq<Slot>)
    requires AtDefaults(fields, m)
    ensures Typed(fields, m)
  {
  }

  /** Strings of four characters in an array without a count. */
  const TEXT := Field(1, LString, Repeated, 0, 0, 4, 1, [], None)

  /** To be well-formed is more than that takes: a string without a NUL is written as it is. */
  lemma {:induction false} UnterminatedEncodes()
    ensures var m := [Rep([VString([1, 2, 3, 4])], [])];
            ValidSchema([TEXT]) && Reachable([TEXT]) && Typed([TEXT], m) && !WellFormed([TEXT], Defaults([TEXT], m))
            && Writable([TEXT], Defaults([TEXT], m))
            && Decode([TEXT], [], m) == Good(m, []) && EncodeMsg([TEXT], m).Some?
  {
    hide EncodeMsg, Decode, Defaults, ValidSchema, ConformsMsg, Writable, Reach;
    var m := [Rep([VString([1, 2, 3, 4])], [])];
    TextShape(m);
    WritableReencodes([TEXT], [], m);
  }

  lemma {:induction false} TextShape(m: seq<Slot>)
    requires m == [Rep([VString([1, 2, 3, 4])], [])]
    ensures ValidSchema([TEXT]) && Typed([TEXT], m) && !WellFormed([TEXT], m) && Writable([TEXT], m)
    ensures Defaults([TEXT], m) == m && Decode([TEXT], [], m) == Good(m, [])
  {
    hide DecodeLoop, ValidSchema, ConformsMsg, Writable, Defaults, ConformsSlot, WritableSlot;
    TextSlot(m[0]);
    OneField(TEXT, m[0], false);
    OneField(TEXT, m[0], true);
    LoopEnds([TEXT], InitialState(m));
    assert RequiredBefore([TEXT], 1) == 0;
  }

  lemma {:induction false} TextSlot(s: Slot)
    requires s == Rep([VString([1, 2, 3, 4])], [])
    ensures ValidField(TEXT) && ConformsSlot(TEXT, s, false) && !ConformsSlot(TEXT, s, true) && WritableSlot(TEXT, s)
  {
    assert !ConformsValue(TEXT, s.items[0], true);
  }

  /** A struct of one field. */
  lemma {:induction false} OneField(f: Field, s: Slot, strict: bool)
    ensures SlotIdx([f], 0) == 0 && NumSlots([f]) == 1 && (ValidField(f) ==> ValidSchema([f]))
    ensures ConformsMsg([f], [s], strict) <==> ConformsSlot(f, s, strict)
    ensures Writable([f], [s]) <==> WritableSlot(f, s)
    ensures Fits([f], [s]) <==> FitsSlot(f, s)
    ensures Defaults([f], [s]) == [DefaultSlot(f, s)]
  {
    hide ConformsSlot, WritableSlot, FitsSlot, DefaultSlot, ValidField;
    assert SlotIdx([f], 0) == 0 && NumSlots([f]) == 1;
    DefaultsAt([f], [s], 0);
    if ConformsSlot(f, s, strict) { assert ConformsMsg([f], [s], strict); }
    if WritableSlot(f, s) { assert Writable([f], [s]); }
    if FitsSlot(f, s) { assert Fits([f], [s]); }
  }

  // ---------- elements that no payload reaches ----------

  /** An array without a count of 2^31 messages in a submessage, each of them with a hidden submessage
      in which bytes do not fit. */
  const HIDDEN := Field(1, LSubmessage, Optional, 1, -1, 16, 0, [BLOBS], None)
  const MANY := Field(1, LSubmessage, Repeated, 0, 0, 20, 0x8000_0000, [HIDDEN], None)
  const OUTER := Field(1, LSubmessage, Optional, 1, -1, 40, 0, [MANY], None)

  function Stale(): seq<Slot> {
    [Rep([VBytes([]), VBytes([1, 2, 3, 4, 5])], [])]
  }

  function Stales(): (m: seq<Slot>)
    ensures |m| == 1 && m[0].Rep? && |m[0].items| == MANY.arraySize && m[0].spare == []
    ensures forall k :: 0 <= k < |m[0].items| ==> m[0].items[k] == VMsg([Opt(false, VMsg(Stale()))])
  {
    [Rep(seq(MANY.arraySize, _ => VMsg([Opt(false, VMsg(Stale()))])), [])]
  }

  /** The elements delivered by the run that is open. */
  function RunLength(st: State): nat {
    if st.fixed.None? then 0 else st.fixedCount
  }

  /** Every element takes at least two bytes. */
  lemma {:induction false} ManyTurn(s: seq<byte>, st: State)
    requires StateFor([MANY], st) && DecodeTurn([MANY], s, st).Next?
    ensures var t := DecodeTurn([MANY], s, st);
            (t.st == st || t.st.fixed == Some(0)) && 2 * RunLength(t.st) + |t.rest| <= 2 * RunLength(st) + |s|
  {
    hide DecodeTurn, DecodeKnown, DecVarint32, FindField, DecodeNoInit, Defaults;
    TurnParts([MANY], s, st);
    var key, s1 := DecVarint32(s).value, DecVarint32(s).rest;
    match FindField([MANY], key / 8)
    case None =>
    case Some(i) =>
      KnownParts([MANY], i, key % 8, s1, st);
      assert SlotIdx([MANY], 0) == 0;
      var st1 := EnterField([MANY], i, st).value;
      ManyElement(key % 8, s1, st.m[0], st1.fixedCount);
  }

  lemma {:induction false} ManyElement(wire: nat, s: seq<byte>, slot: Slot, count: nat)
    requires DecodeField(MANY, wire, s, slot, count).Good?
    ensures var r := DecodeField(MANY, wire, s, slot, count); r.value.1 == 1 && |r.rest| < |s|
  {
    hide DecodeNoInit, TakeDelimited, Defaults;
    var cells := CellsFrom(MANY, slot, count);
    var r := DecodeElements(MANY, wire, s, count, cells);
    assert r.Good? && DecodeValue(MANY, s, cells[0]).Good? && TakeDelimited(s).Good?;
  }

  lemma {:induction false} ManyLoop(s: seq<byte>, st: State)
    requires StateFor([MANY], st) && DecodeLoop([MANY], s, st).LoopDone?
    ensures var r := DecodeLoop([MANY], s, st);
            (r.st == st || r.st.fixed == Some(0)) && 2 * RunLength(r.st) <= 2 * RunLength(st) + |s|
    decreases |s|
  {
    hide DecodeTurn, RunLength;
    if s != [] && DecodeTurn([MANY], s, st).Next? {
      var t := DecodeTurn([MANY], s, st);
      ManyTurn(s, st);
      ManyLoop(t.rest, t.st);
    }
  }

  lemma {:induction false} ManyUntouched(payload: seq<byte>, m: seq<Slot>)
    requires |payload| < UINT32 && DecodeNoInit([MANY], payload, m).Good?
    ensures DecodeNoInit([MANY], payload, m).value == m
  {
    hide DecodeLoop, RequiredPresent;
    ManyLoop(payload, InitialState(m));
  }

  /** Decoding leaves the submessage alone, hidden or not. */
  lemma {:induction false} OuterLoop(s: seq<byte>, st: State, m: seq<Slot>)
    requires StateFor([OUTER], st) && st.m[0].Opt? && st.m[0].ov == VMsg(m)
    requires DecodeLoop([OUTER], s, st).LoopDone?
    ensures var r := DecodeLoop([OUTER], s, st); r.st.m[0].Opt? && r.st.m[0].ov == VMsg(m)
    decreases |s|
  {
    hide DecodeTurn, DecodeNoInit;
    if s != [] && DecodeTurn([OUTER], s, st).Next? {
      var t := DecodeTurn([OUTER], s, st);
      OuterTurn(s, st, m);
      OuterLoop(t.rest, t.st, m);
    }
  }

  lemma {:induction false} OuterTurn(s: seq<byte>, st: State, m: seq<Slot>)
    requires StateFor([OUTER], st) && st.m[0].Opt? && st.m[0].ov == VMsg(m)
    requires DecodeTurn([OUTER], s, st).Next?
    ensures var t := DecodeTurn([OUTER], s, st); t.st.m[0].Opt? && t.st.m[0].ov == VMsg(m)
  {
    hide DecodeTurn, DecodeKnown, DecVarint32, FindField, DecodeNoInit, TakeDelimited;
    TurnParts([OUTER], s, st);
    var key, s1 := DecVarint32(s).value, DecVarint32(s).rest;
    match FindField([OUTER], key / 8)
    case None =>
    case Some(i) =>
      KnownParts([OUTER], i, key % 8, s1, st);
      assert SlotIdx([OUTER], 0) == 0;
      TakenIsSmall(s1);
      ManyUntouched(TakeDelimited(s1).value, m);
  }

  lemma {:induction false} TakenIsSmall(s: seq<byte>)
    requires TakeDelimited(s).Good?
    ensures |TakeDelimited(s).value| < UINT32
  {
    hide DecVarint32From;
  }

  lemma {:induction false} StaleShape()
    ensures ValidSchema([BLOBS]) && Typed([BLOBS], Stale()) && !Writable([BLOBS], Stale())
    ensures Defaults([BLOBS], Stale()) == Stale()
  {
    hide ConformsMsg, Writable, Defaults, ConformsSlot, WritableSlot, ValidSchema;
    assert ValidField(BLOBS);
    StaleSlot(Stale()[0]);
    OneField(BLOBS, Stale()[0], false);
  }

  lemma {:induction false} StaleSlot(s: Slot)
    requires s == Rep([VBytes([]), VBytes([1, 2, 3, 4, 5])], [])
    ensures ConformsSlot(BLOBS, s, false) && !WritableSlot(BLOBS, s)
  {
    assert !FitsValue(BLOBS, s.items[1]);
  }

  lemma {:induction false} AbsentFits(f: Field, s: Slot)
    requires f.htype.Optional? && HasSizeField(f) && s.Opt? && !s.has
    ensures FitsSlot(f, s)
  {
  }

  lemma {:induction false} HiddenShape(m: seq<Slot>)
    requires m == [Opt(false, VMsg(Stale()))]
    ensures ValidSchema([HIDDEN]) && Typed([HIDDEN], m) && Fits([HIDDEN], m)
    ensures !Writable([HIDDEN], Defaults([HIDDEN], m))
  {
    hide Stale;
    StaleShape();
    assert ValidField(HIDDEN) && SlotIdx([HIDDEN], 0) == 0 && NumSlots([HIDDEN]) == 1;
    AbsentFits(HIDDEN, m[0]);
    assert ConformsSlot(HIDDEN, m[0], false);
    DefaultsAt([HIDDEN], m, 0);
    assert Defaults([HIDDEN], m)[0] == m[0];
    assert !WritableSlot(HIDDEN, m[0]);
  }

  lemma {:induction false} ManyShape()
    ensures ValidSchema([MANY]) && Typed([MANY], Stales()) && Fits([MANY], Stales()) && !Writable([MANY], Stales())
    ensures Defaults([MANY], Stales()) == Stales()
  {
    hide Stale, Stales, Defaults;
    var m, e := Stales(), [Opt(false, VMsg(Stale()))];
    HiddenShape(e);
    assert ValidField(MANY) && SlotIdx([MANY], 0) == 0 && NumSlots([MANY]) == 1;
    forall k | 0 <= k < |m[0].items|
      ensures ConformsValue(MANY, m[0].items[k], false) && FitsValue(MANY, m[0].items[k])
    {
      assert m[0].items[k] == VMsg(e);
    }
    assert ConformsSlot(MANY, m[0], false) && FitsSlot(MANY, m[0]);
    assert m[0].items[0] == VMsg(e) && !WritableSpare(MANY, m[0].items[0]);
    assert !WritableSlot(MANY, m[0]);
    DefaultsAt([MANY], m, 0);
    assert DefaultSlot(MANY, m[0]) == m[0];
  }

  lemma {:induction false} HiddenSlot(f: Field, has: bool, m: seq<Slot>)
    requires f.ltype.LSubmessage? && f.htype.Optional? && HasSizeField(f) && Fits(f.sub, m) && !Writable(f.sub, m)
    ensures FitsSlot(f, Opt(has, VMsg(m))) && !WritableSlot(f, Opt(has, VMsg(m)))
  {
    hide Fits, Writable;
    assert FitsValue(f, VMsg(m)) && !WritableValue(f, VMsg(m));
  }

  lemma {:induction false} OuterShape(has: bool)
    ensures var m := [Opt(has, VMsg(Stales()))];
            ValidSchema([OUTER]) && Typed([OUTER], m) && Fits([OUTER], m) && !Writable([OUTER], m)
            && (!has ==> Defaults([OUTER], m) == m)
  {
    hide Stales, Defaults;
    var m := [Opt(has, VMsg(Stales()))];
    ManyShape();
    assert ValidField(OUTER) && SlotIdx([OUTER], 0) == 0 && NumSlots([OUTER]) == 1;
    HiddenSlot(OUTER, has, Stales());
    assert ConformsSlot(OUTER, m[0], false);
    DefaultsAt([OUTER], m, 0);
    assert !has ==> DefaultSlot(OUTER, m[0]) == m[0];
  }

  /** So a bound on what a payload can reach is needed: the destination is not writable, but as no
      payload holds 2^31 elements, everything that is accepted can be encoded again. */
  lemma {:induction false} UnreachedEncodes(s: seq<byte>)
    ensures var m := [Opt(false, VMsg(Stales()))];
            ValidSchema([OUTER]) && Typed([OUTER], m) && !Writable([OUTER], Defaults([OUTER], m))
            && (Decode([OUTER], s, m).Good? ==> EncodeMsg([OUTER], Decode([OUTER], s, m).value).Some?)
  {
    hide EncodeMsg, Defaults, ValidSchema, ConformsMsg, Writable, Fits, Stales, DecodeLoop, RequiredPresent;
    var m := [Opt(false, VMsg(Stales()))];
    OuterShape(false);
    if Decode([OUTER], s, m).Good? {
      var r := Decode([OUTER], s, m).value;
      OuterLoop(s, InitialState(m), Stales());
      OuterShape(r[0].has);
      assert r == [Opt(r[0].has, VMsg(Stales()))];
      EncodableExact([OUTER], r);
    }
  }
}

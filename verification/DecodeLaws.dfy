/** Laws of the decoder over whole inputs: it reads no further than it consumes, so
    concatenating inputs composes decodes, and unknown fields change nothing. */
module DecodeLaws {
  import opened Bytes
  import opened Schema
  import opened Varint
  import opened DecodeSpec
  import opened WireFormat

  // ---------- a parser's result does not depend on what follows ----------

  lemma {:induction false} DecVarintPrefix(s: seq<byte>, t: seq<byte>)
    requires DecVarint(s).Good?
    ensures DecVarint(s + t) == DecVarint(s).(rest := DecVarint(s).rest + t)
  {
    DecVarintFromPrefix(s, t, 0, 0);
  }

  lemma {:induction false} DecFixedPrefix(s: seq<byte>, t: seq<byte>, n: nat)
    requires DecFixed(s, n).Good?
    ensures DecFixed(s + t, n) == DecFixed(s, n).(rest := DecFixed(s, n).rest + t)
  {
    assert (s + t)[..n] == s[..n];
    assert (s + t)[n..] == s[n..] + t;
  }

  lemma {:induction false} ScalarPrefix(f: Field, s: seq<byte>, t: seq<byte>, base: Value)
    requires DecodeScalar(f, s, base).Good?
    ensures DecodeScalar(f, s + t, base)
         == DecodeScalar(f, s, base).(rest := DecodeScalar(f, s, base).rest + t)
  {
    hide DecVarint32, DecVarint, DecFixed, TakeDelimited, ToInt32, ToInt64, Unzigzag, SignedFits, UnsignedFits;
    match f.ltype
    case LBool => DecVarint32Prefix(s, t);
    case LVarint => DecVarintPrefix(s, t);
    case LUVarint => DecVarintPrefix(s, t);
    case LSVarint => DecVarintPrefix(s, t);
    case LFixed32 => DecFixedPrefix(s, t, 4);
    case LFixed64 => DecFixedPrefix(s, t, 8);
    case LBytes => TakeDelimitedPrefix(s, t);
    case LString => TakeDelimitedPrefix(s, t);
    case LFixedBytes => TakeDelimitedPrefix(s, t);
  }

  lemma {:induction false} ValuePrefix(f: Field, s: seq<byte>, t: seq<byte>, base: Value)
    requires DecodeValue(f, s, base).Good?
    ensures DecodeValue(f, s + t, base)
         == DecodeValue(f, s, base).(rest := DecodeValue(f, s, base).rest + t)
  {
    hide TakeDelimited, DecodeScalar, DecodeNoInit;
    if f.ltype.LSubmessage? {
      TakeDelimitedPrefix(s, t);
    } else {
      ScalarPrefix(f, s, t, base);
    }
  }

  lemma {:induction false} ElementsPrefix(f: Field, wire: nat, s: seq<byte>, t: seq<byte>, count: nat,
                                          cells: seq<Value>)
    requires DecodeElements(f, wire, s, count, cells).Good?
    ensures DecodeElements(f, wire, s + t, count, cells)
         == DecodeElements(f, wire, s, count, cells).(rest := DecodeElements(f, wire, s, count, cells).rest + t)
  {
    hide TakeDelimited, DecodeValue, DecodePackedData;
    if wire == 2 && Packable(f.ltype) {
      TakeDelimitedPrefix(s, t);
    } else {
      ValuePrefix(f, s, t, cells[0]);
    }
  }

  lemma {:induction false} FieldPrefix(f: Field, wire: nat, s: seq<byte>, t: seq<byte>, slot: Slot, fixedCount: nat)
    requires DecodeField(f, wire, s, slot, fixedCount).Good?
    ensures DecodeField(f, wire, s + t, slot, fixedCount)
         == DecodeField(f, wire, s, slot, fixedCount).(rest := DecodeField(f, wire, s, slot, fixedCount).rest + t)
  {
    hide DecodeValue, DecodeElements;
    match f.htype
    case Required => ValuePrefix(f, s, t, slot.v);
    case Optional => ValuePrefix(f, s, t, if HasSizeField(f) then slot.ov else slot.v);
    case Repeated => ElementsPrefix(f, wire, s, t, CountOf(f, slot, fixedCount), CellsFrom(f, slot, fixedCount));
    case Oneof => ValuePrefix(f, s, t, MemberBase(f));
  }

  lemma {:induction false} TaggedPrefix(fields: seq<Field>, tag: nat, wire: nat, s: seq<byte>, t: seq<byte>, st: State)
    requires StateFor(fields, st) && DecodeTagged(fields, tag, wire, s, st).Good?
    ensures DecodeTagged(fields, tag, wire, s + t, st)
         == DecodeTagged(fields, tag, wire, s, st).(rest := DecodeTagged(fields, tag, wire, s, st).rest + t)
  {
    hide DecodeField, SkipField, DecVarint32, FindField, EnterField, StoreField;
    match FindField(fields, tag)
    case Some(i) =>
      SlotInRange(fields, i);
      var st1 := EnterField(fields, i, st).value;
      FieldPrefix(fields[i], wire, s, t, st1.m[SlotIdx(fields, i)], st1.fixedCount);
    case None =>
      if fields == [] && tag == 0 { DecVarint32Prefix(s, t); } else { SkipFieldPrefix(wire, s, t); }
  }

  lemma {:induction false} TurnPrefix(fields: seq<Field>, s: seq<byte>, t: seq<byte>, st: State)
    requires StateFor(fields, st) && DecodeTurn(fields, s, st).Next?
    ensures DecodeTurn(fields, s + t, st)
         == Next(DecodeTurn(fields, s, st).st, DecodeTurn(fields, s, st).rest + t)
  {
    hide DecodeTagged, DecVarint32;
    DecVarint32Prefix(s, t);
    var key, s1 := DecVarint32(s).value, DecVarint32(s).rest;
    TaggedPrefix(fields, key / 8, key % 8, s1, t, st);
  }

  /** Decoding `a + b` is decoding `a`, then `b` from the state reached, when `a` ends at a
      field boundary. */
  lemma {:induction false} LoopConcat(fields: seq<Field>, a: seq<byte>, b: seq<byte>, st: State)
    requires StateFor(fields, st)
    requires DecodeLoop(fields, a, st).LoopDone? && !DecodeLoop(fields, a, st).stopped
    ensures DecodeLoop(fields, a + b, st) == DecodeLoop(fields, b, DecodeLoop(fields, a, st).st)
    decreases |a|
  {
    hide DecodeTurn;
    if a == [] {
      assert a + b == b;
    } else {
      TurnPrefix(fields, a, b, st);
      var n := DecodeTurn(fields, a, st);
      assert a + b != [];
      LoopConcat(fields, n.rest, b, n.st);
    }
  }

  // ---------- the merge law ----------

  /** The loop reads all of `s`, without meeting a zero key at top level. */
  predicate ReadsAll(fields: seq<Field>, s: seq<byte>, m: seq<Slot>)
    requires |m| == NumSlots(fields)
  {
    var r := DecodeLoop(fields, s, InitialState(m));
    r.LoopDone? && !r.stopped
  }

  predicate NoCrossFieldState(fields: seq<Field>) {
    forall i | 0 <= i < |fields| :: !fields[i].htype.Required? && !IsFixedCount(fields[i])
  }

  /** Without required and fixed-count fields the loop's other locals never change. */
  lemma {:induction false} LoopKeepsLocals(fields: seq<Field>, s: seq<byte>, st: State)
    requires NoCrossFieldState(fields) && StateFor(fields, st)
    requires DecodeLoop(fields, s, st).LoopDone?
    ensures DecodeLoop(fields, s, st).st == st.(m := DecodeLoop(fields, s, st).st.m)
    decreases |s|
  {
    hide DecodeTurn;
    if s != [] && DecodeTurn(fields, s, st).Next? {
      TurnKeepsLocals(fields, s, st);
      LoopKeepsLocals(fields, DecodeTurn(fields, s, st).rest, DecodeTurn(fields, s, st).st);
    }
  }

  lemma {:induction false} KnownKeepsLocals(fields: seq<Field>, i: nat, wire: nat, s: seq<byte>, st: State)
    requires StateFor(fields, st) && i < |fields|
    requires !fields[i].htype.Required? && !IsFixedCount(fields[i])
    requires DecodeKnown(fields, i, wire, s, st).Good?
    ensures var r := DecodeKnown(fields, i, wire, s, st).value;
            r == st.(m := r.m)
  {
    hide DecodeField;
    assert EnterField(fields, i, st) == Some(st);
  }

  lemma {:induction false} TurnKeepsLocals(fields: seq<Field>, s: seq<byte>, st: State)
    requires NoCrossFieldState(fields) && StateFor(fields, st)
    requires DecodeTurn(fields, s, st).Next?
    ensures DecodeTurn(fields, s, st).st == st.(m := DecodeTurn(fields, s, st).st.m)
  {
    hide DecodeKnown, SkipField, DecVarint32, FindField;
    var key, s1 := DecVarint32(s).value, DecVarint32(s).rest;
    match FindField(fields, key / 8)
    case Some(i) =>
      assert !fields[i].htype.Required? && !IsFixedCount(fields[i]);
      KnownKeepsLocals(fields, i, key % 8, s1, st);
    case None =>
  }

  lemma {:induction false} NoRequiredBefore(fields: seq<Field>, i: nat)
    requires NoCrossFieldState(fields) && i <= |fields|
    ensures RequiredBefore(fields, i) == 0
  {
    if i > 0 { NoRequiredBefore(fields, i - 1); }
  }

  /** Merge law: for a table without required and fixed-count fields, decoding `b1 + b2`
      into a struct is decoding `b1` into it and then `b2` into the result, in success
      and in failure. */
  lemma {:induction false} MergeLaw(fields: seq<Field>, b1: seq<byte>, b2: seq<byte>, m: seq<Slot>)
    requires NoCrossFieldState(fields) && |m| == NumSlots(fields)
    requires ReadsAll(fields, b1, m)
    ensures DecodeNoInit(fields, b1, m).Good?
    ensures DecodeNoInit(fields, b1 + b2, m)
         == DecodeNoInit(fields, b2, DecodeNoInit(fields, b1, m).value)
  {
    hide DecodeTurn;
    var st := InitialState(m);
    LoopConcat(fields, b1, b2, st);
    LoopKeepsLocals(fields, b1, st);
    NoRequiredBefore(fields, |fields|);
    var m1 := DecodeLoop(fields, b1, st).st.m;
    assert DecodeLoop(fields, b1, st).st == InitialState(m1);
  }

  // ---------- unknown fields ----------

  /** `u` is one field: a key of `k` bytes with a field number of at least 1 that the table does not
      have, and a payload of the wire type in the key. */
  ghost predicate UnknownAt(fields: seq<Field>, u: seq<byte>, k: nat) {
    k <= |u| && IsNumber(u[..k], Number(u[..k]))
    && var key := Number(u[..k]);
       key / 8 >= 1
       && (forall i :: 0 <= i < |fields| ==> fields[i].tag != key / 8)
       && IsPayload(key % 8, u[k..])
  }

  ghost predicate UnknownField(fields: seq<Field>, u: seq<byte>) {
    exists k: nat :: UnknownAt(fields, u, k)
  }

  /** A sequence of unknown fields. */
  ghost predicate UnknownFields(fields: seq<Field>, us: seq<seq<byte>>) {
    forall k | 0 <= k < |us| :: UnknownField(fields, us[k])
  }

  function Concat(us: seq<seq<byte>>): seq<byte> {
    if us == [] then [] else us[0] + Concat(us[1..])
  }

  /** Skipping consumes exactly the unknown field. */
  lemma {:induction false} UnknownFieldSkipped(fields: seq<Field>, u: seq<byte>, b: seq<byte>, st: State)
    requires StateFor(fields, st) && UnknownField(fields, u)
    ensures DecodeLoop(fields, u + b, st) == DecodeLoop(fields, b, st)
  {
    hide DecVarint32, SkipField, DecodeField, DecodeKnown, IsNumber, IsPayload, Number;
    var k: nat :| UnknownAt(fields, u, k);
    var q, p, key := u[..k], u[k..], Number(u[..k]);
    assert u + b == q + (p + b);
    NumberRead(q, key, p + b);
    PayloadSkipped(key % 8, p, b);
    assert FindField(fields, key / 8).None?;
    assert DecodeTagged(fields, key / 8, key % 8, p + b, st) == Good(st, b);
    assert u + b != [] by { assert |q| > 0 by { NumberLength(q, key); } }
    assert DecodeTurn(fields, u + b, st) == Next(st, b);
  }

  lemma {:induction false} NumberLength(q: seq<byte>, n: nat)
    requires IsNumber(q, n)
    ensures |q| >= 1
  {
  }

  /** A zero key ends the message. */
  lemma {:induction false} ZeroKeyStops(fields: seq<Field>, rest: seq<byte>, st: State)
    requires StateFor(fields, st)
    ensures DecodeLoop(fields, [0] + rest, st) == LoopDone(st, rest, true)
  {
    assert ([0] + rest)[1..] == rest;
    assert DecodeTurn(fields, [0] + rest, st) == Stopped(rest);
  }

  lemma {:induction false} UnknownFieldsSkipped(fields: seq<Field>, us: seq<seq<byte>>, b: seq<byte>, st: State)
    requires StateFor(fields, st) && UnknownFields(fields, us)
    ensures DecodeLoop(fields, Concat(us) + b, st) == DecodeLoop(fields, b, st)
    decreases us
  {
    hide DecodeLoop, UnknownField;
    if us == [] {
      assert Concat(us) + b == b;
    } else {
      var t := Concat(us[1..]) + b;
      assert Concat(us) + b == us[0] + t;
      UnknownFieldSkipped(fields, us[0], t, st);
      UnknownFieldsSkipped(fields, us[1..], b, st);
    }
  }

  /** The pieces with a run of unknown fields after each of them. */
  function Weave(pieces: seq<seq<byte>>, runs: seq<seq<seq<byte>>>): seq<byte>
    requires |pieces| == |runs|
  {
    if pieces == [] then [] else pieces[0] + (Concat(runs[0]) + Weave(pieces[1..], runs[1..]))
  }

  /** Every piece, read from where the one before it left off, ends at a field boundary. */
  predicate PiecesRead(fields: seq<Field>, pieces: seq<seq<byte>>, st: State)
    requires StateFor(fields, st)
  {
    pieces == []
    || (var r := DecodeLoop(fields, pieces[0], st);
        r.LoopDone? && !r.stopped && PiecesRead(fields, pieces[1..], r.st))
  }

  lemma {:induction false} WeaveLoop(fields: seq<Field>, pieces: seq<seq<byte>>, runs: seq<seq<seq<byte>>>,
                                     tail: seq<byte>, st: State)
    requires StateFor(fields, st) && |pieces| == |runs| && PiecesRead(fields, pieces, st)
    requires forall k :: 0 <= k < |runs| ==> UnknownFields(fields, runs[k])
    ensures DecodeLoop(fields, Weave(pieces, runs) + tail, st) == DecodeLoop(fields, Concat(pieces) + tail, st)
    decreases pieces
  {
    hide DecodeLoop, UnknownFields;
    if pieces != [] {
      var woven := Weave(pieces[1..], runs[1..]) + tail;
      var plain := Concat(pieces[1..]) + tail;
      var st1 := DecodeLoop(fields, pieces[0], st).st;
      assert Weave(pieces, runs) + tail == pieces[0] + (Concat(runs[0]) + woven);
      assert Concat(pieces) + tail == pieces[0] + plain;
      LoopConcat(fields, pieces[0], Concat(runs[0]) + woven, st);
      LoopConcat(fields, pieces[0], plain, st);
      UnknownFieldsSkipped(fields, runs[0], woven, st1);
      WeaveLoop(fields, pieces[1..], runs[1..], tail, st1);
    }
  }

  /** Unknown fields do not matter: put any number of them at any field boundaries of an
      input, and it decodes, or fails to decode, to the same struct. */
  lemma {:induction false} UnknownFieldsIgnored(fields: seq<Field>, pieces: seq<seq<byte>>, runs: seq<seq<seq<byte>>>,
                             tail: seq<byte>, m: seq<Slot>)
    requires |m| == NumSlots(fields) && |pieces| == |runs|
    requires PiecesRead(fields, pieces, InitialState(m))
    requires forall k :: 0 <= k < |runs| ==> UnknownFields(fields, runs[k])
    ensures DecodeNoInit(fields, Weave(pieces, runs) + tail, m)
         == DecodeNoInit(fields, Concat(pieces) + tail, m)
  {
    hide DecodeLoop, UnknownFields;
    WeaveLoop(fields, pieces, runs, tail, InitialState(m));
  }

  // ---------- tag 0 ----------

  /** Tag 0 is no field of any valid table, but in the table of an empty message it finds the
      terminator. So one and the same input, a 32-bit field with tag 0 and a payload of one byte, is
      accepted for the empty message, and for no other. */
  lemma {:induction false} ZeroTagShows(fields: seq<Field>, m: seq<Slot>)
    requires ValidSchema(fields) && |m| == NumSlots(fields)
    ensures DecodeNoInit(fields, [5, 1], m).Good? <==> fields == []
    ensures fields == [] ==> DecodeNoInit(fields, [5, 1], m) == Good([], [])
  {
  }
}

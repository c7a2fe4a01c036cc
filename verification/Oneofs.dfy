/** A member of a oneof replaces what its union held, also when that is a submessage of the same
    field, while an optional submessage is merged. */
module Oneofs {
  import opened Bytes
  import opened Schema
  import opened Varint
  import opened EncodeSpec
  import opened DecodeSpec
  import opened DecodeLaws
  import opened Occurrences
  import opened RoundTrip

  /** The state with slot `n` replaced. */
  function With(st: State, n: nat, x: Slot): (r: State)
    requires n < |st.m|
    ensures |r.m| == |st.m|
  {
    st.(m := st.m[n := x])
  }

  /** What a oneof member decodes to does not depend on what its union holds. */
  lemma {:induction false} MemberKnown(fields: seq<Field>, i: nat, wire: nat, p: seq<byte>, st: State)
    requires i < |fields| && fields[i].htype.Oneof? && StateFor(fields, st)
    requires SlotIdx(fields, i) < |st.m| && st.m[SlotIdx(fields, i)].Union?
    ensures var r := DecodeValue(fields[i], p, MemberBase(fields[i]));
            DecodeKnown(fields, i, wire, p, st)
            == if r.Bad? then Bad
               else Good(With(st, SlotIdx(fields, i), Union(fields[i].tag, r.value)), r.rest)
  {
    hide DecodeValue, MemberBase, SlotIdx;
    assert EnterField(fields, i, st) == Some(st);
  }

  // ---------- fields of other slots ----------

  /** No field that is met has slot `n`. */
  ghost predicate Apart(fields: seq<Field>, s: seq<byte>, st: State, n: nat)
    requires StateFor(fields, st)
  {
    forall k :: 0 <= k < |Trace(fields, s, st)| ==> SlotIdx(fields, Trace(fields, s, st)[k].field) != n
  }

  lemma {:induction false} KnownApart(fields: seq<Field>, i: nat, wire: nat, s: seq<byte>, st: State, n: nat, x: Slot)
    requires i < |fields| && StateFor(fields, st) && n < |st.m| && SlotIdx(fields, i) != n
    requires DecodeKnown(fields, i, wire, s, st).Good?
    ensures var r := DecodeKnown(fields, i, wire, s, st);
            n < |r.value.m| && r.value.m[n] == st.m[n]
            && DecodeKnown(fields, i, wire, s, With(st, n, x)) == Good(With(r.value, n, x), r.rest)
  {
    hide DecodeField, SlotIdx, RequiredBefore;
    SlotInRange(fields, i);
    var r := DecodeKnown(fields, i, wire, s, st);
    KnownParts(fields, i, wire, s, st);
    var t := DecodeField(fields[i], wire, s, st.m[SlotIdx(fields, i)], EnterField(fields, i, st).value.fixedCount);
    assert st.m[n := x][SlotIdx(fields, i) := t.value.0] == st.m[SlotIdx(fields, i) := t.value.0][n := x];
  }

  lemma {:induction false} TurnApart(fields: seq<Field>, s: seq<byte>, st: State, n: nat, x: Slot)
    requires StateFor(fields, st) && n < |st.m| && DecodeTurn(fields, s, st).Next?
    requires TurnEvent(fields, s, st).Some? ==> SlotIdx(fields, TurnEvent(fields, s, st).value.field) != n
    ensures var r := DecodeTurn(fields, s, st);
            n < |r.st.m| && r.st.m[n] == st.m[n]
            && DecodeTurn(fields, s, With(st, n, x)) == Next(With(r.st, n, x), r.rest)
  {
    hide DecodeKnown, DecodeField, DecVarint32, FindField, SkipField, SlotIdx, EnterField;
    TurnParts(fields, s, st);
    var key, s1 := DecVarint32(s).value, DecVarint32(s).rest;
    match FindField(fields, key / 8)
    case None =>
    case Some(i) =>
      KnownParts(fields, i, key % 8, s1, st);
      KnownApart(fields, i, key % 8, s1, st, n, x);
  }

  /** Fields of other slots neither change slot `n` nor depend on it. */
  lemma {:induction false} LoopApart(fields: seq<Field>, s: seq<byte>, st: State, n: nat, x: Slot)
    requires StateFor(fields, st) && n < |st.m| && Apart(fields, s, st, n) && DecodeLoop(fields, s, st).LoopDone?
    ensures var r := DecodeLoop(fields, s, st);
            n < |r.st.m| && r.st.m[n] == st.m[n]
            && DecodeLoop(fields, s, With(st, n, x)) == r.(st := With(r.st, n, x))
    decreases |s|
  {
    hide DecodeTurn, SlotIdx, TurnEvent;
    if s != [] {
      var t := DecodeTurn(fields, s, st);
      if t.Next? {
        var e, more := TurnEvent(fields, s, st), Trace(fields, t.rest, t.st);
        assert Trace(fields, s, st) == (match e case None => [] case Some(e) => [e]) + more;
        if e.Some? { assert Trace(fields, s, st)[0] == e.value; }
        forall k | 0 <= k < |more| ensures SlotIdx(fields, more[k].field) != n {
          assert more[k] == Trace(fields, s, st)[if e.Some? then k + 1 else k];
        }
        TurnApart(fields, s, st, n, x);
        LoopApart(fields, t.rest, t.st, n, x);
      } else {
        StoppedApart(fields, s, st, With(st, n, x));
      }
    }
  }

  lemma {:induction false} StoppedApart(fields: seq<Field>, s: seq<byte>, st: State, st': State)
    requires StateFor(fields, st) && StateFor(fields, st') && DecodeTurn(fields, s, st).Stopped?
    ensures DecodeTurn(fields, s, st') == DecodeTurn(fields, s, st)
  {
    hide DecodeTagged, DecVarint32;
  }

  // ---------- the law ----------

  /** Replacement: an occurrence of a oneof member that is followed by one of a member of the same
      union, be it the same or another, might as well not be there, whatever other fields are between
      them. This holds for all payloads, in success and in failure of the second. */
  lemma {:induction false} LastMemberWins(fields: seq<Field>, i: nat, wire: nat, p: seq<byte>, between: seq<byte>,
                                          j: nat, wire': nat, rest: seq<byte>, st: State)
    requires ValidSchema(fields) && i < |fields| && j < |fields| && wire < 8 && wire' < 8
    requires fields[i].htype.Oneof? && fields[j].htype.Oneof? && SlotIdx(fields, i) == SlotIdx(fields, j)
    requires StateFor(fields, st) && SlotIdx(fields, i) < |st.m| && st.m[SlotIdx(fields, i)].Union?
    requires var r := DecodeValue(fields[i], p, MemberBase(fields[i])); r.Good? && r.rest == []
    requires Apart(fields, between, st, SlotIdx(fields, i))
    requires var r := DecodeLoop(fields, between, st); r.LoopDone? && !r.stopped
    ensures var second := between + (EncTag(fields[j].tag, wire') + rest);
            DecodeLoop(fields, EncTag(fields[i].tag, wire) + p + second, st) == DecodeLoop(fields, second, st)
  {
    hide DecodeValue, MemberBase, SlotIdx, DecodeLoop, EncTag, DecodeKnown, Apart;
    var occurrence := EncTag(fields[j].tag, wire') + rest;
    var second := between + occurrence;
    var v := DecodeValue(fields[i], p, MemberBase(fields[i])).value;
    MemberTurn(fields, i, wire, p, second, st);
    assert EncTag(fields[i].tag, wire) + p + second == EncTag(fields[i].tag, wire) + (p + second);
    var n, first := SlotIdx(fields, i), Union(fields[i].tag, v);
    LoopApart(fields, between, st, n, first);
    LoopConcat(fields, between, occurrence, st);
    LoopConcat(fields, between, occurrence, With(st, n, first));
    LastMember(fields, j, wire', rest, DecodeLoop(fields, between, st).st, first);
  }

  /** The turn on an occurrence of a member. */
  lemma {:induction false} MemberTurn(fields: seq<Field>, i: nat, wire: nat, p: seq<byte>, more: seq<byte>, st: State)
    requires ValidSchema(fields) && i < |fields| && wire < 8 && fields[i].htype.Oneof? && StateFor(fields, st)
    requires SlotIdx(fields, i) < |st.m| && st.m[SlotIdx(fields, i)].Union?
    requires var r := DecodeValue(fields[i], p, MemberBase(fields[i])); r.Good? && r.rest == []
    ensures DecodeLoop(fields, EncTag(fields[i].tag, wire) + (p + more), st)
         == DecodeLoop(fields, more, With(st, SlotIdx(fields, i),
                                          Union(fields[i].tag, DecodeValue(fields[i], p, MemberBase(fields[i])).value)))
  {
    hide DecodeValue, MemberBase, SlotIdx, DecodeLoop, EncTag, DecodeKnown;
    ValuePrefix(fields[i], p, more, MemberBase(fields[i]));
    assert [] + more == more;
    MemberKnown(fields, i, wire, p + more, st);
    KnownTurn(fields, i, wire, p + more, st);
  }

  /** An occurrence of a member does not depend on what its union holds. */
  lemma {:induction false} LastMember(fields: seq<Field>, j: nat, wire: nat, rest: seq<byte>, st: State, x: Slot)
    requires ValidSchema(fields) && j < |fields| && wire < 8 && fields[j].htype.Oneof? && StateFor(fields, st)
    requires SlotIdx(fields, j) < |st.m| && st.m[SlotIdx(fields, j)].Union? && x.Union?
    ensures var s := EncTag(fields[j].tag, wire) + rest;
            DecodeLoop(fields, s, With(st, SlotIdx(fields, j), x)) == DecodeLoop(fields, s, st)
  {
    hide DecodeValue, MemberBase, SlotIdx, DecodeLoop, EncTag, DecodeKnown;
    var n := SlotIdx(fields, j);
    var st1 := With(st, n, x);
    MemberKnown(fields, j, wire, rest, st);
    MemberKnown(fields, j, wire, rest, st1);
    var r := DecodeValue(fields[j], rest, MemberBase(fields[j]));
    if r.Good? {
      assert st.m[n := x][n := Union(fields[j].tag, r.value)] == st.m[n := Union(fields[j].tag, r.value)];
      KnownTurn(fields, j, wire, rest, st);
      KnownTurn(fields, j, wire, rest, st1);
    } else {
      KnownFails(fields, j, wire, rest, st);
      KnownFails(fields, j, wire, rest, st1);
    }
  }

  /** Whatever is decoded before it, and whatever other fields after it, a union holds the member that
      occurred last, decoded alone. */
  lemma {:induction false} HoldsLastMember(fields: seq<Field>, before: seq<byte>, i: nat, wire: nat, p: seq<byte>,
                                           after: seq<byte>, st: State)
    requires ValidSchema(fields) && i < |fields| && wire < 8 && fields[i].htype.Oneof? && StateFor(fields, st)
    requires var r := DecodeLoop(fields, before, st);
             r.LoopDone? && !r.stopped && SlotIdx(fields, i) < |r.st.m| && r.st.m[SlotIdx(fields, i)].Union?
             && Apart(fields, after, r.st, SlotIdx(fields, i))
    requires var r := DecodeValue(fields[i], p, MemberBase(fields[i])); r.Good? && r.rest == []
    requires DecodeLoop(fields, after, DecodeLoop(fields, before, st).st).LoopDone?
    ensures var r := DecodeLoop(fields, before + (EncTag(fields[i].tag, wire) + (p + after)), st);
            r.LoopDone? && SlotIdx(fields, i) < |r.st.m|
            && r.st.m[SlotIdx(fields, i)]
               == Union(fields[i].tag, DecodeValue(fields[i], p, MemberBase(fields[i])).value)
  {
    hide DecodeValue, MemberBase, SlotIdx, DecodeLoop, EncTag, Apart;
    var st1 := DecodeLoop(fields, before, st).st;
    var v := DecodeValue(fields[i], p, MemberBase(fields[i])).value;
    LoopConcat(fields, before, EncTag(fields[i].tag, wire) + (p + after), st);
    MemberTurn(fields, i, wire, p, after, st1);
    LoopApart(fields, after, st1, SlotIdx(fields, i), Union(fields[i].tag, v));
  }

  // ---------- an optional submessage is merged instead ----------

  const FIRST := Field(1, LBool, Optional, 1, -1, 1, 0, [], None)
  const SECOND := Field(2, LBool, Optional, 1, -1, 1, 0, [], None)
  const PAIR := [FIRST, SECOND]
  const CHOSEN := Field(1, LSubmessage, Oneof, 4, -4, 4, 0, PAIR, None)
  const MERGED := Field(1, LSubmessage, Optional, 1, -1, 4, 0, PAIR, None)

  lemma {:induction false} PairShape()
    ensures ValidSchema(PAIR) && NumSlots(PAIR) == 2 && SlotIdx(PAIR, 0) == 0 && SlotIdx(PAIR, 1) == 1
    ensures InitDefault(PAIR) == [Opt(false, VBool(false)), Opt(false, VBool(false))]
    ensures RequiredBefore(PAIR, 2) == 0
  {
    assert SlotIdx(PAIR, 0) == 0 && SlotIdx(PAIR, 1) == 1;
    assert ValidField(FIRST) && ValidField(SECOND);
    ZeroMsgAt(PAIR, 0);
    ZeroMsgAt(PAIR, 1);
    DefaultsAt(PAIR, ZeroMsg(PAIR), 0);
    DefaultsAt(PAIR, ZeroMsg(PAIR), 1);
    assert RequiredBefore(PAIR, 1) == 0;
  }

  /** A payload that sets one of the two bools. */
  function Sets(i: nat): seq<byte>
    requires i < 2
  {
    if i == 0 then [8, 1] else [16, 1]
  }

  lemma {:induction false} PairDecodes(i: nat, m: seq<Slot>)
    requires i < 2 && |m| == 2 && m[0].Opt? && m[1].Opt?
    ensures DecodeNoInit(PAIR, Sets(i), m) == Good(m[i := Opt(true, VBool(true))], [])
  {
    hide DecodeLoop, EncVarint, DecVarint32;
    PairShape();
    SmallKeys();
    Varint32RoundTrip(1, []);
    assert EncVarint(1) + [] == [1];
    assert DecodeValue(PAIR[i], [1], m[i].ov) == Good(VBool(true), []);
    SingularTurn(PAIR, i, [1], VBool(true), InitialState(m), []);
    assert Sets(i) == EncTag(PAIR[i].tag, 0) + [1];
    LoopEnds(PAIR, InitialState(m[i := Opt(true, VBool(true))]));
  }

  lemma {:induction false} SmallKeys()
    ensures EncTag(1, 0) == [8] && EncTag(2, 0) == [16] && EncTag(1, 2) == [10]
    ensures EncVarint(1) == [1] && EncVarint(2) == [2]
  {
  }

  lemma {:induction false} PairValue(f: Field, i: nat, m: seq<Slot>, rest: seq<byte>)
    requires f == CHOSEN || f == MERGED
    requires i < 2 && |m| == 2 && m[0].Opt? && m[1].Opt?
    ensures DecodeValue(f, [2] + Sets(i) + rest, VMsg(m)) == Good(VMsg(m[i := Opt(true, VBool(true))]), rest)
  {
    hide DecodeNoInit, TakeDelimited, EncVarint;
    SmallKeys();
    TakeDelimitedRoundTrip(Sets(i), rest);
    PairDecodes(i, m);
  }

  lemma {:induction false} OneField(f: Field)
    requires f == CHOSEN || f == MERGED
    ensures ValidSchema([f]) && SlotIdx([f], 0) == 0 && NumSlots([f]) == 1 && RequiredBefore([f], 1) == 0
  {
    PairShape();
    assert ValidField(f) && RequiredBefore([f], 0) == 0;
  }

  /** Two occurrences, each with one of the bools. */
  const TWICE: seq<byte> := [10, 2, 8, 1, 10, 2, 16, 1]

  /** The same two occurrences of a submessage: as a oneof member only the second counts, as an
      optional field they are merged. */
  lemma {:induction false} OneofNotMerged()
    ensures var no, yes := Opt(false, VBool(false)), Opt(true, VBool(true));
            DecodeNoInit([CHOSEN], TWICE, [UNSET]) == Good([Union(1, VMsg([no, yes]))], [])
            && DecodeNoInit([MERGED], TWICE, [Opt(false, VMsg([no, no]))]) == Good([Opt(true, VMsg([yes, yes]))], [])
  {
    ChosenTwice();
    MergedTwice();
  }

  lemma {:induction false} ChosenTwice()
    ensures var no, yes := Opt(false, VBool(false)), Opt(true, VBool(true));
            DecodeNoInit([CHOSEN], TWICE, [UNSET]) == Good([Union(1, VMsg([no, yes]))], [])
  {
    hide DecodeValue, DecodeLoop, EncTag, ValidSchema, InitDefault;
    var no, yes := Opt(false, VBool(false)), Opt(true, VBool(true));
    var fields, st, first, second := [CHOSEN], InitialState([UNSET]), [2] + Sets(0), [2] + Sets(1);
    OneField(CHOSEN);
    PairShape();
    SmallKeys();
    PairValue(CHOSEN, 0, [no, no], []);
    PairValue(CHOSEN, 1, [no, no], []);
    assert first + [] == first && second + [] == second;
    assert [no, no][1 := yes] == [no, yes];
    LoopEnds(fields, st);
    assert [] + (EncTag(1, 2) + second) == EncTag(1, 2) + second;
    LastMemberWins(fields, 0, 2, first, [], 0, 2, second, st);
    assert TWICE == EncTag(1, 2) + first + (EncTag(1, 2) + second);
    SingularTurn(fields, 0, second, VMsg([no, yes]), st, []);
    LoopEnds(fields, InitialState([Union(1, VMsg([no, yes]))]));
    assert [UNSET][0 := Union(1, VMsg([no, yes]))] == [Union(1, VMsg([no, yes]))];
  }

  lemma {:induction false} MergedTwice()
    ensures var no, yes := Opt(false, VBool(false)), Opt(true, VBool(true));
            DecodeNoInit([MERGED], TWICE, [Opt(false, VMsg([no, no]))]) == Good([Opt(true, VMsg([yes, yes]))], [])
  {
    hide DecodeValue, DecodeLoop, EncTag, ValidSchema;
    var no, yes := Opt(false, VBool(false)), Opt(true, VBool(true));
    var fields, first, second := [MERGED], [2] + Sets(0), [2] + Sets(1);
    var st, st1 := InitialState([Opt(false, VMsg([no, no]))]), InitialState([Opt(true, VMsg([yes, no]))]);
    OneField(MERGED);
    SmallKeys();
    PairValue(MERGED, 0, [no, no], EncTag(1, 2) + second);
    PairValue(MERGED, 1, [yes, no], []);
    assert [no, no][0 := yes] == [yes, no] && [yes, no][1 := yes] == [yes, yes] && second + [] == second;
    SingularTurn(fields, 0, first + (EncTag(1, 2) + second), VMsg([yes, no]), st, EncTag(1, 2) + second);
    SingularTurn(fields, 0, second, VMsg([yes, yes]), st1, []);
    assert TWICE == EncTag(1, 2) + (first + (EncTag(1, 2) + second));
    assert st.m[0 := Opt(true, VMsg([yes, no]))] == st1.m;
    assert st1.m[0 := Opt(true, VMsg([yes, yes]))] == [Opt(true, VMsg([yes, yes]))];
    LoopEnds(fields, InitialState([Opt(true, VMsg([yes, yes]))]));
  }
}

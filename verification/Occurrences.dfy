/** What the checks at the end of `pb_decode_noinit` say about the fields that occurred. */
module Occurrences {
  import opened Bytes
  import opened Schema
  import opened Varint
  import opened DecodeSpec
  import opened RoundTrip

  /** A known field met at top level, and how many elements it delivered. */
  datatype Event = Event(field: nat, delivered: nat)

  /** What the known field of a turn delivers, if the turn is on a known field. */
  function TurnEvent(fields: seq<Field>, s: seq<byte>, st: State): (e: Option<Event>)
    requires StateFor(fields, st)
    ensures e.Some? ==> e.value.field < |fields|
  {
    match DecVarint32(s)
    case Bad => None
    case Good(key, s1) =>
      match FindField(fields, key / 8)
      case None => None
      case Some(i) =>
        match EnterField(fields, i, st)
        case None => None
        case Some(st1) =>
          SlotInRange(fields, i);
          match DecodeField(fields[i], key % 8, s1, st1.m[SlotIdx(fields, i)], st1.fixedCount)
          case Bad => None
          case Good((_, n), _) => Some(Event(i, n))
  }

  /** The known fields met by the loop, in order. */
  function Trace(fields: seq<Field>, s: seq<byte>, st: State): (t: seq<Event>)
    requires StateFor(fields, st)
    ensures forall k :: 0 <= k < |t| ==> t[k].field < |fields|
    decreases |s|
  {
    if s == [] then []
    else
      match DecodeTurn(fields, s, st)
      case Next(st', rest) =>
        (match TurnEvent(fields, s, st) case None => [] case Some(e) => [e]) + Trace(fields, rest, st')
      case _ => []
  }

  /** The effect of an event on the loop's bookkeeping. */
  lemma {:induction false} TurnEffect(fields: seq<Field>, s: seq<byte>, st: State)
    requires StateFor(fields, st) && DecodeTurn(fields, s, st).Next?
    ensures var st' := DecodeTurn(fields, s, st).st;
            match TurnEvent(fields, s, st)
            case None => st' == st
            case Some(e) =>
              EnterField(fields, e.field, st).Some?
              && var st1 := EnterField(fields, e.field, st).value;
                 st'.seen == st1.seen && st'.fixed == st1.fixed
                 && st'.fixedCount == st1.fixedCount + if IsFixedCount(fields[e.field]) then e.delivered else 0
  {
    hide DecodeTurn, DecodeKnown, DecodeField, DecVarint32, FindField, EnterField;
    TurnParts(fields, s, st);
    match FindField(fields, DecVarint32(s).value / 8)
    case None =>
    case Some(i) => KnownParts(fields, i, DecVarint32(s).value % 8, DecVarint32(s).rest, st);
  }

  // ---------- required fields ----------

  ghost predicate Occurs(t: seq<Event>, i: nat) {
    exists k :: 0 <= k < |t| && t[k].field == i
  }

  /** Some event is on the required field with index `r`. */
  ghost predicate OccursIndex(fields: seq<Field>, t: seq<Event>, r: nat) {
    exists k :: 0 <= k < |t| && HasIndex(fields, t[k], r)
  }

  predicate HasIndex(fields: seq<Field>, e: Event, r: nat) {
    e.field < |fields| && fields[e.field].htype.Required? && RequiredBefore(fields, e.field) == r
  }

  lemma {:induction false} OccursIndexCons(fields: seq<Field>, e: Event, t: seq<Event>, r: nat)
    ensures OccursIndex(fields, [e] + t, r) <==> HasIndex(fields, e, r) || OccursIndex(fields, t, r)
  {
    hide HasIndex;
    var et := [e] + t;
    assert et[0] == e;
    assert forall k :: 0 <= k < |t| ==> et[k + 1] == t[k];
    assert forall k :: 0 < k < |et| ==> et[k] == t[k - 1];
  }

  lemma {:induction false} SeenIffOccurs(fields: seq<Field>, s: seq<byte>, st: State, r: nat)
    requires StateFor(fields, st) && DecodeLoop(fields, s, st).LoopDone? && r < MAX_REQUIRED_FIELDS
    ensures r in DecodeLoop(fields, s, st).st.seen
       <==> r in st.seen || OccursIndex(fields, Trace(fields, s, st), r)
    decreases |s|
  {
    hide DecodeTurn, TurnEvent, RequiredBefore, OccursIndex;
    if s != [] && DecodeTurn(fields, s, st).Next? {
      var n := DecodeTurn(fields, s, st);
      TurnEffect(fields, s, st);
      SeenIffOccurs(fields, n.rest, n.st, r);
      var tail := Trace(fields, n.rest, n.st);
      match TurnEvent(fields, s, st)
      case None => assert [] + tail == tail;
      case Some(e) => OccursIndexCons(fields, e, tail, r);
    } else {
      NothingOccurs(fields, r);
    }
  }

  lemma {:induction false} NothingOccurs(fields: seq<Field>, r: nat)
    ensures !OccursIndex(fields, [], r)
  {
  }

  /** The bitmap is exact: if all fields decode and the fixed-count runs are complete, the
      decode succeeds if and only if each of the first 64 required fields occurred. */
  lemma {:induction false} RequiredExact(fields: seq<Field>, s: seq<byte>, m: seq<Slot>)
    requires |m| == NumSlots(fields) && DecodeLoop(fields, s, InitialState(m)).LoopDone?
    requires RunComplete(fields, DecodeLoop(fields, s, InitialState(m)).st)
    ensures DecodeNoInit(fields, s, m).Good?
       <==> forall i :: 0 <= i < |fields| && fields[i].htype.Required?
                        && RequiredBefore(fields, i) < 64
                        ==> Occurs(Trace(fields, s, InitialState(m)), i)
  {
    hide DecodeLoop, RequiredBefore, Trace, Occurs;
    var st := InitialState(m);
    var t, seen := Trace(fields, s, st), DecodeLoop(fields, s, st).st.seen;
    forall i | 0 <= i < |fields| && fields[i].htype.Required? && RequiredBefore(fields, i) < MAX_REQUIRED_FIELDS
      ensures RequiredBefore(fields, i) < RequiredBefore(fields, |fields|)
      ensures RequiredBefore(fields, i) in seen <==> Occurs(t, i)
    {
      RequiredBeforeStrict(fields, i, |fields|);
      SeenIffOccurs(fields, s, st, RequiredBefore(fields, i));
      OccursByIndex(fields, t, i);
    }
    if DecodeNoInit(fields, s, m).Bad? {
      var r: nat :| r < RequiredBefore(fields, |fields|) && r < MAX_REQUIRED_FIELDS && r !in seen;
      var j := RequiredIndexOf(fields, r, |fields|);
      assert !Occurs(t, j);
    }
  }

  lemma {:induction false} OccursByIndex(fields: seq<Field>, t: seq<Event>, i: nat)
    requires i < |fields| && fields[i].htype.Required?
    requires forall k :: 0 <= k < |t| ==> t[k].field < |fields|
    ensures OccursIndex(fields, t, RequiredBefore(fields, i)) <==> Occurs(t, i)
  {
    hide RequiredBefore;
    if OccursIndex(fields, t, RequiredBefore(fields, i)) {
      var k :| 0 <= k < |t| && HasIndex(fields, t[k], RequiredBefore(fields, i));
      RequiredIndexUnique(fields, i, t[k].field);
    }
    if Occurs(t, i) {
      var k :| 0 <= k < |t| && t[k].field == i;
      assert HasIndex(fields, t[k], RequiredBefore(fields, i));
    }
  }

  lemma {:induction false} RequiredIndexUnique(fields: seq<Field>, i: nat, j: nat)
    requires i < |fields| && fields[i].htype.Required? && j < |fields| && fields[j].htype.Required?
    ensures RequiredBefore(fields, i) == RequiredBefore(fields, j) ==> i == j
  {
    if i < j {
      RequiredBeforeStrict(fields, i, j);
    } else if j < i {
      RequiredBeforeStrict(fields, j, i);
    }
  }

  // ---------- fixed-count runs ----------

  /** The events on fixed-count fields. */
  function FixedEvents(fields: seq<Field>, t: seq<Event>): (r: seq<Event>)
    requires forall k :: 0 <= k < |t| ==> t[k].field < |fields|
    ensures forall k :: 0 <= k < |r| ==> r[k].field < |fields|
  {
    if t == [] then []
    else (if IsFixedCount(fields[t[0].field]) then [t[0]] else []) + FixedEvents(fields, t[1..])
  }

  /** Events grouped into maximal runs of one field. */
  function Runs(t: seq<Event>): (r: seq<seq<Event>>)
    ensures t == [] <==> r == []
    ensures forall k :: 0 <= k < |r| ==> r[k] != []
    ensures r != [] ==> r[0][0].field == t[0].field
  {
    if t == [] then []
    else
      var rs: seq<seq<Event>> := Runs(t[1..]);
      if rs != [] && rs[0][0].field == t[0].field then [[t[0]] + rs[0]] + rs[1..]
      else [[t[0]]] + rs
  }

  function Flatten(rs: seq<seq<Event>>): seq<Event> {
    if rs == [] then [] else rs[0] + Flatten(rs[1..])
  }

  lemma {:induction false} RunsFlatten(t: seq<Event>)
    ensures Flatten(Runs(t)) == t
  {
    if t != [] {
      RunsFlatten(t[1..]);
      var rs: seq<seq<Event>> := Runs(t[1..]);
      if rs != [] && rs[0][0].field == t[0].field {
        assert Runs(t)[1..] == rs[1..];
        assert Flatten(Runs(t)) == [t[0]] + (rs[0] + Flatten(rs[1..]));
      } else {
        assert Runs(t)[1..] == rs;
      }
    }
  }

  predicate OneField(run: seq<Event>) {
    run != [] && forall j | 0 <= j < |run| :: run[j].field == run[0].field
  }

  /** `Runs` cuts the events into pieces of one field each, neighbours of different fields. */
  lemma {:induction false} RunsAreMaximal(t: seq<Event>)
    ensures Flatten(Runs(t)) == t
    ensures forall k :: 0 <= k < |Runs(t)| ==> OneField(Runs(t)[k])
    ensures forall k :: 0 < k < |Runs(t)| ==> Runs(t)[k - 1][0].field != Runs(t)[k][0].field
  {
    hide Flatten;
    RunsFlatten(t);
    if t != [] {
      RunsAreMaximal(t[1..]);
      var rs: seq<seq<Event>> := Runs(t[1..]);
      if rs != [] && rs[0][0].field == t[0].field {
        assert OneField(rs[0]);
        assert OneField([t[0]] + rs[0]);
      }
    }
  }

  function Total(t: seq<Event>): nat {
    if t == [] then 0 else t[0].delivered + Total(t[1..])
  }

  /** The run delivered exactly `array_size` elements. */
  predicate ExactRun(fields: seq<Field>, run: seq<Event>) {
    run != [] && run[0].field < |fields| && Total(run) == fields[run[0].field].arraySize
  }

  predicate AllExact(fields: seq<Field>, rs: seq<seq<Event>>) {
    forall k | 0 <= k < |rs| :: ExactRun(fields, rs[k])
  }

  /** All runs are exact when `have` elements of the open run were delivered before. */
  predicate ExactFrom(fields: seq<Field>, rs: seq<seq<Event>>, open: Option<nat>, have: nat)
    requires open.Some? ==> open.value < |fields|
    requires forall k :: 0 <= k < |rs| ==> rs[k] != []
  {
    match open
    case None => AllExact(fields, rs)
    case Some(i) =>
      if rs != [] && rs[0][0].field == i
      then have + Total(rs[0]) == fields[i].arraySize && AllExact(fields, rs[1..])
      else have == fields[i].arraySize && AllExact(fields, rs)
  }

  lemma {:induction false} ExactStep(fields: seq<Field>, t: seq<Event>, e: Event, open: Option<nat>, have: nat)
    requires open.Some? ==> open.value < |fields|
    requires e.field < |fields|
    requires open.Some? && open.value != e.field ==> have == fields[open.value].arraySize
    ensures ExactFrom(fields, Runs([e] + t), open, have)
       <==> ExactFrom(fields, Runs(t), Some(e.field), if open == Some(e.field) then have + e.delivered else e.delivered)
  {
    assert ([e] + t)[1..] == t;
    var rs: seq<seq<Event>>, rs': seq<seq<Event>> := Runs(t), Runs([e] + t);
    if rs != [] && rs[0][0].field == e.field {
      assert rs'[0] == [e] + rs[0] && rs'[1..] == rs[1..];
      assert ([e] + rs[0])[1..] == rs[0];
      assert Total(rs'[0]) == e.delivered + Total(rs[0]);
    } else {
      assert rs'[0] == [e] && rs'[1..] == rs;
      assert Total([e]) == e.delivered;
    }
    assert AllExact(fields, rs') <==> ExactRun(fields, rs'[0]) && AllExact(fields, rs'[1..]) by {
      assert forall k :: 0 < k < |rs'| ==> rs'[k] == rs'[1..][k - 1];
      assert forall k :: 0 <= k < |rs'[1..]| ==> rs'[1..][k] == rs'[k + 1];
    }
  }

  lemma {:induction false} EnteredRun(fields: seq<Field>, i: nat, st: State)
    requires StateFor(fields, st) && i < |fields| && IsFixedCount(fields[i])
    requires EnterField(fields, i, st).Some?
    ensures var st1 := EnterField(fields, i, st).value;
            st1.fixed == Some(i) && st1.fixedCount == if st.fixed == Some(i) then st.fixedCount else 0
    ensures st.fixed != Some(i) ==> RunComplete(fields, st)
  {
  }

  lemma {:induction false} OtherRun(fields: seq<Field>, i: nat, st: State)
    requires StateFor(fields, st) && i < |fields| && !IsFixedCount(fields[i])
    ensures EnterField(fields, i, st) == Some(MarkSeen(fields, i, st))
  {
  }

  /** The run check of the loop is the statement about maximal runs. */
  lemma {:induction false} LoopRuns(fields: seq<Field>, s: seq<byte>, st: State)
    requires StateFor(fields, st) && DecodeLoop(fields, s, st).LoopDone?
    ensures RunComplete(fields, DecodeLoop(fields, s, st).st)
       <==> ExactFrom(fields, Runs(FixedEvents(fields, Trace(fields, s, st))), st.fixed, st.fixedCount)
    decreases |s|
  {
    hide DecodeTurn, TurnEvent, Runs, ExactFrom, RunComplete;
    if s != [] && DecodeTurn(fields, s, st).Next? {
      var n := DecodeTurn(fields, s, st);
      TurnEffect(fields, s, st);
      LoopRuns(fields, n.rest, n.st);
      var tail := Trace(fields, n.rest, n.st);
      match TurnEvent(fields, s, st)
      case None => assert [] + tail == tail;
      case Some(e) =>
        assert ([e] + tail)[0] == e && ([e] + tail)[1..] == tail;
        if IsFixedCount(fields[e.field]) {
          EnteredRun(fields, e.field, st);
          ExactStep(fields, FixedEvents(fields, tail), e, st.fixed, st.fixedCount);
        } else {
          OtherRun(fields, e.field, st);
          assert [] + FixedEvents(fields, tail) == FixedEvents(fields, tail);
        }
    } else {
      NoRuns(fields, st);
    }
  }

  lemma {:induction false} NoRuns(fields: seq<Field>, st: State)
    requires StateFor(fields, st)
    ensures RunComplete(fields, st) <==> ExactFrom(fields, Runs([]), st.fixed, st.fixedCount)
  {
  }

  /** Fixed-count runs: when the loop completes, the check of the last run passes if and only
      if every maximal run of a fixed-count field delivered exactly its array size. */
  lemma {:induction false} FixedRunsExact(fields: seq<Field>, s: seq<byte>, m: seq<Slot>)
    requires |m| == NumSlots(fields) && DecodeLoop(fields, s, InitialState(m)).LoopDone?
    ensures RunComplete(fields, DecodeLoop(fields, s, InitialState(m)).st)
       <==> AllExact(fields, Runs(FixedEvents(fields, Trace(fields, s, InitialState(m)))))
    ensures DecodeNoInit(fields, s, m).Good?
        ==> AllExact(fields, Runs(FixedEvents(fields, Trace(fields, s, InitialState(m)))))
  {
    hide DecodeLoop, Trace, AllExact, Runs;
    LoopRuns(fields, s, InitialState(m));
  }
}

/** What the bytes of each field type mean on the wire, told by the bytes: which payload is written for
    a value and which value is read from a payload. From that follows that a receiver skips all that a
    sender writes for fields it does not have. */
module Meaning {
  import opened Bytes
  import opened Schema
  import opened Varint
  import opened WireFormat
  import opened EncodeSpec
  import opened DecodeSpec
  import opened DecodeLaws

  // ---------- what is written ----------

  /** A number of 32 bits as four bytes, least significant first. */
  function FourBytes(v: nat): seq<byte>
    requires v < UINT32
  {
    [v % 0x100, (v / 0x100) % 0x100, (v / 0x1_0000) % 0x100, v / 0x100_0000]
  }

  /** `p` is the length of `content` and then that. */
  predicate Delimited(p: seq<byte>, content: seq<byte>) {
    |content| <= |p| && p[|p| - |content|..] == content && IsNumber(p[..|p| - |content|], |content|)
  }

  lemma {:induction false} StringDelimited(s: seq<byte>)
    requires |s| < UINT32
    ensures Delimited(EncString(s), s) && IsPayload(2, EncString(s))
  {
    hide IsNumber;
    WrittenNumber(|s|);
    DelimitedPayload(s);
    assert EncString(s)[..|EncString(s)| - |s|] == EncVarint(|s|);
  }

  /** A key is a varint of the field number and the wire type. */
  lemma {:induction false} KeyWritten(tag: nat, wire: nat)
    requires tag < MAX_TAG && wire < 8
    ensures IsNumber(EncTag(tag, wire), 8 * tag + wire)
  {
    WrittenNumber(8 * tag + wire);
  }

  lemma {:induction false} VarintWritten(v: nat)
    requires v < UINT64
    ensures IsVarint(EncVarint(v)) && Number(EncVarint(v)) == v && |EncVarint(v)| <= 10
  {
    WrittenVarint(v);
    EncVarintAtMost10(v);
  }

  /** The payload of a value, type by type. Negative numbers of the plain types are written as 64-bit
      two's complement, those of the zigzag types as odd numbers. */
  lemma {:induction false} ScalarWritten(f: Field, v: Value)
    requires ValidField(f) && ConformsValue(f, v, false) && EncodeScalar(f, v).Some?
    ensures var p := EncodeScalar(f, v).value;
            match f.ltype
            case LBool => p == [if v.b then 1 else 0]
            case LVarint => IsVarint(p) && Number(p) == if v.i < 0 then 0x1_0000_0000_0000_0000 + v.i else v.i
            case LUVarint => IsVarint(p) && Number(p) == v.i
            case LSVarint => IsVarint(p) && Number(p) == if v.i < 0 then -2 * v.i - 1 else 2 * v.i
            case LFixed32 => p == FourBytes(v.i)
            case LFixed64 => p == FourBytes(v.i % 0x1_0000_0000) + FourBytes(v.i / 0x1_0000_0000)
            case LBytes => Delimited(p, v.content)
            case LString => Delimited(p, CStr(v.chars))
            case LFixedBytes => Delimited(p, v.data)
            case LSubmessage => true
  {
    hide EncVarint, IsVarint, Number, EncString, EncFixed, Zigzag, FixedValue;
    match f.ltype
    case LBool => SmallVarint(if v.b then 1 else 0);
    case LVarint => VarintWritten(ToUint64(v.i));
    case LUVarint => VarintWritten(v.i);
    case LSVarint =>
      VarintWritten(Zigzag(v.i));
      ZigzagInverse(v.i, 0);
    case LFixed32 => Fixed32Bytes(v.i, [0, 0, 0, 0]);
    case LFixed64 =>
      Fixed64Bytes(v.i, [0, 0, 0, 0, 0, 0, 0, 0]);
      Fixed32Bytes(v.i % 0x1_0000_0000, [0, 0, 0, 0]);
      Fixed32Bytes(v.i / 0x1_0000_0000, [0, 0, 0, 0]);
    case LBytes => StringDelimited(v.content);
    case LString => StringDelimited(CStr(v.chars));
    case LFixedBytes => StringDelimited(v.data);
    case LSubmessage =>
  }

  lemma {:induction false} SmallVarint(n: nat)
    requires n < 128
    ensures EncVarint(n) == [n]
  {
  }

  /** What is written for a value is one payload of the wire type in its key, and is skipped as one. */
  lemma {:induction false} ValueIsPayload(f: Field, v: Value, rest: seq<byte>)
    requires ValidField(f) && ConformsValue(f, v, false) && EncodeValue(f, v).Some? && PayloadFits(f, v, UINT32)
    ensures IsPayload(WireType(f.ltype), EncodeValue(f, v).value)
    ensures SkipField(WireType(f.ltype), EncodeValue(f, v).value + rest) == Good((), rest)
  {
    hide EncodeMsg, EncString, EncFixed, SkipField, IsVarint, Number, IsNumber, ToUint64, Zigzag, EncVarint;
    match f.ltype {
      case LBool => VarintWritten(if v.b then 1 else 0);
      case LVarint => VarintWritten(ToUint64(v.i));
      case LUVarint => VarintWritten(v.i);
      case LSVarint => VarintWritten(Zigzag(v.i));
      case LFixed32 =>
      case LFixed64 =>
      case LBytes => StringDelimited(v.content);
      case LString => StringDelimited(CStr(v.chars));
      case LFixedBytes => StringDelimited(v.data);
      case LSubmessage => StringDelimited(EncodeMsg(f.sub, v.slots).value);
    }
    PayloadSkipped(WireType(f.ltype), EncodeValue(f, v).value, rest);
  }

  // ---------- what a receiver without the field makes of it ----------

  ghost predicate Lacks(fields: seq<Field>, tag: nat) {
    forall i :: 0 <= i < |fields| ==> fields[i].tag != tag
  }

  lemma {:induction false} ForeignPayload(fields: seq<Field>, tag: nat, wire: nat, p: seq<byte>, b: seq<byte>,
                                          st: State)
    requires StateFor(fields, st) && Lacks(fields, tag) && 1 <= tag < MAX_TAG && wire < 8 && IsPayload(wire, p)
    ensures DecodeLoop(fields, EncTag(tag, wire) + p + b, st) == DecodeLoop(fields, b, st)
  {
    hide DecodeLoop, IsPayload, IsNumber, Number, EncTag;
    var u, k := EncTag(tag, wire) + p, |EncTag(tag, wire)|;
    KeyWritten(tag, wire);
    NumberIs(EncTag(tag, wire), 8 * tag + wire);
    assert u[..k] == EncTag(tag, wire) && u[k..] == p;
    assert (8 * tag + wire) / 8 == tag && (8 * tag + wire) % 8 == wire;
    assert UnknownAt(fields, u, k);
    UnknownFieldSkipped(fields, u, b, st);
  }

  lemma {:induction false} NumberIs(q: seq<byte>, n: nat)
    requires IsNumber(q, n)
    ensures Number(q) == n
  {
  }

  /** A table without the tag decodes a tagged value and what follows as it decodes what follows. */
  lemma {:induction false} ForeignTagged(fields: seq<Field>, f: Field, v: Value, b: seq<byte>, st: State)
    requires StateFor(fields, st) && Lacks(fields, f.tag) && ValidField(f)
    requires ConformsValue(f, v, false) && EncodeTagged(f, v).Some? && PayloadFits(f, v, UINT32)
    ensures DecodeLoop(fields, EncodeTagged(f, v).value + b, st) == DecodeLoop(fields, b, st)
  {
    hide DecodeLoop, EncTag, EncodeValue, IsPayload, PayloadFits;
    ValueIsPayload(f, v, b);
    ForeignPayload(fields, f.tag, WireType(f.ltype), EncodeValue(f, v).value, b, st);
  }

  lemma {:induction false} ForeignItems(fields: seq<Field>, f: Field, items: seq<Value>, b: seq<byte>, st: State)
    requires StateFor(fields, st) && Lacks(fields, f.tag) && ValidField(f) && EncodeUnpacked(f, items).Some?
    requires forall k :: 0 <= k < |items| ==> ConformsValue(f, items[k], false) && PayloadFits(f, items[k], UINT32)
    ensures DecodeLoop(fields, EncodeUnpacked(f, items).value + b, st) == DecodeLoop(fields, b, st)
    decreases items
  {
    hide DecodeLoop, EncodeTagged, PayloadFits, ConformsValue, ValidField;
    if items == [] {
      assert [] + b == b;
    } else {
      var more := EncodeUnpacked(f, items[1..]).value + b;
      assert EncodeUnpacked(f, items).value + b == EncodeTagged(f, items[0]).value + more;
      ForeignTagged(fields, f, items[0], more, st);
      ForeignItems(fields, f, items[1..], b, st);
    }
  }

  lemma {:induction false} ForeignPacked(fields: seq<Field>, f: Field, items: seq<Value>, b: seq<byte>, st: State)
    requires StateFor(fields, st) && Lacks(fields, f.tag) && ValidField(f) && EncodePackedData(f, items).Some?
    requires |EncodePackedData(f, items).value| < UINT32
    ensures EncodePacked(f, items).Some?
    ensures DecodeLoop(fields, EncodePacked(f, items).value + b, st) == DecodeLoop(fields, b, st)
  {
    hide DecodeLoop, EncTag, EncodePackedData, IsPayload, EncString;
    var d := EncodePackedData(f, items).value;
    StringDelimited(d);
    ForeignPayload(fields, f.tag, 2, EncString(d), b, st);
  }

  lemma {:induction false} ForeignField(fields: seq<Field>, f: Field, s: Slot, b: seq<byte>, st: State)
    requires StateFor(fields, st) && Lacks(fields, f.tag) && ValidField(f)
    requires ConformsSlot(f, s, false) && EncodeField(f, s).Some? && SlotPayloadsFit(f, s, UINT32)
    ensures DecodeLoop(fields, EncodeField(f, s).value + b, st) == DecodeLoop(fields, b, st)
  {
    hide DecodeLoop, EncodeTagged, EncodeUnpacked, EncodePacked, EncodePackedData, PayloadFits, ConformsValue;
    hide ConformsSpare, IsDefault, ValidField;
    assert [] + b == b;
    match s
    case Single(v) => if !(f.htype.Optional? && IsDefault(f, s)) { ForeignTagged(fields, f, v, b, st); }
    case Opt(has, v) => if has { ForeignTagged(fields, f, v, b, st); }
    case Rep(items, _) =>
      if items != [] {
        if Packable(f.ltype) {
          PackedHasData(f, items);
          ForeignPacked(fields, f, items, b, st);
        } else {
          ForeignItems(fields, f, items, b, st);
        }
      }
    case Union(which, v) => if which == f.tag { ForeignTagged(fields, f, v, b, st); }
  }

  lemma {:induction false} PackedHasData(f: Field, items: seq<Value>)
    requires EncodePacked(f, items).Some?
    ensures EncodePackedData(f, items).Some?
  {
  }

  lemma {:induction false} ForeignFrom(fields: seq<Field>, sent: seq<Field>, m: seq<Slot>, i: nat, b: seq<byte>,
                                       st: State)
    requires StateFor(fields, st) && ValidSchema(sent) && Typed(sent, m) && PayloadsFit(sent, m, UINT32)
    requires forall j :: 0 <= j < |sent| ==> Lacks(fields, sent[j].tag)
    requires i <= |sent| && EncodeFrom(sent, m, i).Some?
    ensures DecodeLoop(fields, EncodeFrom(sent, m, i).value + b, st) == DecodeLoop(fields, b, st)
    decreases |sent| - i
  {
    hide DecodeLoop, EncodeField, SlotPayloadsFit, SlotIdx, ConformsSlot, ValidField, Lacks;
    if i == |sent| {
      assert [] + b == b;
    } else {
      SlotInRange(sent, i);
      var s := m[SlotIdx(sent, i)];
      var more := EncodeFrom(sent, m, i + 1).value + b;
      assert ValidField(sent[i]) && ConformsSlot(sent[i], s, false) && SlotPayloadsFit(sent[i], s, UINT32);
      assert EncodeFrom(sent, m, i).value + b == EncodeField(sent[i], s).value + more;
      ForeignField(fields, sent[i], s, more, st);
      ForeignFrom(fields, sent, m, i + 1, b, st);
    }
  }

  /** A receiver whose table has none of the sender's fields skips all that any struct is encoded to. */
  lemma {:induction false} ForeignSkipped(fields: seq<Field>, sent: seq<Field>, m: seq<Slot>, b: seq<byte>, st: State)
    requires StateFor(fields, st) && ValidSchema(sent) && Typed(sent, m) && PayloadsFit(sent, m, UINT32)
    requires forall j :: 0 <= j < |sent| ==> Lacks(fields, sent[j].tag)
    requires EncodeMsg(sent, m).Some?
    ensures DecodeLoop(fields, EncodeMsg(sent, m).value + b, st) == DecodeLoop(fields, b, st)
  {
    hide DecodeLoop, EncodeFrom, SlotIdx, ConformsSlot, PayloadsFit, Lacks;
    ForeignFrom(fields, sent, m, 0, b, st);
  }

  // ---------- arrays ----------

  /** The types that are not numbers. */
  predicate Delimiting(l: LType) {
    l.LBytes? || l.LString? || l.LSubmessage? || l.LFixedBytes?
  }

  /** The elements one after the other. */
  ghost predicate Elements(f: Field, items: seq<Value>, parts: seq<seq<byte>>) {
    |parts| == |items| && forall k :: 0 <= k < |items| ==> EncodeValue(f, items[k]) == Some(parts[k])
  }

  /** The elements, each behind a key. */
  function Keyed(f: Field, parts: seq<seq<byte>>): (r: seq<seq<byte>>)
    ensures |r| == |parts|
  {
    seq(|parts|, k requires 0 <= k < |parts| => EncTag(f.tag, 2) + parts[k])
  }

  lemma {:induction false} PackedJoins(f: Field, items: seq<Value>, parts: seq<seq<byte>>)
    requires Elements(f, items, parts) && !f.ltype.LSubmessage?
    ensures EncodePackedData(f, items) == Some(Concat(parts))
    decreases items
  {
    hide EncodeScalar;
    if items != [] { PackedJoins(f, items[1..], parts[1..]); }
  }

  lemma {:induction false} UnpackedJoins(f: Field, items: seq<Value>, parts: seq<seq<byte>>)
    requires Elements(f, items, parts) && Delimiting(f.ltype)
    ensures EncodeUnpacked(f, items) == Some(Concat(Keyed(f, parts)))
    decreases items
  {
    hide EncodeValue;
    if items != [] {
      UnpackedJoins(f, items[1..], parts[1..]);
      assert Keyed(f, parts)[1..] == Keyed(f, parts[1..]);
    }
  }

  /** A nonempty array of numbers is one key of wire type 2, a length and the elements. Of every other
      type each element has a key of its own. */
  lemma {:induction false} ArrayWritten(f: Field, items: seq<Value>, parts: seq<seq<byte>>)
    requires 0 < |items| <= f.arraySize && Elements(f, items, parts)
    ensures !Delimiting(f.ltype) ==> EncodeArray(f, items) == Some(EncTag(f.tag, 2) + EncString(Concat(parts)))
    ensures Delimiting(f.ltype) ==> EncodeArray(f, items) == Some(Concat(Keyed(f, parts)))
  {
    hide EncTag, EncString, EncodeValue, EncodeUnpacked, EncodePackedData, Concat, Keyed, Elements;
    if Delimiting(f.ltype) { UnpackedJoins(f, items, parts); } else { PackedJoins(f, items, parts); }
  }

  // ---------- what is read ----------

  /** A pattern of `2 * half` values read as two's complement. */
  function TwosComplement(n: nat, half: nat): int {
    if n < half then n else n - 2 * half
  }

  lemma {:induction false} Low32Is(x: nat)
    ensures Low32(x) == x % 0x1_0000_0000
    decreases x
  {
    if x >= UINT32 { Low32Is(x - UINT32); }
  }

  /** The value of a varint, type by type. In fields below 64 bits a plain number is what its low 32 bits
      are as two's complement; whatever does not fit the field is refused. */
  lemma {:induction false} VarintRead(f: Field, p: seq<byte>, rest: seq<byte>, base: Value)
    requires IsVarint(p) && |p| <= 10
    ensures var n, m := Number(p) % 0x1_0000_0000_0000_0000, Number(p) % 0x1_0000_0000;
            var r := DecodeScalar(f, p + rest, base);
            match f.ltype
            case LVarint =>
              var i := if f.dataSize == 8 then TwosComplement(n, UINT63) else TwosComplement(m, UINT31);
              r == if SignedFits(f.dataSize, i) then Good(VInt(i), rest) else Bad
            case LUVarint => r == if UnsignedFits(f.dataSize, n) then Good(VInt(n), rest) else Bad
            case LSVarint =>
              var i := if n % 2 == 0 then n / 2 else -((n + 1) / 2);
              r == if SignedFits(f.dataSize, i) then Good(VInt(i), rest) else Bad
            case LBool => r == if Accepted32(p) then Good(VBool(Low(p) != 0), rest) else Bad
            case _ => true
  {
    hide DecVarint, DecVarint32, IsVarint, Number, Low32, Accepted32, Low;
    match f.ltype
    case LVarint =>
      DecVarintExact(p, rest);
      Low32Is(Number(p) % 0x1_0000_0000_0000_0000);
      SameLow(Number(p));
    case LUVarint => DecVarintExact(p, rest);
    case LSVarint => DecVarintExact(p, rest);
    case LBool => DecVarint32Exact(p, rest);
    case _ =>
  }

  lemma {:induction false} SameLow(x: nat)
    ensures (x % 0x1_0000_0000_0000_0000) % 0x1_0000_0000 == x % 0x1_0000_0000
  {
    var q, r := x / 0x1_0000_0000_0000_0000, x % 0x1_0000_0000_0000_0000;
    assert x == r + 0x1_0000_0000 * (0x1_0000_0000 * q);
  }

  /** A varint of more than ten bytes is no number. */
  lemma {:induction false} LongVarintRefused(f: Field, p: seq<byte>, rest: seq<byte>, base: Value)
    requires IsVarint(p) && |p| > 10 && (f.ltype.LVarint? || f.ltype.LUVarint? || f.ltype.LSVarint?)
    ensures DecodeScalar(f, p + rest, base).Bad?
  {
    DecVarintExact(p, rest);
  }

  /** A negative number of up to 32 bits is also read from the five bytes of its 32-bit pattern, as other
      encoders write it; of the fifth byte only four bits count. */
  lemma {:induction false} FiveByteNegative(f: Field, i: int, p: seq<byte>, rest: seq<byte>, base: Value)
    requires f.ltype.LVarint? && f.dataSize != 8 && i < 0 && SignedFits(f.dataSize, i)
    requires IsVarint(p) && |p| == 5 && Number(p) % 0x1_0000_0000 == 0x1_0000_0000 + i
    ensures DecodeScalar(f, p + rest, base) == Good(VInt(i), rest)
  {
    hide DecodeScalar, IsVarint, Number;
    VarintRead(f, p, rest, base);
  }

  lemma {:induction false} MinusOne(f: Field, rest: seq<byte>, base: Value)
    requires ValidField(f) && f.ltype.LVarint? && f.dataSize != 8
    ensures DecodeScalar(f, [0xFF, 0xFF, 0xFF, 0xFF, 0x0F] + rest, base) == Good(VInt(-1), rest)
  {
    hide DecodeScalar, IsVarint, Number;
    AllOnes();
    FiveByteNegative(f, -1, [0xFF, 0xFF, 0xFF, 0xFF, 0x0F], rest, base);
  }

  lemma {:induction false} AllOnes()
    ensures IsVarint([0xFF, 0xFF, 0xFF, 0xFF, 0x0F]) && Number([0xFF, 0xFF, 0xFF, 0xFF, 0x0F]) == 0xFFFF_FFFF
  {
    hide IsVarint, Number;
    var p1: seq<byte>, p2: seq<byte>, p3: seq<byte> := [0x0F], [0xFF, 0x0F], [0xFF, 0xFF, 0x0F];
    var p4: seq<byte>, none: seq<byte> := [0xFF, 0xFF, 0xFF, 0x0F], [];
    assert p1 == p1 + none && p2 == [0xFF] + p1 && p3 == [0xFF] + p2 && p4 == [0xFF] + p3;
    ShlZero(0);
    VarintTail(0x0F, none);
    VarintTail(0xFF, p1);
    VarintTail(0xFF, p2);
    VarintTail(0xFF, p3);
    VarintTail(0xFF, p4);
    assert [0xFF] + p4 == [0xFF, 0xFF, 0xFF, 0xFF, 0x0F];
  }

  /** Fixed-width numbers. */
  lemma {:induction false} FixedRead(f: Field, p: seq<byte>, rest: seq<byte>, base: Value)
    requires (f.ltype.LFixed32? && |p| == 4) || (f.ltype.LFixed64? && |p| == 8)
    ensures DecodeScalar(f, p + rest, base).Good? && DecodeScalar(f, p + rest, base).rest == rest
    ensures f.ltype.LFixed32? ==>
              DecodeScalar(f, p + rest, base).value
              == VInt(p[0] as int + 0x100 * (p[1] as int) + 0x1_0000 * (p[2] as int) + 0x100_0000 * (p[3] as int))
    ensures f.ltype.LFixed64? ==>
              DecodeScalar(f, p + rest, base).value == VInt(FixedValue(p[..4]) + 0x1_0000_0000 * FixedValue(p[4..]))
  {
    hide FixedValue, EncFixed;
    assert (p + rest)[..|p|] == p && (p + rest)[|p|..] == rest;
    if f.ltype.LFixed32? { Fixed32Bytes(0, p); } else { Fixed64Bytes(0, p); }
  }

  /** Length-delimited contents: bytes and strings have to fit their slot, a fixed-length field takes
      its own length, and zeros from nothing. */
  lemma {:induction false} DelimitedRead(f: Field, p: seq<byte>, content: seq<byte>, rest: seq<byte>, base: Value)
    requires Delimited(p, content) && (f.ltype.LString? ==> base.VString? && |base.chars| == f.dataSize)
    ensures var r := DecodeScalar(f, p + rest, base);
            match f.ltype
            case LBytes => r == if |content| + 4 <= f.dataSize then Good(VBytes(content), rest) else Bad
            case LString =>
              r == if |content| < f.dataSize
                   then Good(VString(content + [0] + base.chars[|content| + 1..]), rest) else Bad
            case LFixedBytes =>
              r == if content == [] then Good(VFixedBytes(Zeros(f.dataSize)), rest)
                   else if |content| == f.dataSize then Good(VFixedBytes(content), rest) else Bad
            case _ => true
  {
    hide DecVarint32, IsNumber;
    var q := p[..|p| - |content|];
    NumberRead(q, |content|, content + rest);
    assert p + rest == q + (content + rest);
    assert (content + rest)[..|content|] == content && (content + rest)[|content|..] == rest;
  }

  // ---------- defaults ----------

  /** The value of zeroed memory. */
  predicate IsZero(f: Field, v: Value) {
    match f.ltype
    case LBool => v == VBool(false)
    case LBytes => v == VBytes([])
    case LString => v.VString? && |v.chars| == f.dataSize && forall k | 0 <= k < |v.chars| :: v.chars[k] == 0
    case LFixedBytes => v.VFixedBytes? && |v.data| == f.dataSize && forall k | 0 <= k < |v.data| :: v.data[k] == 0
    case LSubmessage => false
    case _ => v == VInt(0)
  }

  /** What setting defaults leaves in the slot of field `i`: absent optional fields, arrays with the count
      zero and the same elements in memory, unset oneofs, and in every singular field that is not a
      submessage the default of its table, or zero. */
  lemma {:induction false} DefaultsGive(fields: seq<Field>, m: seq<Slot>, i: nat)
    requires Typed(fields, m) && i < |fields|
    ensures SlotIdx(fields, i) < |Defaults(fields, m)|
    ensures var f, s := fields[i], Defaults(fields, m)[SlotIdx(fields, i)];
            match f.htype
            case Required => s.Single?
            case Optional => if HasSizeField(f) then s.Opt? && !s.has else s.Single?
            case Repeated =>
              var was := SlotOf(fields, m, i);
              was.Rep? && s.Rep?
              && if HasSizeField(f)
                 then s.items == [] && (|was.items| <= f.arraySize ==> s.spare == was.items + was.spare)
                 else s == was
            case Oneof => s.Union? && s.which == 0
    ensures var f, s := fields[i], Defaults(fields, m)[SlotIdx(fields, i)];
            (f.htype.Required? || f.htype.Optional?) && !f.ltype.LSubmessage? ==>
              if f.dflt.Some? then Held(s) == f.dflt.value else IsZero(f, Held(s))
  {
    hide ConformsValue, ConformsSpare;
    DefaultsAt(fields, m, i);
    assert ConformsSlot(fields[i], m[SlotIdx(fields, i)], false);
  }

  /** A proto3 field that is not a submessage is left out exactly when its value means zero; bytes of a
      fixed length are never left out. */
  lemma {:induction false} LeftOutExact(f: Field, v: Value)
    requires ValidField(f) && f.htype.Optional? && !HasSizeField(f) && !f.ltype.LSubmessage?
    requires ConformsValue(f, v, false)
    ensures IsDefault(f, Single(v)) <==> (f.ltype.LFixedBytes? ==> f.dataSize == 0) && SameValue(f, v, ZeroValue(f))
  {
    NoCharacters(f.dataSize);
  }

  lemma {:induction false} NoCharacters(n: nat)
    ensures CStr(Zeros(n)) == []
  {
  }
}

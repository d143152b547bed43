/**
 `GenerateStruct`: fills a record's fields in declaration order from one
 shared cursor over the buffer. A record is the sequence of its field
 values; each value carries its field's kind. `Populate` and
 `GenerateStruct` decode a `[]byte` field with `GetBytes`, which is what the
 `[]byte` case of the source's type switch intends. The switch itself
 compares against "[]byte", a name `reflect` never reports, so the code as
 written skips such fields: `PopulateAsWritten` models that.
 */
module Structs {
  import opened Wrappers
  import opened GoTypes
  import opened Decoders

  /**
   The field types the source's switch lists: `string`, `bool`, `int`,
   `[]byte`, `[]string`, and any other. `Bytes` is the `[]byte` case, which
   the code as written never reaches.
   */
  datatype FieldKind = String | Bool | Int | Bytes | StringSlice | Other

  /** The contents of one field. `OtherValue` stands for a field of any other type. */
  datatype Value =
    | StringValue(s: GoString)
    | BoolValue(b: bool)
    | IntValue(i: int)
    | BytesValue(bytes: seq<byte>)
    | StringSliceValue(strings: seq<GoString>)
    | OtherValue(token: nat)

  function Kind(v: Value): FieldKind {
    match v
    case StringValue(_) => String
    case BoolValue(_) => Bool
    case IntValue(_) => Int
    case BytesValue(_) => Bytes
    case StringSliceValue(_) => StringSlice
    case OtherValue(_) => Other
  }

  /** The kinds that get one decoder call; `[]string` and other kinds are skipped. */
  predicate Decodable(k: FieldKind) {
    k != StringSlice && k != Other
  }

  /** Go's zero value of each kind. */
  function ZeroValue(k: FieldKind): (v: Value)
    ensures Kind(v) == k
  {
    match k
    case String => StringValue([])
    case Bool => BoolValue(false)
    case Int => IntValue(0)
    case Bytes => BytesValue([])
    case StringSlice => StringSliceValue([])
    case Other => OtherValue(0)
  }

  function ZeroRecord(kinds: seq<FieldKind>): (fields: seq<Value>)
    ensures |fields| == |kinds|
    ensures forall i :: 0 <= i < |kinds| ==> fields[i] == ZeroValue(kinds[i])
  {
    seq(|kinds|, i requires 0 <= i < |kinds| => ZeroValue(kinds[i]))
  }

  /** The error the decoder of a decodable kind reports when it runs out of bytes. */
  function KindError(k: FieldKind): DecodeError
    requires Decodable(k)
  {
    match k
    case String => NotEnoughBytesForString
    case Bool => NotEnoughBytesForBool
    case Int => NotEnoughBytesForInt
    case Bytes => NotEnoughBytesForByteArray
  }

  /**
   One field's step: the decoder its kind selects, its result wrapped as a
   value of that kind. Skipped kinds keep their contents and consume nothing.
   */
  function DecodeField(v: Value, data: seq<byte>, pos: nat): (r: Decoded<Value>)
    requires pos <= |data|
    ensures Kind(r.value) == Kind(v)
    ensures pos <= r.position <= |data|
    ensures !Decodable(Kind(v)) ==> r == Decoded(v, pos, None)
    ensures Decodable(Kind(v)) && !r.Ok() ==> r.position == pos && r.error == Some(KindError(Kind(v)))
    ensures !r.Ok() <==>
              Decodable(Kind(v)) && (pos == |data| || (Kind(v) in {String, Bytes} && pos + data[pos] as int >= |data|))
    ensures r.Ok() && Kind(v) == Int ==> r.value == IntValue(data[pos] as int) && r.position == pos + 1
    ensures r.Ok() && Kind(v) == Bool ==> r.value == BoolValue(data[pos] as int % 2 == 0) && r.position == pos + 1
    ensures r.Ok() && Kind(v) == String ==>
              r.value == StringValue(data[pos..pos + data[pos] as int]) && r.position == pos + data[pos] as int
    ensures r.Ok() && Kind(v) == Bytes ==>
              r.value == BytesValue(data[pos..pos + data[pos] as int]) && r.position == pos + data[pos] as int
  {
    match v
    case StringValue(_) =>
      var d := GetString(data, pos);
      Decoded(StringValue(d.value), d.position, d.error)
    case BoolValue(_) =>
      var d := GetBool(data, pos);
      Decoded(BoolValue(d.value), d.position, d.error)
    case IntValue(_) =>
      var d := GetInt(data, pos);
      Decoded(IntValue(d.value), d.position, d.error)
    case BytesValue(_) =>
      var d := GetBytes(data, pos);
      Decoded(BytesValue(d.value), d.position, d.error)
    case StringSliceValue(_) => Decoded(v, pos, None)
    case OtherValue(_) => Decoded(v, pos, None)
  }

  /** A record after filling: its fields, the shared cursor, and the error returned. */
  datatype Populated = Populated(fields: seq<Value>, position: nat, error: Option<DecodeError>)

  /** Puts already-filled fields in front of the outcome of filling the rest. */
  function Prepend(filled: seq<Value>, r: Populated): Populated {
    Populated(filled + r.fields, r.position, r.error)
  }

  /**
   Filling stopped at field `k`: that field is decodable, its decoder fails
   at the final cursor with its kind's error, and it and every later field
   are as they were.
   */
  predicate StoppedAt(fields: seq<Value>, data: seq<byte>, r: Populated, k: int) {
    && 0 <= k < |fields|
    && |r.fields| == |fields|
    && r.fields[k..] == fields[k..]
    && Decodable(Kind(fields[k]))
    && r.error == Some(KindError(Kind(fields[k])))
    && r.position <= |data|
    && !DecodeField(fields[k], data, r.position).Ok()
  }

  /**
   The reference definition of filling `fields` from `pos` on: a fold over
   the fields that stops at the first decoder failure, leaving the failing
   field and every later one as they were.
   */
  function Populate(fields: seq<Value>, data: seq<byte>, pos: nat): (r: Populated)
    requires pos <= |data|
    ensures |r.fields| == |fields|
    ensures forall i {:trigger r.fields[i]} :: 0 <= i < |fields| ==> Kind(r.fields[i]) == Kind(fields[i])
    ensures forall i {:trigger r.fields[i]} :: 0 <= i < |fields| && !Decodable(Kind(fields[i])) ==> r.fields[i] == fields[i]
    ensures pos <= r.position <= |data|
    decreases |fields|
  {
    if |fields| == 0 then
      Populated([], pos, None)
    else
      var d := DecodeField(fields[0], data, pos);
      if !d.Ok() then
        Populated(fields, pos, d.error)
      else
        Prepend([d.value], Populate(fields[1..], data, d.position))
  }

  /**
   An error from the fold comes from one decodable field: its decoder fails
   at the final cursor with its kind's error, and it and every later field
   are left as they were.
   */
  lemma {:induction false} PopulateStopsAtFailingField(fields: seq<Value>, data: seq<byte>, pos: nat)
    requires pos <= |data|
    ensures var r := Populate(fields, data, pos);
            r.error.Some? ==> exists k :: StoppedAt(fields, data, r, k)
    decreases |fields|
  {
    if |fields| > 0 {
      var d := DecodeField(fields[0], data, pos);
      if !d.Ok() {
        assert StoppedAt(fields, data, Populated(fields, pos, d.error), 0);
      } else {
        PopulateStopsAtFailingField(fields[1..], data, d.position);
        StoppedLater(fields, data, d.value, Populate(fields[1..], data, d.position));
      }
    }
  }

  lemma StoppedLater(fields: seq<Value>, data: seq<byte>, v: Value, rest: Populated)
    requires |fields| > 0
    requires rest.error.Some? ==> exists k :: StoppedAt(fields[1..], data, rest, k)
    ensures rest.error.Some? ==> exists k :: StoppedAt(fields, data, Prepend([v], rest), k)
  {
    if rest.error.Some? {
      var k :| StoppedAt(fields[1..], data, rest, k);
      var r := Prepend([v], rest);
      assert r.fields[k + 1..] == rest.fields[k..];
      assert fields[k + 1..] == fields[1..][k..];
      assert StoppedAt(fields, data, r, k + 1);
    }
  }

  lemma PrependTwice(a: seq<Value>, b: seq<Value>, r: Populated)
    ensures Prepend(a, Prepend(b, r)) == Prepend(a + b, r)
  {
  }

  /** Filling the fields from `i` on takes one step of the fold. */
  lemma PopulateStep(fields: seq<Value>, i: nat, data: seq<byte>, pos: nat)
    requires i < |fields| && pos <= |data|
    ensures var d := DecodeField(fields[i], data, pos);
            Populate(fields[i..], data, pos)
            == if !d.Ok() then Populated(fields[i..], pos, d.error)
               else Prepend([d.value], Populate(fields[i + 1..], data, d.position))
  {
  }

  /**
   The loop invariant of `GenerateStruct`: the fields before `i` are filled,
   the rest untouched, and finishing the fold from `position` completes the
   fill of the whole record.
   */
  predicate Filling(target: seq<Value>, data: seq<byte>, filled: seq<Value>, i: nat, position: nat) {
    && i <= |target|
    && position <= |data|
    && |filled| == |target|
    && filled[i..] == target[i..]
    && Populate(target, data, 0) == Prepend(filled[..i], Populate(target[i..], data, position))
  }

  lemma FillingStops(target: seq<Value>, data: seq<byte>, filled: seq<Value>, i: nat, position: nat)
    requires Filling(target, data, filled, i, position) && i < |target|
    requires !DecodeField(target[i], data, position).Ok()
    ensures filled == Populate(target, data, 0).fields
    ensures DecodeField(target[i], data, position).error == Populate(target, data, 0).error
  {
    PopulateStep(target, i, data, position);
    assert filled == filled[..i] + target[i..];
  }

  lemma FillingSteps(target: seq<Value>, data: seq<byte>, filled: seq<Value>, i: nat, position: nat)
    requires Filling(target, data, filled, i, position) && i < |target|
    requires DecodeField(target[i], data, position).Ok()
    ensures var d := DecodeField(target[i], data, position);
            Filling(target, data, filled[i := d.value], i + 1, d.position)
  {
    var d := DecodeField(target[i], data, position);
    PopulateStep(target, i, data, position);
    var filled' := filled[i := d.value];
    assert filled'[..i + 1] == filled[..i] + [d.value];
    assert filled'[i + 1..] == target[i + 1..];
    PrependTwice(filled[..i], [d.value], Populate(target[i + 1..], data, d.position));
  }

  lemma FillingDone(target: seq<Value>, data: seq<byte>, filled: seq<Value>, position: nat)
    requires Filling(target, data, filled, |target|, position)
    ensures filled == Populate(target, data, 0).fields
    ensures Populate(target, data, 0).error.None?
  {
  }

  /**
   The Go loop: one shared position starting at 0, one `DecodeField` step
   per field in declaration order, and return on the first error with the
   fields set so far.
   */
  method GenerateStruct(target: seq<Value>, data: seq<byte>) returns (filled: seq<Value>, err: Option<DecodeError>)
    ensures filled == Populate(target, data, 0).fields
    ensures err == Populate(target, data, 0).error
    ensures |filled| == |target|
    ensures forall i :: 0 <= i < |target| && !Decodable(Kind(target[i])) ==> filled[i] == target[i]
  {
    var position: nat := 0;
    filled := target;
    var i := 0;
    assert target[0..] == target && filled[..0] == [];
    while i < |target|
      invariant Filling(target, data, filled, i, position)
    {
      var d := DecodeField(target[i], data, position);
      if !d.Ok() {
        FillingStops(target, data, filled, i, position);
        return filled, d.error;
      }
      // a skipped field comes back unchanged, as Go's `continue` leaves it
      FillingSteps(target, data, filled, i, position);
      position := d.position;
      filled := filled[i := d.value];
      i := i + 1;
    }
    FillingDone(target, data, filled, position);
    err := None;
  }

  // ---------------------------------------------------------------------
  // Properties of the fold
  // ---------------------------------------------------------------------

  /** Filling `b` after `a` has been filled into `ra`, unless `a` already failed. */
  function Continue(ra: Populated, b: seq<Value>, data: seq<byte>): Populated
    requires ra.position <= |data|
  {
    if ra.error.Some? then Populated(ra.fields + b, ra.position, ra.error)
    else Prepend(ra.fields, Populate(b, data, ra.position))
  }

  /** Filling a record is filling its first part, then its second from where the first stopped. */
  lemma {:induction false} PopulateAppend(a: seq<Value>, b: seq<Value>, data: seq<byte>, pos: nat)
    requires pos <= |data|
    ensures Populate(a + b, data, pos) == Continue(Populate(a, data, pos), b, data)
    decreases |a|
  {
    if |a| == 0 {
      assert a + b == b;
    } else {
      assert (a + b)[0] == a[0] && (a + b)[1..] == a[1..] + b;
      var d := DecodeField(a[0], data, pos);
      if d.Ok() {
        PopulateAppend(a[1..], b, data, d.position);
        var ra' := Populate(a[1..], data, d.position);
        if ra'.error.Some? {
          assert [d.value] + (ra'.fields + b) == ([d.value] + ra'.fields) + b;
        } else {
          PrependTwice([d.value], ra'.fields, Populate(b, data, ra'.position));
        }
      }
    }
  }

  /**
   When the fields before `f` decode and `f`'s decoder then fails, filling
   stops there with `f`'s error: the earlier fields keep their decoded
   values, and `f` and everything after it stay as they were.
   */
  lemma PopulateAbortsAtFirstFailure(a: seq<Value>, f: Value, b: seq<Value>, data: seq<byte>, pos: nat)
    requires pos <= |data|
    requires Populate(a, data, pos).error.None?
    requires !DecodeField(f, data, Populate(a, data, pos).position).Ok()
    ensures var ra := Populate(a, data, pos);
            Populate(a + [f] + b, data, pos)
            == Populated(ra.fields + [f] + b, ra.position, Some(KindError(Kind(f))))
  {
    var ra := Populate(a, data, pos);
    var tail := [f] + b;
    assert a + [f] + b == a + tail;
    PopulateAppend(a, tail, data, pos);
    PopulateHeadFails(tail, data, ra.position);
    assert ra.fields + tail == ra.fields + [f] + b;
  }

  /** A record whose first field fails is returned untouched with that field's error. */
  lemma PopulateHeadFails(fields: seq<Value>, data: seq<byte>, pos: nat)
    requires pos <= |data| && |fields| > 0
    requires !DecodeField(fields[0], data, pos).Ok()
    ensures Populate(fields, data, pos) == Populated(fields, pos, Some(KindError(Kind(fields[0]))))
  {
  }

  /** The decodable fields of a record, in order. */
  function DecodableFields(fields: seq<Value>): (r: seq<Value>)
    ensures |r| <= |fields|
    ensures forall i :: 0 <= i < |r| ==> Decodable(Kind(r[i]))
  {
    if |fields| == 0 then []
    else (if Decodable(Kind(fields[0])) then [fields[0]] else []) + DecodableFields(fields[1..])
  }

  /**
   Skipped fields consume no bytes: filling a record reads the buffer
   exactly as filling only its decodable fields does, with the same values,
   final cursor and error.
   */
  lemma {:induction false} SkippedFieldsConsumeNothing(fields: seq<Value>, data: seq<byte>, pos: nat)
    requires pos <= |data|
    ensures var r := Populate(fields, data, pos);
            var s := Populate(DecodableFields(fields), data, pos);
            && r.position == s.position
            && r.error == s.error
            && DecodableFields(r.fields) == s.fields
    decreases |fields|
  {
    if |fields| > 0 {
      var d := DecodeField(fields[0], data, pos);
      var df := DecodableFields(fields);
      if Decodable(Kind(fields[0])) {
        assert df == [fields[0]] + DecodableFields(fields[1..]);
        assert df[0] == fields[0] && df[1..] == DecodableFields(fields[1..]);
      } else {
        assert df == DecodableFields(fields[1..]);
      }
      if d.Ok() {
        SkippedFieldsConsumeNothing(fields[1..], data, d.position);
        var rest := Populate(fields[1..], data, d.position);
        var r := Populate(fields, data, pos);
        assert r.fields == [d.value] + rest.fields;
        assert r.fields[0] == d.value && r.fields[1..] == rest.fields;
      }
    }
  }

  predicate AllInts(fields: seq<Value>) {
    forall i :: 0 <= i < |fields| ==> Kind(fields[i]) == Int
  }

  lemma AllIntsTail(fields: seq<Value>)
    requires |fields| > 0 && AllInts(fields)
    ensures Kind(fields[0]) == Int && AllInts(fields[1..])
  {
    forall i | 0 <= i < |fields[1..]| ensures Kind(fields[1..][i]) == Int {
      assert fields[1..][i] == fields[i + 1];
    }
  }

  /** Field `i` of `values` holds byte `pos + i` as an integer. */
  predicate IntsFrom(values: seq<Value>, data: seq<byte>, pos: nat) {
    pos + |values| <= |data|
    && forall i {:trigger values[i]} :: 0 <= i < |values| ==> values[i] == IntValue(data[pos + i] as int)
  }

  lemma IntsFromCons(values: seq<Value>, data: seq<byte>, pos: nat)
    requires pos < |data|
    requires IntsFrom(values, data, pos + 1)
    ensures IntsFrom([IntValue(data[pos] as int)] + values, data, pos)
  {
    var all := [IntValue(data[pos] as int)] + values;
    forall i | 0 <= i < |all| ensures all[i] == IntValue(data[pos + i] as int) {
      if i > 0 {
        assert all[i] == values[i - 1];
      }
    }
  }

  /**
   A record of `int` fields takes one byte per field: when that many bytes
   remain it fills without error, field `i` getting byte `pos + i`.
   */
  lemma {:induction false} PopulateIntRecordFits(fields: seq<Value>, data: seq<byte>, pos: nat)
    requires AllInts(fields) && pos + |fields| <= |data|
    ensures var r := Populate(fields, data, pos);
            && r.error.None?
            && r.position == pos + |fields|
            && IntsFrom(r.fields, data, pos)
    decreases |fields|
  {
    if |fields| > 0 {
      AllIntsTail(fields);
      PopulateIntRecordFits(fields[1..], data, pos + 1);
      PopulateIntHead(fields, data, pos);
      IntsFromCons(Populate(fields[1..], data, pos + 1).fields, data, pos);
    }
  }

  /** With fewer bytes left than `int` fields, filling stops at the buffer's end with the int error. */
  lemma {:induction false} PopulateIntRecordRunsOut(fields: seq<Value>, data: seq<byte>, pos: nat)
    requires AllInts(fields) && pos <= |data| < pos + |fields|
    ensures var r := Populate(fields, data, pos);
            r.error == Some(NotEnoughBytesForInt) && r.position == |data|
    decreases |fields|
  {
    AllIntsTail(fields);
    if pos < |data| {
      PopulateIntRecordRunsOut(fields[1..], data, pos + 1);
      PopulateIntHead(fields, data, pos);
    } else {
      PopulateHeadFails(fields, data, pos);
    }
  }

  /** An `int` field at a position inside the buffer takes the byte there. */
  lemma PopulateIntHead(fields: seq<Value>, data: seq<byte>, pos: nat)
    requires pos < |data| && |fields| > 0 && Kind(fields[0]) == Int
    ensures Populate(fields, data, pos)
            == Prepend([IntValue(data[pos] as int)], Populate(fields[1..], data, pos + 1))
  {
  }

  /**
   The record (string, bool, int) on the buffer [2, 'h', 'i', 1, 7]: the
   string is the length byte and 'h', the bool reads 'i' (odd, so false),
   and the int reads 1; the trailing 7 is left over.
   */
  lemma StringBoolIntExample()
    ensures Populate(ZeroRecord([String, Bool, Int]), [2, 104, 105, 1, 7], 0)
            == Populated([StringValue([2, 104]), BoolValue(false), IntValue(1)], 4, None)
  {
    var data: seq<byte> := [2, 104, 105, 1, 7];
    var fields := ZeroRecord([String, Bool, Int]);
    assert fields == [StringValue([]), BoolValue(false), IntValue(0)];
    assert data[0..2] == [2, 104];
    assert DecodeField(fields[0], data, 0) == Decoded(StringValue([2, 104]), 2, None);
    assert DecodeField(fields[1], data, 2) == Decoded(BoolValue(false), 3, None);
    assert DecodeField(fields[2], data, 3) == Decoded(IntValue(1), 4, None);
    assert fields[1..][1..] == fields[2..] && fields[2..][1..] == [];
    assert Populate(fields[2..], data, 3) == Populated([IntValue(1)], 4, None);
    assert Populate(fields[1..], data, 2) == Populated([BoolValue(false), IntValue(1)], 4, None);
  }

  /** The same record on [2, 'h', 'i'] runs out at the int: error, int field left at 0. */
  lemma StringBoolIntRunsOut()
    ensures Populate(ZeroRecord([String, Bool, Int]), [2, 104, 105], 0)
            == Populated([StringValue([2, 104]), BoolValue(false), IntValue(0)], 3, Some(NotEnoughBytesForInt))
  {
    var data: seq<byte> := [2, 104, 105];
    var fields := ZeroRecord([String, Bool, Int]);
    assert fields == [StringValue([]), BoolValue(false), IntValue(0)];
    assert data[0..2] == [2, 104];
    assert DecodeField(fields[0], data, 0) == Decoded(StringValue([2, 104]), 2, None);
    assert DecodeField(fields[1], data, 2) == Decoded(BoolValue(false), 3, None);
    assert fields[1..][1..] == fields[2..];
    assert Populate(fields[2..], data, 3) == Populated([IntValue(0)], 3, Some(NotEnoughBytesForInt));
    assert Populate(fields[1..], data, 2) == Populated([BoolValue(false), IntValue(0)], 3, Some(NotEnoughBytesForInt));
  }

  /**
   The name `reflect` reports for the type of a field of each listed kind.
   `byte` is an alias of `uint8`, so the type of a `[]byte` field is
   reported as "[]uint8". Fields of any other type have names outside the
   switch's cases.
   */
  function ReflectTypeName(k: FieldKind): (name: string)
    requires k != Other
    ensures name != "[]byte"
    ensures name == "[]uint8" <==> k == Bytes
    ensures k != Bytes ==> name in {"string", "bool", "int", "[]string"}
  {
    match k
    case String => "string"
    case Bool => "bool"
    case Int => "int"
    case Bytes => "[]uint8"
    case StringSlice => "[]string"
  }

  /** The case of the type switch in `GenerateStruct` that a type name selects. */
  function SwitchCase(typeName: string): (k: FieldKind)
    ensures k == Other <==> typeName !in {"string", "bool", "int", "[]string", "[]byte"}
    ensures k == Bytes <==> typeName == "[]byte"
  {
    if typeName == "string" then String
    else if typeName == "bool" then Bool
    else if typeName == "int" then Int
    else if typeName == "[]string" then StringSlice
    else if typeName == "[]byte" then Bytes
    else Other
  }

  /** The kind the switch actually treats a field as, given the name `reflect` reports for its type. */
  function AsWrittenKind(v: Value): FieldKind {
    if Kind(v) == Other then Other else SwitchCase(ReflectTypeName(Kind(v)))
  }

  /**
   The switch compares against "[]byte", a name `reflect` never reports, so
   a `[]byte` field falls to the default case; every other field lands in
   the case of its own kind.
   */
  lemma AsWrittenKindOfField(v: Value)
    ensures AsWrittenKind(v) == (if Kind(v) == Bytes then Other else Kind(v))
  {
  }

  /** One field's step as the code is written: a `[]byte` field is skipped like any unlisted type. */
  function DecodeFieldAsWritten(v: Value, data: seq<byte>, pos: nat): (r: Decoded<Value>)
    requires pos <= |data|
    ensures Kind(v) == Bytes ==> r == Decoded(v, pos, None)
    ensures Kind(v) != Bytes ==> r == DecodeField(v, data, pos)
  {
    AsWrittenKindOfField(v);
    if Decodable(AsWrittenKind(v)) then DecodeField(v, data, pos) else Decoded(v, pos, None)
  }

  /** Filling as the code is written: the fold of `Populate` over `DecodeFieldAsWritten`. */
  function PopulateAsWritten(fields: seq<Value>, data: seq<byte>, pos: nat): (r: Populated)
    requires pos <= |data|
    ensures |r.fields| == |fields|
    ensures forall i {:trigger r.fields[i]} :: 0 <= i < |fields| && Kind(fields[i]) == Bytes ==> r.fields[i] == fields[i]
    ensures pos <= r.position <= |data|
    decreases |fields|
  {
    if |fields| == 0 then
      Populated([], pos, None)
    else
      var d := DecodeFieldAsWritten(fields[0], data, pos);
      if !d.Ok() then
        Populated(fields, pos, d.error)
      else
        Prepend([d.value], PopulateAsWritten(fields[1..], data, d.position))
  }

  /** Records without a `[]byte` field are filled the same way as written and as intended. */
  lemma {:induction false} AsWrittenAgreesWithoutByteSlices(fields: seq<Value>, data: seq<byte>, pos: nat)
    requires pos <= |data|
    requires forall i :: 0 <= i < |fields| ==> Kind(fields[i]) != Bytes
    ensures PopulateAsWritten(fields, data, pos) == Populate(fields, data, pos)
    decreases |fields|
  {
    if |fields| > 0 {
      var d := DecodeField(fields[0], data, pos);
      if d.Ok() {
        forall i | 0 <= i < |fields[1..]| ensures Kind(fields[1..][i]) != Bytes {
          assert fields[1..][i] == fields[i + 1];
        }
        AsWrittenAgreesWithoutByteSlices(fields[1..], data, d.position);
      }
    }
  }

  /**
   The record `struct{ B []byte }` and the buffer `[1, 5]`: as written, `B`
   is left as it was, no byte is read and no error is returned; as
   intended, `B` gets `[1]` and the cursor moves to 1.
   */
  lemma ByteSliceFieldIsSkipped()
    ensures var fields := [BytesValue([])];
            var data: seq<byte> := [1, 5];
            && PopulateAsWritten(fields, data, 0) == Populated(fields, 0, None)
            && Populate(fields, data, 0) == Populated([BytesValue([1])], 1, None)
  {
    var data: seq<byte> := [1, 5];
    assert data[0..0 + data[0] as int] == [1];
  }

  /** The fields that are not `[]byte` fields, in order. */
  function WithoutBytes(fields: seq<Value>): (r: seq<Value>)
    ensures |r| <= |fields|
    ensures forall i :: 0 <= i < |r| ==> Kind(r[i]) != Bytes
  {
    if |fields| == 0 then []
    else (if Kind(fields[0]) == Bytes then [] else [fields[0]]) + WithoutBytes(fields[1..])
  }

  /**
   As written, a `[]byte` field is passed over and filling goes on with the
   next field: the fold as written reads the buffer exactly as the intended
   fold does on the record without its `[]byte` fields, with the same
   values, final cursor and error.
   */
  lemma {:induction false} AsWrittenDropsByteSlices(fields: seq<Value>, data: seq<byte>, pos: nat)
    requires pos <= |data|
    ensures var r := PopulateAsWritten(fields, data, pos);
            var s := Populate(WithoutBytes(fields), data, pos);
            && r.position == s.position
            && r.error == s.error
            && WithoutBytes(r.fields) == s.fields
    decreases |fields|
  {
    if |fields| > 0 {
      var d := DecodeFieldAsWritten(fields[0], data, pos);
      var wb := WithoutBytes(fields);
      if Kind(fields[0]) == Bytes {
        assert wb == WithoutBytes(fields[1..]);
      } else {
        assert wb == [fields[0]] + WithoutBytes(fields[1..]);
        assert wb[0] == fields[0] && wb[1..] == WithoutBytes(fields[1..]);
      }
      if d.Ok() {
        AsWrittenDropsByteSlices(fields[1..], data, d.position);
        var rest := PopulateAsWritten(fields[1..], data, d.position);
        var r := PopulateAsWritten(fields, data, pos);
        assert r.fields == [d.value] + rest.fields;
        assert r.fields[0] == d.value && r.fields[1..] == rest.fields;
      } else {
        assert Kind(fields[0]) != Bytes;
      }
    }
  }

  /**
   The record `struct{ B []byte; I int }` and the buffer `[7]`: as written,
   `B` is passed over and `I` gets 7 at position 1.
   */
  lemma ByteSliceThenIntExample()
    ensures PopulateAsWritten([BytesValue([]), IntValue(0)], [7], 0)
            == Populated([BytesValue([]), IntValue(7)], 1, None)
  {
  }
}

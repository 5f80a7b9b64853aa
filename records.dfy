/** Record: a list of fields and the schema they follow. A record is
    written field after field at a running offset, each field taking the
    length of its type; reading a record back overwrites its fields in
    place. Field objects are values here: updating a field in place is
    replacing it in the record's list. */
module Records {
  import opened Outcomes
  import opened Bytes
  import opened StringUtils
  import opened Fields
  import opened Schemas

  /** The fields after a deserialize and how it ended: on an exception the
      fields before the failing one hold their new values, the rest their old. */
  datatype Loaded = Loaded(fields: seq<Field>, outcome: Outcome)

  /** The bytes a list of fields takes up: the sum of their types' lengths. */
  function FieldsLen(fs: seq<Field>): int {
    if fs == [] then 0 else Len(TypeOf(fs[0])) + FieldsLen(fs[1..])
  }

  /** Every string field holds no more characters than its type allows. */
  predicate AllFit(fs: seq<Field>) {
    forall i :: 0 <= i < |fs| ==> Fits(fs[i])
  }

  /** Two lists of fields of the same types, position by position. */
  predicate SameTypes(fs: seq<Field>, gs: seq<Field>) {
    |fs| == |gs| && forall i :: 0 <= i < |fs| ==> TypeOf(fs[i]) == TypeOf(gs[i])
  }

  /** Record.equals on the field lists: the same number of fields, and
      equal fields position by position. */
  predicate SameValues(fs: seq<Field>, gs: seq<Field>) {
    |fs| == |gs| && forall i :: 0 <= i < |fs| ==> FieldEquals(fs[i], gs[i])
  }

  /** Record.serialize as a function of the buffer's contents: each field at
      the offset after the previous field's type length; the first exception
      stops the writing, with the fields before it written. */
  function WriteFields(buf: seq<byte>, index: int, fs: seq<Field>): (w: Written)
    ensures |w.bytes| == |buf|
    decreases |fs|
  {
    if fs == [] then Written(buf, Done)
    else
      var w := WriteField(buf, index, fs[0]);
      if w.outcome.Thrown? then w
      else WriteFields(w.bytes, index + Len(TypeOf(fs[0])), fs[1..])
  }

  /** Record.deserialize as a function: `done` holds the fields already
      read, `rest` the fields still to read, the next at `at`; each field
      is replaced by the value read, and the first exception stops it,
      leaving the fields not yet read as they were. */
  function ReadFields(buf: seq<byte>, at: int, rest: seq<Field>, done: seq<Field>): (r: Loaded)
    ensures |r.fields| == |done| + |rest|
    decreases |rest|
  {
    if rest == [] then Loaded(done, Done)
    else
      match DeserializeField(buf, at, rest[0])
      case Fail(e) => Loaded(done + rest, Thrown(e))
      case Ok(g) => ReadFields(buf, at + Len(TypeOf(rest[0])), rest[1..], done + [g])
  }

  /** A record whose field types are those of its schema, position by position. */
  ghost predicate Conforms(fs: seq<Field>, s: Schema)
    reads s
  {
    |fs| == |s.ftypes| && forall i :: 0 <= i < |fs| ==> TypeOf(fs[i]) == s.ftypes[i]
  }

  class Record {
    var fields: seq<Field>
    var schema: Schema

    /** new Record(fields, schema) with the size check the constructor makes. */
    constructor (fields: seq<Field>, schema: Schema)
      requires |fields| == schema.Size()
      ensures this.fields == fields && this.schema == schema
    {
      this.fields := fields;
      this.schema := schema;
    }

    /** new Record(fields, schema): throws IllegalArgumentException when the
        number of fields differs from the schema's size; the types are not
        compared. */
    static method New(fields: seq<Field>, schema: Schema) returns (r: Result<Record>)
      ensures r.Ok? <==> |fields| == schema.Size()
      ensures r.Ok? ==> fresh(r.value) && r.value.fields == fields && r.value.schema == schema
      ensures r.Fail? ==> r.error == IllegalArgument
    {
      if |fields| != schema.Size() {
        return Fail(IllegalArgument);
      }
      var rec := new Record(fields, schema);
      return Ok(rec);
    }

    /** Record.size */
    function Size(): int
      reads this
    {
      |fields|
    }

    /** Record.get: List.get throws for an index outside the list. */
    function Get(i: int): (r: Result<Field>)
      reads this
      ensures r.Ok? <==> 0 <= i < Size()
      ensures r.Ok? ==> r.value == fields[i]
      ensures r.Fail? ==> r.error == IndexOutOfBounds
    {
      if 0 <= i < |fields| then Ok(fields[i]) else Fail(IndexOutOfBounds)
    }

    /** Record.set: the schema's getType refuses an index outside the schema,
        a field of another type is refused, and otherwise field i alone is
        replaced. */
    method Set(i: int, f: Field) returns (o: Outcome)
      requires schema.Valid()
      modifies this
      ensures schema == old(schema)
      ensures o == Done <==> 0 <= i < schema.Size() && TypeOf(f) == schema.ftypes[i] && i < |old(fields)|
      ensures o == Done ==> fields == old(fields)[i := f]
      ensures o != Done ==> fields == old(fields)
      ensures o == Thrown(IllegalArgument) <==> !(0 <= i < schema.Size() && TypeOf(f) == schema.ftypes[i])
      ensures Conforms(old(fields), schema) ==> Conforms(fields, schema)
    {
      var t := schema.GetType(i);
      if t.Fail? {
        return Thrown(t.error);
      }
      if !TypeEquals(TypeOf(f), t.value) {
        return Thrown(IllegalArgument);
      }
      if i >= |fields| {
        return Thrown(IndexOutOfBounds);
      }
      fields := fields[i := f];
      o := Done;
    }

    /** Record.getKey: the value of field 0 (the key's index is always 0),
        which must be an IntField. */
    function GetKey(): (r: Result<Int32>)
      reads this
      ensures r.Ok? <==> Size() >= 1 && fields[0].IntField?
      ensures r.Ok? ==> r.value == fields[0].value
      ensures r.Fail? && Size() >= 1 ==> r.error == IllegalState
    {
      if |fields| == 0 then Fail(IndexOutOfBounds)
      else
        match fields[0]
        case IntField(v) => Ok(v)
        case StringField(_, _) => Fail(IllegalState)
    }

    /** Record.serialize */
    method Serialize(buf: array<byte>, index: int) returns (o: Outcome)
      modifies buf
      ensures Written(buf[..], o) == WriteFields(old(buf[..]), index, fields)
    {
      var at := index;
      var i := 0;
      o := Done;
      while i < |fields|
        invariant 0 <= i <= |fields| && o == Done
        invariant WriteFields(buf[..], at, fields[i..]) == WriteFields(old(buf[..]), index, fields)
      {
        TailOfSuffix(fields, i);
        o := SerializeField(fields[i], buf, at);
        if o.Thrown? {
          return;
        }
        at := at + Len(TypeOf(fields[i]));
        i := i + 1;
      }
      assert fields[i..] == [];
    }

    /** Record.deserialize: each field in turn takes the value read at the
        running offset. */
    method Deserialize(buf: array<byte>, index: int) returns (o: Outcome)
      modifies this
      ensures schema == old(schema)
      ensures Loaded(fields, o) == ReadFields(buf[..], index, old(fields), [])
      ensures Conforms(old(fields), schema) ==> Conforms(fields, schema)
    {
      var bytes := buf[..];
      var original := fields;
      var done: seq<Field> := [];
      var at := index;
      var i := 0;
      while i < |original|
        invariant 0 <= i <= |original| && |done| == i
        invariant fields == original && schema == old(schema)
        invariant ReadFields(bytes, at, original[i..], done) == ReadFields(bytes, index, original, [])
      {
        TailOfSuffix(original, i);
        var g := ReadNext(bytes, at, original[i..], done);
        if g.Fail? {
          fields := done + original[i..];
          ReadFieldsTypes(bytes, index, original, []);
          return Thrown(g.error);
        }
        at := at + Len(TypeOf(original[i]));
        done := done + [g.value];
        i := i + 1;
      }
      fields := done;
      o := Done;
      ReadFieldsTypes(bytes, index, original, []);
    }

    /** Record.equals: the other object must be a record with as many fields,
        and the fields must be equal position by position; the schemas are
        not compared. */
    method Equals(other: Record?) returns (b: bool)
      ensures b <==> other != null && SameValues(fields, other.fields)
    {
      if other == null {
        return false;
      }
      if other.Size() != Size() {
        return false;
      }
      var i := 0;
      while i < |fields|
        invariant 0 <= i <= |fields|
        invariant forall j :: 0 <= j < i ==> FieldEquals(fields[j], other.fields[j])
      {
        if !FieldEquals(fields[i], other.fields[i]) {
          return false;
        }
        i := i + 1;
      }
      return true;
    }
  }

  /** Reading past a field that reads back as `g`. */
  lemma ReadFieldsOk(buf: seq<byte>, at: int, rest: seq<Field>, done: seq<Field>, g: Field)
    requires rest != [] && DeserializeField(buf, at, rest[0]) == Ok(g)
    ensures ReadFields(buf, at, rest, done) == ReadFields(buf, at + Len(TypeOf(g)), rest[1..], done + [g])
  {
  }

  /** Deserialize keeps the type of every field. */
  lemma {:induction false} ReadFieldsTypes(buf: seq<byte>, at: int, rest: seq<Field>, done: seq<Field>)
    ensures SameTypes(ReadFields(buf, at, rest, done).fields, done + rest)
    decreases |rest|
  {
    if rest != [] {
      match DeserializeField(buf, at, rest[0])
      case Fail(_) =>
      case Ok(g) =>
        ReadFieldsTypes(buf, at + Len(TypeOf(rest[0])), rest[1..], done + [g]);
        assert (done + [g]) + rest[1..] == done + [g] + rest[1..];
    }
  }

  /** One pass of deserialize's loop: the first of `rest` is read at `at`. */
  method ReadNext(bytes: seq<byte>, at: int, rest: seq<Field>, ghost done: seq<Field>) returns (r: Result<Field>)
    requires rest != []
    ensures r.Fail? ==> ReadFields(bytes, at, rest, done) == Loaded(done + rest, Thrown(r.error))
    ensures r.Ok? ==> ReadFields(bytes, at, rest, done) == ReadFields(bytes, at + Len(TypeOf(rest[0])), rest[1..], done + [r.value])
  {
    r := DeserializeField(bytes, at, rest[0]);
  }

  /** Schema.blankRecord: one blank field per type of the schema; a string
      type with a negative maximum has no blank field, and the exception
      from its StringField constructor propagates. */
  method BlankRecord(schema: Schema) returns (r: Result<Record>)
    requires schema.Valid()
    ensures r.Ok? <==> forall i :: 0 <= i < |schema.ftypes| ==> BlankField(schema.ftypes[i]).Ok?
    ensures r.Ok? ==> fresh(r.value) && r.value.schema == schema && Conforms(r.value.fields, schema)
                      && forall i :: 0 <= i < |schema.ftypes| ==> r.value.fields[i] == BlankField(schema.ftypes[i]).value
    ensures r.Fail? ==> r.error == IllegalArgument
  {
    var fields: seq<Field> := [];
    var i := 0;
    while i < |schema.ftypes|
      invariant 0 <= i <= |schema.ftypes| && |fields| == i
      invariant forall j :: 0 <= j < i ==> BlankField(schema.ftypes[j]).Ok? && fields[j] == BlankField(schema.ftypes[j]).value
    {
      var f := BlankField(schema.ftypes[i]);
      if f.Fail? {
        return Fail(IllegalArgument);
      }
      fields := fields + [f.value];
      i := i + 1;
    }
    var rec := new Record(fields, schema);
    return Ok(rec);
  }

  /** A schema whose types are all valid always has a blank record. */
  lemma BlankFieldsOfWellFormed(names: seq<JString>, types: seq<FieldType>)
    requires WellFormed(names, types)
    ensures forall i :: 0 <= i < |types| ==> BlankField(types[i]).Ok?
  {
    forall i | 0 <= i < |types| {
      BlankFieldOfValidType(types[i]);
    }
  }

  /** The record length getLen computes from the schema is the length of a
      record that conforms to it. */
  lemma {:induction false} FieldsLenOfTypes(fs: seq<Field>, types: seq<FieldType>)
    requires |fs| == |types| && forall i :: 0 <= i < |fs| ==> TypeOf(fs[i]) == types[i]
    ensures FieldsLen(fs) == TotalLen(types)
    decreases |fs|
  {
    if fs != [] {
      FieldsLenOfTypes(fs[1..], types[1..]);
    }
  }

  /** A field that fits its type takes at least the four bytes of its length
      or value, and no more than its type's length. */
  lemma FieldFitsLen(f: Field)
    requires Fits(f)
    ensures INT_BYTES <= |EncodeField(f)| <= Len(TypeOf(f))
  {
  }

  /** The field writes reach nothing below their start. */
  lemma {:induction false} WriteFieldsBelow(buf: seq<byte>, index: int, fs: seq<Field>)
    requires AllFit(fs)
    ensures forall i :: 0 <= i < index && i < |buf| ==> WriteFields(buf, index, fs).bytes[i] == buf[i]
    decreases |fs|
  {
    if fs != [] {
      FieldFitsLen(fs[0]);
      var w := WriteField(buf, index, fs[0]);
      WriteFieldEffect(buf, index, fs[0]);
      if w.outcome.Done? {
        WriteFieldsBelow(w.bytes, index + Len(TypeOf(fs[0])), fs[1..]);
      }
    }
  }

  /** Fields that fit their types are all written when the buffer has room
      for the record. */
  lemma {:induction false} WriteFieldsDone(buf: seq<byte>, index: int, fs: seq<Field>)
    requires AllFit(fs)
    requires 0 <= index && index + FieldsLen(fs) <= |buf|
    ensures WriteFields(buf, index, fs).outcome == Done
    decreases |fs|
  {
    if fs != [] {
      FieldFitsLen(fs[0]);
      FieldsLenNonNegative(fs[1..]);
      var w := WriteField(buf, index, fs[0]);
      WriteFieldsDone(w.bytes, index + Len(TypeOf(fs[0])), fs[1..]);
    }
  }

  /** Fields that fit their types take up no negative room. */
  lemma {:induction false} FieldsLenNonNegative(fs: seq<Field>)
    requires AllFit(fs)
    ensures FieldsLen(fs) >= 0
    decreases |fs|
  {
    if fs != [] {
      FieldFitsLen(fs[0]);
      FieldsLenNonNegative(fs[1..]);
    }
  }

  /** Record.serialize leaves alone every byte from the end of the record
      on, for fields that fit their types. */
  lemma {:induction false} WriteFieldsAbove(buf: seq<byte>, index: int, fs: seq<Field>, end: int)
    requires AllFit(fs)
    requires 0 <= index && end == index + FieldsLen(fs)
    ensures forall i :: 0 <= i < |buf| && end <= i ==> WriteFields(buf, index, fs).bytes[i] == buf[i]
    decreases |fs|
  {
    if fs != [] {
      FieldFitsLen(fs[0]);
      FieldsLenNonNegative(fs[1..]);
      var w := WriteField(buf, index, fs[0]);
      WriteFieldEffect(buf, index, fs[0]);
      if w.outcome.Done? {
        WriteFieldsAbove(w.bytes, index + Len(TypeOf(fs[0])), fs[1..], end);
        var rest := WriteFields(w.bytes, index + Len(TypeOf(fs[0])), fs[1..]).bytes;
        assert WriteFields(buf, index, fs).bytes == rest;
        forall i | end <= i < |buf| ensures rest[i] == buf[i] {
          assert rest[i] == w.bytes[i];
        }
      }
    }
  }

  /** Record.serialize touches only the getLen() bytes from `index`. */
  lemma RecordFootprint(buf: seq<byte>, index: int, fs: seq<Field>)
    requires AllFit(fs) && 0 <= index
    ensures forall i :: 0 <= i < |buf| && !(index <= i < index + FieldsLen(fs)) ==> WriteFields(buf, index, fs).bytes[i] == buf[i]
  {
    WriteFieldsBelow(buf, index, fs);
    WriteFieldsAbove(buf, index, fs, index + FieldsLen(fs));
  }

  /** Sequences that agree on [lo, hi) have the same slice there. */
  lemma SliceOfAgreeing(a: seq<byte>, b: seq<byte>, lo: int, hi: int, end: int)
    requires 0 <= lo <= hi <= end && hi <= |a| == |b|
    requires forall i :: 0 <= i < end && i < |b| ==> a[i] == b[i]
    ensures a[lo..hi] == b[lo..hi]
  {
  }

  /** The bytes from `index` on hold the fields' encodings, each one at the
      offset after the previous fields' type lengths. */
  predicate LaidOut(buf: seq<byte>, index: int, gs: seq<Field>)
    decreases |gs|
  {
    gs == [] ||
    (&& 0 <= index && index + |EncodeField(gs[0])| <= |buf|
     && buf[index..index + |EncodeField(gs[0])|] == EncodeField(gs[0])
     && LaidOut(buf, index + Len(TypeOf(gs[0])), gs[1..]))
  }

  /** Record.serialize lays every field out at its offset, when every field
      fits its type and the buffer has room for the record. */
  lemma {:induction false} WriteFieldsLaidOut(buf: seq<byte>, index: int, gs: seq<Field>)
    requires AllFit(gs)
    requires 0 <= index && index + FieldsLen(gs) <= |buf|
    ensures LaidOut(WriteFields(buf, index, gs).bytes, index, gs)
    decreases |gs|
  {
    if gs != [] {
      var g := gs[0];
      var len := Len(TypeOf(g));
      FieldFitsLen(g);
      FieldsLenNonNegative(gs[1..]);
      var w := WriteField(buf, index, g);
      WriteFieldEffect(buf, index, g);
      var e := EncodeField(g);
      assert w.bytes[index..index + |e|] == e;
      var final := WriteFields(w.bytes, index + len, gs[1..]).bytes;
      assert WriteFields(buf, index, gs).bytes == final;
      WriteFieldsBelow(w.bytes, index + len, gs[1..]);
      SliceOfAgreeing(final, w.bytes, index, index + |e|, index + len);
      WriteFieldsLaidOut(w.bytes, index + len, gs[1..]);
    }
  }

  /** Deserializing fields of the same types from bytes that hold their
      encodings gives those fields back, after the ones already read. */
  lemma {:induction false} ReadLaidOut(buf: seq<byte>, index: int, fs: seq<Field>, gs: seq<Field>, done: seq<Field>)
    requires SameTypes(fs, gs) && LaidOut(buf, index, gs)
    ensures ReadFields(buf, index, fs, done) == Loaded(done + gs, Done)
    decreases |gs|
  {
    if gs == [] {
      assert fs == [] && done + gs == done;
    } else {
      var g := gs[0];
      var next := index + Len(TypeOf(g));
      assert LaidOut(buf, next, gs[1..]);
      ReadLaidOut(buf, next, fs[1..], gs[1..], done + [g]);
      ReadLaidOutStep(buf, index, fs, gs, done);
    }
  }

  /** The first field reads back, and the rest as the bytes after it do. */
  lemma ReadLaidOutStep(buf: seq<byte>, index: int, fs: seq<Field>, gs: seq<Field>, done: seq<Field>)
    requires SameTypes(fs, gs) && gs != [] && LaidOut(buf, index, gs)
    requires ReadFields(buf, index + Len(TypeOf(gs[0])), fs[1..], done + [gs[0]]) == Loaded((done + [gs[0]]) + gs[1..], Done)
    ensures ReadFields(buf, index, fs, done) == Loaded(done + gs, Done)
  {
    LaidOutHead(buf, index, fs[0], gs);
    ReadFieldsOk(buf, index, fs, done, gs[0]);
    ConcatHead(done, gs);
  }

  /** The first field laid out reads back. */
  lemma LaidOutHead(buf: seq<byte>, index: int, f: Field, gs: seq<Field>)
    requires gs != [] && TypeOf(f) == TypeOf(gs[0]) && LaidOut(buf, index, gs)
    ensures DeserializeField(buf, index, f) == Ok(gs[0])
  {
    DeserializeEncodedField(buf, index, f, gs[0]);
  }

  /** The suffix from i, less its first element, is the suffix from i + 1. */
  lemma TailOfSuffix(s: seq<Field>, i: int)
    requires 0 <= i < |s|
    ensures s[i..][0] == s[i] && s[i..][1..] == s[i + 1..]
  {
  }

  /** Moving the first element of `gs` to the end of `done`. */
  lemma ConcatHead(done: seq<Field>, gs: seq<Field>)
    requires gs != []
    ensures (done + [gs[0]]) + gs[1..] == done + gs
  {
    assert [gs[0]] + gs[1..] == gs;
  }

  /** Serialize then deserialize into a record of the same types: nothing
      throws, and the record read equals the one written. */
  lemma RecordRoundTrip(buf: seq<byte>, index: int, fs: seq<Field>, gs: seq<Field>)
    requires SameTypes(fs, gs) && AllFit(gs)
    requires 0 <= index && index + FieldsLen(gs) <= |buf|
    ensures WriteFields(buf, index, gs).outcome == Done
    ensures ReadFields(WriteFields(buf, index, gs).bytes, index, fs, []).outcome == Done
    ensures SameValues(ReadFields(WriteFields(buf, index, gs).bytes, index, fs, []).fields, gs)
  {
    WriteFieldsDone(buf, index, gs);
    WriteFieldsLaidOut(buf, index, gs);
    ReadLaidOut(WriteFields(buf, index, gs).bytes, index, fs, gs, []);
    assert [] + gs == gs;
    forall i | 0 <= i < |gs| ensures FieldEquals(gs[i], gs[i]) {
      FieldEqualsProperties(gs[i], gs[i], gs[i]);
    }
  }

  /** Record.equals is an equivalence, and on records of the same types it
      is equality of their fields. */
  lemma SameValuesProperties(a: seq<Field>, b: seq<Field>, c: seq<Field>)
    ensures SameValues(a, a)
    ensures SameValues(a, b) ==> SameValues(b, a)
    ensures SameValues(a, b) && SameValues(b, c) ==> SameValues(a, c)
    ensures SameValues(a, b) && SameTypes(a, b) ==> a == b
  {
    forall i | 0 <= i < |a| {
      FieldEqualsProperties(a[i], a[i], a[i]);
    }
    if SameValues(a, b) {
      forall i | 0 <= i < |a| ensures FieldEquals(b[i], a[i]) {
        FieldEqualsProperties(a[i], b[i], a[i]);
      }
      if SameValues(b, c) {
        forall i | 0 <= i < |a| ensures FieldEquals(a[i], c[i]) {
          FieldEqualsProperties(a[i], b[i], c[i]);
        }
      }
      if SameTypes(a, b) {
        forall i | 0 <= i < |a| ensures a[i] == b[i] {
          FieldEqualsProperties(a[i], b[i], a[i]);
        }
      }
    }
  }
}

/** Schema: the names and types of a record's fields, the first of which is
    the integer key, and the schema's own binary layout in a buffer. */
module Schemas {
  import opened Outcomes
  import opened Bytes
  import opened StringUtils
  import opened Fields

  /** Schema.maxFieldNameLength */
  const MAX_FIELD_NAME_LENGTH: int := 24

  /** Bytes from the start of a field's name to its type tag in the serialized schema. */
  const NAME_SLOT: int := MAX_FIELD_NAME_LENGTH + INT_BYTES

  /** Bytes per field in the serialized schema: the name slot and the type tag. */
  const ENTRY_SIZE: int := NAME_SLOT + INT_BYTES

  /** The field names and types of a schema, as values. */
  datatype SchemaValue = SchemaValue(names: seq<JString>, types: seq<FieldType>)

  /** Sum of Type.getLen over a list of types. */
  function TotalLen(types: seq<FieldType>): int {
    if types == [] then 0 else Len(types[0]) + TotalLen(types[1..])
  }

  /** Adding one more type adds its length. */
  lemma {:induction false} TotalLenSnoc(types: seq<FieldType>, t: FieldType)
    ensures TotalLen(types + [t]) == TotalLen(types) + Len(t)
  {
    if types != [] {
      assert (types + [t])[1..] == types[1..] + [t];
      TotalLenSnoc(types[1..], t);
    }
  }

  /** Position of the first occurrence of `x` in `s`, or -1 (List.indexOf). */
  function IndexOf(s: seq<JString>, x: JString): (i: int)
    ensures i == -1 <==> x !in s
    ensures 0 <= i ==> i < |s| && s[i] == x && forall j :: 0 <= j < i ==> s[j] != x
  {
    if s == [] then -1
    else if s[0] == x then 0
    else
      var i := IndexOf(s[1..], x);
      if i < 0 then -1 else i + 1
  }

  /** The type tag serialize writes: 0 for int, maxChars for a string. */
  function TypeTag(t: FieldType): Int32 {
    match t
    case IntType => 0
    case StringType(m) => m
  }

  /** The serialized schema, as written by Schema.serialize: the field count
      with the absolute putInt, then one entry per field. */
  function WriteSchema(buf: seq<byte>, index: int, names: seq<JString>, types: seq<FieldType>): (w: Written)
    requires |names| == |types| && IsInt(|names|)
    ensures |w.bytes| == |buf|
  {
    if 0 <= index <= |buf| - INT_BYTES then
      WriteEntries(Splice(buf, index, EncodeInt(|names|)), index + INT_BYTES, names, types)
    else
      Written(buf, Thrown(IndexOutOfBounds))
  }

  /** One field's entry at `at`: the name through StringUtils.serializeString,
      then, NAME_SLOT bytes after the name's start, the type tag with the
      absolute putInt. */
  function WriteEntry(buf: seq<byte>, at: int, name: JString, t: FieldType): (w: Written)
    ensures |w.bytes| == |buf|
    ensures |name| <= MAX_FIELD_NAME_LENGTH ==> (w.outcome == Done <==> 0 <= at && at + ENTRY_SIZE <= |buf|)
    ensures |name| <= MAX_FIELD_NAME_LENGTH ==>
              forall i :: 0 <= i < |buf| && !(at <= i < at + ENTRY_SIZE) ==> w.bytes[i] == buf[i]
    ensures forall i :: 0 <= i < at && i < |buf| ==> w.bytes[i] == buf[i]
  {
    var w := WriteString(buf, at, name);
    if w.outcome.Thrown? then w
    else if !(0 <= at + NAME_SLOT <= |buf| - INT_BYTES) then Written(w.bytes, Thrown(IndexOutOfBounds))
    else Written(Splice(w.bytes, at + NAME_SLOT, EncodeInt(TypeTag(t))), Done)
  }

  /** The entries from `at` on, one after the other; the first exception
      stops the writing. */
  function WriteEntries(buf: seq<byte>, at: int, names: seq<JString>, types: seq<FieldType>): (w: Written)
    requires |names| == |types|
    ensures |w.bytes| == |buf|
    decreases |names|
  {
    if names == [] then Written(buf, Done)
    else
      var w := WriteEntry(buf, at, names[0], types[0]);
      if w.outcome.Thrown? then w
      else WriteEntries(w.bytes, at + ENTRY_SIZE, names[1..], types[1..])
  }

  /** The schema serialize/deserialize read back, or None where deserialize
      returns null (a field count of zero or less). */
  function ReadSchema(buf: seq<byte>, index: int): Result<Option<SchemaValue>> {
    match GetInt(buf, index)
    case Fail(e) => Fail(e)
    case Ok(n) => ReadEntries(buf, index + INT_BYTES, n, None)
  }

  /** The type a tag stands for: 0 is int, a positive tag a string type made
      with the StringType constructor, a negative tag is an error. */
  function TypeOfTag(tag: Int32): Result<FieldType> {
    if tag == 0 then Ok(IntType)
    else if tag > 0 then NewStringType(tag)
    else Fail(IllegalState)
  }

  /** One entry read back: the name, then the type whose tag is NAME_SLOT
      bytes after the name's start. */
  function ReadEntry(buf: seq<byte>, at: int): Result<(JString, FieldType)> {
    match DeserializeString(buf, at)
    case Fail(e) => Fail(e)
    case Ok(name) =>
      match GetInt(buf, at + NAME_SLOT)
      case Fail(e) => Fail(e)
      case Ok(tag) =>
        match TypeOfTag(tag)
        case Fail(e) => Fail(e)
        case Ok(t) => Ok((name, t))
  }

  /** Schema.deserialize's loop with `remaining` fields still to read; `acc`
      is the schema built so far (None while it is still null). The first
      field makes the schema and must be an int; later fields go through
      `add`, which refuses names over 24 characters. */
  function ReadEntries(buf: seq<byte>, at: int, remaining: int, acc: Option<SchemaValue>): Result<Option<SchemaValue>>
    decreases remaining
  {
    if remaining <= 0 then Ok(acc)
    else
      match ReadEntry(buf, at)
      case Fail(e) => Fail(e)
      case Ok((name, t)) =>
        match acc
        case None =>
          if t != IntType then Fail(IllegalState)
          else ReadEntries(buf, at + ENTRY_SIZE, remaining - 1, Some(SchemaValue([name], [t])))
        case Some(sv) =>
          if |name| > MAX_FIELD_NAME_LENGTH then Fail(IllegalArgument)
          else ReadEntries(buf, at + ENTRY_SIZE, remaining - 1, Some(SchemaValue(sv.names + [name], sv.types + [t])))
  }

  /** The schemas the engine accepts: names and types line up, the key is
      the first field and an int, and every type has blank fields. */
  predicate WellFormed(names: seq<JString>, types: seq<FieldType>) {
    && |names| == |types| >= 1
    && types[0] == IntType
    && forall i :: 0 <= i < |types| ==> ValidType(types[i])
  }

  /** Every name fits its 24-byte slot. */
  predicate NamesFit(names: seq<JString>) {
    forall i :: 0 <= i < |names| ==> |names[i]| <= MAX_FIELD_NAME_LENGTH
  }

  class Schema {
    var fnames: seq<JString>
    var ftypes: seq<FieldType>
    var key: JString

    /** The invariants the class comments state and its operations keep:
        names and types line up, and the key is the first field, an int.
        Uniqueness of the names is claimed but never checked. */
    ghost predicate Valid()
      reads this
    {
      |fnames| == |ftypes| >= 1 && ftypes[0] == IntType && key == fnames[0]
    }

    /** new Schema(key, IntType.getInstance()): the key's name is not checked
        against the 24-character limit. */
    constructor (key: JString)
      ensures Valid() && fnames == [key] && ftypes == [IntType] && this.key == key
    {
      fnames := [key];
      ftypes := [IntType];
      this.key := key;
    }

    /** The constructor with the evidently intended check on the key's name,
        the one `add` makes for every other field. */
    static method Checked(key: JString) returns (r: Result<Schema>)
      ensures r.Ok? <==> |key| <= MAX_FIELD_NAME_LENGTH
      ensures r.Ok? ==> fresh(r.value) && r.value.Valid() && NamesFit(r.value.fnames)
                        && r.value.fnames == [key] && r.value.ftypes == [IntType]
      ensures r.Fail? ==> r.error == IllegalArgument
    {
      if |key| > MAX_FIELD_NAME_LENGTH {
        return Fail(IllegalArgument);
      }
      var s := new Schema(key);
      return Ok(s);
    }

    /** Schema.add: refuses a name longer than 24 characters, otherwise
        appends the field; a name already present is appended again. */
    method Add(fname: JString, ftype: FieldType) returns (o: Outcome)
      requires Valid()
      modifies this
      ensures Valid() && key == old(key)
      ensures o == Done <==> |fname| <= MAX_FIELD_NAME_LENGTH
      ensures o == Done ==> fnames == old(fnames) + [fname] && ftypes == old(ftypes) + [ftype]
      ensures o != Done ==> o == Thrown(IllegalArgument) && fnames == old(fnames) && ftypes == old(ftypes)
      ensures NamesFit(old(fnames)) ==> NamesFit(fnames)
    {
      if |fname| > MAX_FIELD_NAME_LENGTH {
        return Thrown(IllegalArgument);
      }
      fnames := fnames + [fname];
      ftypes := ftypes + [ftype];
      o := Done;
    }

    /** Schema.size */
    function Size(): int
      reads this
    {
      |fnames|
    }

    /** Schema.getKeyIndex: the key is always field 0. */
    function GetKeyIndex(): (i: int)
      reads this
      requires Valid()
      ensures 0 <= i < Size() && fnames[i] == key && ftypes[i] == IntType
    {
      0
    }

    /** Schema.getFieldIndex: the first field with that name, or -1. */
    function GetFieldIndex(fname: JString): (i: int)
      reads this
      ensures i == -1 <==> fname !in fnames
      ensures 0 <= i ==> i < |fnames| && fnames[i] == fname && forall j :: 0 <= j < i ==> fnames[j] != fname
    {
      IndexOf(fnames, fname)
    }

    /** Schema.getType(int): throws for an index outside the schema. */
    function GetType(i: int): (r: Result<FieldType>)
      reads this
      requires Valid()
      ensures r.Ok? <==> 0 <= i < Size()
      ensures r.Ok? ==> r.value == ftypes[i]
      ensures r.Fail? ==> r.error == IllegalArgument
    {
      if i < 0 || i >= |ftypes| then Fail(IllegalArgument) else Ok(ftypes[i])
    }

    /** Schema.getType(String): the type of the first field with that name, or null. */
    function GetTypeOf(fname: JString): (r: Option<FieldType>)
      reads this
      requires Valid()
      ensures r.Some? <==> fname in fnames
      ensures r.Some? ==> exists i :: 0 <= i < |fnames| && fnames[i] == fname && r.value == ftypes[i]
    {
      var i := IndexOf(fnames, fname);
      if i < 0 then None else Some(ftypes[i])
    }

    /** Schema.getName: throws for an index outside the schema. */
    function GetName(i: int): (r: Result<JString>)
      reads this
      requires Valid()
      ensures r.Ok? <==> 0 <= i < Size()
      ensures r.Ok? ==> r.value == fnames[i]
      ensures r.Fail? ==> r.error == IllegalArgument
    {
      if i < 0 || i >= |ftypes| then Fail(IllegalArgument) else Ok(fnames[i])
    }

    /** Schema.getLen: the record length, the sum of the fields' lengths. */
    method GetLen() returns (n: int)
      ensures n == TotalLen(ftypes)
    {
      n := 0;
      var i := 0;
      while i < |ftypes|
        invariant 0 <= i <= |ftypes|
        invariant n == TotalLen(ftypes[..i])
      {
        TotalLenSnoc(ftypes[..i], ftypes[i]);
        assert ftypes[..i + 1] == ftypes[..i] + [ftypes[i]];
        n := n + Len(ftypes[i]);
        i := i + 1;
      }
      assert ftypes[..i] == ftypes;
    }

    /** Schema.serialize: the field count, then each field's name and type tag. */
    method Serialize(buf: array<byte>, index: int) returns (o: Outcome)
      requires Valid() && IsInt(|fnames|)
      modifies buf
      ensures Written(buf[..], o) == WriteSchema(old(buf[..]), index, fnames, ftypes)
    {
      var numFields := |fnames|;
      o := PutInt(buf, index, numFields);
      if o.Thrown? {
        return;
      }
      var at := index + INT_BYTES;
      var i := 0;
      while i < numFields
        invariant 0 <= i <= numFields
        invariant WriteEntries(buf[..], at, fnames[i..], ftypes[i..]) == WriteSchema(old(buf[..]), index, fnames, ftypes)
      {
        assert fnames[i..][1..] == fnames[i + 1..] && ftypes[i..][1..] == ftypes[i + 1..];
        o := SerializeString(fnames[i], buf, at);
        if o.Thrown? {
          return;
        }
        at := at + NAME_SLOT;
        o := PutInt(buf, at, TypeTag(ftypes[i]));
        if o.Thrown? {
          return;
        }
        at := at + INT_BYTES;
        i := i + 1;
      }
      o := Done;
    }

    /** One pass of deserialize's loop: reads the entry at `at`; the first
        field starts a new schema (and must be the int key), later ones are
        added to `recType`. */
    static method ReadField(bytes: seq<byte>, at: int, recType: Schema?, ghost remaining: int) returns (r: Result<Schema>)
      requires remaining > 0
      requires recType != null ==> recType.Valid()
      modifies recType
      ensures r.Ok? ==> r.value.Valid() && (if recType == null then fresh(r.value) else r.value == recType)
      ensures r.Fail? ==> ReadEntries(bytes, at, remaining, old(ValueOf(recType))) == Fail(r.error)
      ensures r.Ok? ==> ReadEntries(bytes, at, remaining, old(ValueOf(recType)))
                        == ReadEntries(bytes, at + ENTRY_SIZE, remaining - 1, ValueOf(r.value))
    {
      var entry := ReadEntry(bytes, at);
      if entry.Fail? {
        return Fail(entry.error);
      }
      var (name, t) := entry.value;
      ReadEntriesStep(bytes, at, remaining, ValueOf(recType), name, t);
      if recType == null {
        if t != IntType {
          return Fail(IllegalState);
        }
        var s := new Schema(name);
        return Ok(s);
      }
      var added := recType.Add(name, t);
      if added.Thrown? {
        return Fail(added.error);
      }
      return Ok(recType);
    }

    /** Schema.deserialize: builds a new schema from the bytes at `index`, or
        returns null when the field count is zero or less. */
    static method Deserialize(buf: array<byte>, index: int) returns (r: Result<Schema?>)
      ensures r.Ok? && r.value != null ==> fresh(r.value) && r.value.Valid()
      ensures SnapshotOrNull(r) == ReadSchema(buf[..], index)
    {
      var bytes := buf[..];
      var count := GetInt(bytes, index);
      if count.Fail? {
        return Fail(count.error);
      }
      var numFields: int := count.value;
      var at := index + INT_BYTES;
      var recType: Schema? := null;
      ghost var left, acc := numFields, None;
      var i := 0;
      while i < numFields
        invariant left == numFields - i
        invariant recType != null ==> fresh(recType) && recType.Valid()
        invariant acc == ValueOf(recType)
        invariant ReadEntries(bytes, at, left, acc) == ReadSchema(bytes, index)
      {
        var added := ReadField(bytes, at, recType, left);
        if added.Fail? {
          return Fail(added.error);
        }
        at := at + ENTRY_SIZE;
        left := left - 1;
        recType := added.value;
        acc := ValueOf(recType);
        i := i + 1;
      }
      return Ok(recType);
    }
  }

  /** The names and types of a schema object, or None for null. */
  ghost function ValueOf(s: Schema?): Option<SchemaValue>
    reads s
  {
    if s == null then None else Some(SchemaValue(s.fnames, s.ftypes))
  }

  /** A call that returns a schema, by the schema's value. */
  ghost function Snapshot(r: Result<Schema>): Result<Option<SchemaValue>>
    reads if r.Ok? then {r.value} else {}
  {
    match r
    case Ok(s) => Ok(ValueOf(s))
    case Fail(e) => Fail(e)
  }

  /** A call that returns a schema or null, by the schema's value. */
  ghost function SnapshotOrNull(r: Result<Schema?>): Result<Option<SchemaValue>>
    reads if r.Ok? && r.value != null then {r.value} else {}
  {
    match r
    case Ok(s) => Ok(ValueOf(s))
    case Fail(e) => Fail(e)
  }

  /** The schema read so far with the entry `name`, `t` accepted into it,
      or the exception deserialize throws for that entry. */
  function Accept(acc: Option<SchemaValue>, name: JString, t: FieldType): Result<Option<SchemaValue>> {
    if acc.None? && t != IntType then Fail(IllegalState)
    else if acc.Some? && |name| > MAX_FIELD_NAME_LENGTH then Fail(IllegalArgument)
    else Ok(Extend(acc, name, t))
  }

  /** The entries for `names` take 32 bytes more than those for all but the first. */
  lemma EntriesLenStep(names: seq<JString>)
    requires names != []
    ensures ENTRY_SIZE * |names| == ENTRY_SIZE + ENTRY_SIZE * |names[1..]|
  {
  }

  /** Nothing the entry writes do reaches below their start. */
  lemma {:induction false} WriteEntriesBelow(buf: seq<byte>, at: int, names: seq<JString>, types: seq<FieldType>)
    requires |names| == |types|
    ensures forall i :: 0 <= i < at && i < |buf| ==> WriteEntries(buf, at, names, types).bytes[i] == buf[i]
    decreases |names|
  {
    if names != [] {
      var w := WriteEntry(buf, at, names[0], types[0]);
      if w.outcome.Done? {
        WriteEntriesBelow(w.bytes, at + ENTRY_SIZE, names[1..], types[1..]);
      }
    }
  }

  /** Each valid type reads back from its own tag. */
  lemma TypeOfTypeTag(t: FieldType)
    requires ValidType(t)
    ensures TypeOfTag(TypeTag(t)) == Ok(t)
  {
  }

  /** An entry whose bytes are intact reads back as the name and type written. */
  lemma ReadEntryWritten(buf: seq<byte>, final: seq<byte>, at: int, name: JString, t: FieldType)
    requires |name| <= MAX_FIELD_NAME_LENGTH && ValidType(t)
    requires 0 <= at && at + ENTRY_SIZE <= |buf| == |final|
    requires forall i :: 0 <= i < at + ENTRY_SIZE && i < |buf| ==> final[i] == WriteEntry(buf, at, name, t).bytes[i]
    ensures ReadEntry(final, at) == Ok((name, t))
  {
    assert final[at..at + ENTRY_SIZE] == WriteEntry(buf, at, name, t).bytes[at..at + ENTRY_SIZE];
    var named := Splice(buf, at, EncodeString(name));
    var w := Splice(named, at + NAME_SLOT, EncodeInt(TypeTag(t)));
    assert WriteEntry(buf, at, name, t).bytes == w;
    var n := INT_BYTES + |name|;
    assert final[at..at + n] == final[at..at + ENTRY_SIZE][..n];
    assert w[at..at + n] == w[at..at + ENTRY_SIZE][..n];
    assert w[at..at + n] == named[at..at + n];
    DeserializeEncoded(final, at, name);
    assert final[at + NAME_SLOT..at + ENTRY_SIZE] == final[at..at + ENTRY_SIZE][NAME_SLOT..];
    assert w[at + NAME_SLOT..at + ENTRY_SIZE] == w[at..at + ENTRY_SIZE][NAME_SLOT..];
    GetIntOfEncoded(final, at + NAME_SLOT, TypeTag(t));
    TypeOfTypeTag(t);
  }

  /** The schema read so far with one more field: the first field starts
      the schema, later ones are appended. */
  function Extend(acc: Option<SchemaValue>, name: JString, t: FieldType): Option<SchemaValue> {
    match acc
    case None => Some(SchemaValue([name], [t]))
    case Some(sv) => Some(SchemaValue(sv.names + [name], sv.types + [t]))
  }

  /** The schema read so far with all of `names` and `types` added in order. */
  function ExtendAll(acc: Option<SchemaValue>, names: seq<JString>, types: seq<FieldType>): Option<SchemaValue>
    requires |names| == |types|
    decreases |names|
  {
    if names == [] then acc else ExtendAll(Extend(acc, names[0], types[0]), names[1..], types[1..])
  }

  /** Adding fields to a schema appends them to its names and types. */
  lemma {:induction false} ExtendAllSome(sv: SchemaValue, names: seq<JString>, types: seq<FieldType>)
    requires |names| == |types|
    ensures ExtendAll(Some(sv), names, types) == Some(SchemaValue(sv.names + names, sv.types + types))
    decreases |names|
  {
    if names != [] {
      var sv' := SchemaValue(sv.names + [names[0]], sv.types + [types[0]]);
      assert ExtendAll(Some(sv), names, types) == ExtendAll(Some(sv'), names[1..], types[1..]);
      ExtendAllSome(sv', names[1..], types[1..]);
      assert sv'.names + names[1..] == sv.names + names;
      assert sv'.types + types[1..] == sv.types + types;
    } else {
      assert sv.names + names == sv.names && sv.types + types == sv.types;
    }
  }

  /** Starting from null, the fields read make a schema with exactly them. */
  lemma ExtendAllNone(names: seq<JString>, types: seq<FieldType>)
    requires |names| == |types| >= 1
    ensures ExtendAll(None, names, types) == Some(SchemaValue(names, types))
  {
    ExtendAllSome(SchemaValue([names[0]], [types[0]]), names[1..], types[1..]);
    assert [names[0]] + names[1..] == names && [types[0]] + types[1..] == types;
  }

  /** ReadEntries past an entry it accepts. */
  lemma ReadEntriesStep(buf: seq<byte>, at: int, remaining: int, acc: Option<SchemaValue>, name: JString, t: FieldType)
    requires remaining > 0 && ReadEntry(buf, at) == Ok((name, t))
    ensures ReadEntries(buf, at, remaining, acc)
         == match Accept(acc, name, t)
            case Fail(e) => Fail(e)
            case Ok(acc') => ReadEntries(buf, at + ENTRY_SIZE, remaining - 1, acc')
  {
  }

  /** Where every entry fits its slot and the buffer, the entries read back
      as written, added to what was read before them. */
  lemma {:induction false} ReadWriteEntries(buf: seq<byte>, at: int, names: seq<JString>, types: seq<FieldType>,
                                            acc: Option<SchemaValue>)
    requires |names| == |types| && NamesFit(names)
    requires forall i :: 0 <= i < |types| ==> ValidType(types[i])
    requires acc.None? && names != [] ==> types[0] == IntType
    requires 0 <= at && at + ENTRY_SIZE * |names| <= |buf|
    ensures ReadEntries(WriteEntries(buf, at, names, types).bytes, at, |names|, acc) == Ok(ExtendAll(acc, names, types))
    decreases |names|
  {
    if names != [] {
      var name, t := names[0], types[0];
      var w := WriteEntry(buf, at, name, t);
      var final := WriteEntries(w.bytes, at + ENTRY_SIZE, names[1..], types[1..]).bytes;
      assert WriteEntries(buf, at, names, types).bytes == final;
      EntriesLenStep(names);
      ReadWriteEntries(w.bytes, at + ENTRY_SIZE, names[1..], types[1..], Extend(acc, name, t));
      FirstEntryRead(buf, at, names, types);
      ReadEntriesStep(final, at, |names|, acc, name, t);
    }
  }

  /** The first entry reads back from the bytes all the entries leave behind. */
  lemma FirstEntryRead(buf: seq<byte>, at: int, names: seq<JString>, types: seq<FieldType>)
    requires |names| == |types| && names != [] && NamesFit(names)
    requires forall i :: 0 <= i < |types| ==> ValidType(types[i])
    requires 0 <= at && at + ENTRY_SIZE <= |buf|
    ensures ReadEntry(WriteEntries(buf, at, names, types).bytes, at) == Ok((names[0], types[0]))
  {
    var w := WriteEntry(buf, at, names[0], types[0]);
    var final := WriteEntries(w.bytes, at + ENTRY_SIZE, names[1..], types[1..]).bytes;
    assert WriteEntries(buf, at, names, types).bytes == final;
    WriteEntriesBelow(w.bytes, at + ENTRY_SIZE, names[1..], types[1..]);
    ReadEntryWritten(buf, final, at, names[0], types[0]);
  }

  /** Entries whose names fit their slots are all written when the buffer
      has room for 32 bytes per entry. */
  lemma {:induction false} WriteEntriesDone(buf: seq<byte>, at: int, names: seq<JString>, types: seq<FieldType>)
    requires |names| == |types| && NamesFit(names)
    requires 0 <= at && at + ENTRY_SIZE * |names| <= |buf|
    ensures WriteEntries(buf, at, names, types).outcome == Done
    decreases |names|
  {
    if names != [] {
      var w := WriteEntry(buf, at, names[0], types[0]);
      EntriesLenStep(names);
      WriteEntriesDone(w.bytes, at + ENTRY_SIZE, names[1..], types[1..]);
    }
  }

  /** deserialize(serialize(s)) has the same names and types in order, for a
      well-formed schema whose names fit their slots and a buffer with room. */
  lemma SchemaRoundTrip(buf: seq<byte>, index: int, names: seq<JString>, types: seq<FieldType>)
    requires WellFormed(names, types) && NamesFit(names) && IsInt(|names|)
    requires 0 <= index && index + INT_BYTES + ENTRY_SIZE * |names| <= |buf|
    ensures WriteSchema(buf, index, names, types).outcome == Done
    ensures ReadSchema(WriteSchema(buf, index, names, types).bytes, index) == Ok(Some(SchemaValue(names, types)))
  {
    var counted := Splice(buf, index, EncodeInt(|names|));
    WriteEntriesDone(counted, index + INT_BYTES, names, types);
    ReadWriteEntries(counted, index + INT_BYTES, names, types, None);
    ExtendAllNone(names, types);
    var final := WriteEntries(counted, index + INT_BYTES, names, types).bytes;
    WriteEntriesBelow(counted, index + INT_BYTES, names, types);
    assert final[index..index + INT_BYTES] == counted[index..index + INT_BYTES] == EncodeInt(|names|);
    GetIntOfEncoded(final, index, |names|);
    assert ReadSchema(final, index) == ReadEntries(final, index + INT_BYTES, |names|, None);
  }

  /** The entries written from `at` end by `end`, 32 bytes per entry, and
      leave the bytes from `end` on alone, for names that fit their slots. */
  lemma {:induction false} WriteEntriesAbove(buf: seq<byte>, at: int, names: seq<JString>, types: seq<FieldType>, end: int)
    requires |names| == |types| && NamesFit(names)
    requires 0 <= at && end == at + ENTRY_SIZE * |names| <= |buf|
    ensures forall i :: end <= i < |buf| ==> WriteEntries(buf, at, names, types).bytes[i] == buf[i]
    decreases |names|
  {
    if names != [] {
      var w := WriteEntry(buf, at, names[0], types[0]);
      EntriesLenStep(names);
      WriteEntriesAbove(w.bytes, at + ENTRY_SIZE, names[1..], types[1..], end);
      var rest := WriteEntries(w.bytes, at + ENTRY_SIZE, names[1..], types[1..]).bytes;
      assert WriteEntries(buf, at, names, types).bytes == rest;
      forall i | end <= i < |buf| ensures rest[i] == buf[i] {
        assert rest[i] == w.bytes[i];
      }
    }
  }

  /** Schema.serialize occupies exactly the 4 + 32 * n bytes from `index`
      when the names fit their slots. */
  lemma SchemaFootprint(buf: seq<byte>, index: int, names: seq<JString>, types: seq<FieldType>)
    requires |names| == |types| && IsInt(|names|) && NamesFit(names)
    requires 0 <= index && index + INT_BYTES + ENTRY_SIZE * |names| <= |buf|
    ensures forall i :: 0 <= i < |buf| && !(index <= i < index + INT_BYTES + ENTRY_SIZE * |names|)
                        ==> WriteSchema(buf, index, names, types).bytes[i] == buf[i]
  {
    var counted := Splice(buf, index, EncodeInt(|names|));
    var end := index + INT_BYTES + ENTRY_SIZE * |names|;
    WriteEntriesBelow(counted, index + INT_BYTES, names, types);
    WriteEntriesAbove(counted, index + INT_BYTES, names, types, end);
  }

  /** A key name of 25 characters, which the constructor accepts, does not
      survive serialize and deserialize: the type tag written 28 bytes after
      the name's start overwrites its 25th character with a zero byte. */
  lemma LongKeyNameCorrupted(buf: seq<byte>, index: int, key: JString)
    requires |key| == MAX_FIELD_NAME_LENGTH + 1 && key[MAX_FIELD_NAME_LENGTH] != 0
    requires 0 <= index && index + INT_BYTES + ENTRY_SIZE <= |buf|
    ensures WriteSchema(buf, index, [key], [IntType]).outcome == Done
    ensures ReadSchema(WriteSchema(buf, index, [key], [IntType]).bytes, index) != Ok(Some(SchemaValue([key], [IntType])))
  {
    var at := index + INT_BYTES;
    var counted := Splice(buf, index, EncodeInt(1));
    var w := WriteString(counted, at, key);
    var final := Splice(w.bytes, at + NAME_SLOT, EncodeInt(0));
    assert w.outcome == Done;
    assert WriteEntry(counted, at, key, IntType) == Written(final, Done);
    assert [key][1..] == [] && [IntType][1..] == [];
    assert WriteEntries(final, at + ENTRY_SIZE, [], []) == Written(final, Done);
    assert WriteEntries(counted, at, [key], [IntType]) == Written(final, Done);
    assert WriteSchema(buf, index, [key], [IntType]) == Written(final, Done);
    assert final[index..index + INT_BYTES] == EncodeInt(1);
    GetIntOfEncoded(final, index, 1);
    assert EncodeInt(0)[0] == 0;
    assert final[at + NAME_SLOT] == 0;
    match DeserializeString(final, at)
    case Fail(_) =>
    case Ok(name) =>
      assert final[at..at + INT_BYTES] == EncodeInt(|key|);
      IntAtDecodes(final, at);
      DecodeEncodeInt(|key|);
      assert |name| == |key|;
      assert name[MAX_FIELD_NAME_LENGTH] == final[at + INT_BYTES + MAX_FIELD_NAME_LENGTH] == 0;
  }
}

/** Field types (IntType, StringType) and field values (IntField,
    StringField): their lengths on disk, default values, equality, and how a
    field is written to and read from a buffer. The abstract classes Type,
    FieldType and Field become the two closed datatypes below. */
module Fields {
  import opened Outcomes
  import opened Bytes
  import opened StringUtils

  /** StringType.maxCharLimit */
  const MAX_CHAR_LIMIT: int := 64

  /** IntType is a singleton, so one constructor stands for its one instance. */
  datatype FieldType = IntType | StringType(maxChars: Int32)

  /** A field keeps its type: an IntField is always of IntType, a StringField
      of the StringType it was made with. */
  datatype Field = IntField(value: Int32) | StringField(s: JString, maxChars: Int32)

  /** new StringType(maxChars) as written: 0 and values above 64 are refused,
      negative values are accepted. */
  function NewStringType(maxChars: Int32): (r: Result<FieldType>)
    ensures r.Ok? <==> maxChars != 0 && maxChars <= MAX_CHAR_LIMIT
    ensures r.Ok? ==> r.value == StringType(maxChars)
    ensures r.Fail? ==> r.error == IllegalArgument
  {
    if maxChars == 0 then Fail(IllegalArgument)
    else if maxChars > MAX_CHAR_LIMIT then Fail(IllegalArgument)
    else Ok(StringType(maxChars))
  }

  /** The types whose fields can be made: every IntType, and a StringType
      allowing between 1 and 64 characters. */
  predicate ValidType(t: FieldType) {
    t.StringType? ==> 1 <= t.maxChars <= MAX_CHAR_LIMIT
  }

  /** new StringType(maxChars) with the evidently intended check that the
      limit is positive, so that the type's blank field exists. */
  function NewStringTypeChecked(maxChars: Int32): (r: Result<FieldType>)
    ensures r.Ok? <==> 1 <= maxChars <= MAX_CHAR_LIMIT
    ensures r.Ok? ==> r.value == StringType(maxChars) && ValidType(r.value)
    ensures r.Fail? ==> r.error == IllegalArgument
  {
    if maxChars <= 0 then Fail(IllegalArgument)
    else if maxChars > MAX_CHAR_LIMIT then Fail(IllegalArgument)
    else Ok(StringType(maxChars))
  }

  /** Type.getLen: the bytes a field of type `t` takes up in a record. */
  function Len(t: FieldType): int {
    match t
    case IntType => INT_BYTES
    case StringType(m) => m + INT_BYTES
  }

  /** Field.getType */
  function TypeOf(f: Field): FieldType {
    match f
    case IntField(_) => IntType
    case StringField(_, m) => StringType(m)
  }

  /** A field whose value fits its type: a string no longer than the
      type's maximum. Fields made by the constructors fit; a deserialized
      string is not checked against the maximum. */
  predicate Fits(f: Field) {
    f.StringField? ==> |f.s| <= f.maxChars
  }

  /** new StringField(s, st): refuses a string longer than st's maximum. */
  function NewStringField(s: JString, st: FieldType): (r: Result<Field>)
    requires st.StringType?
    ensures r.Ok? <==> |s| <= st.maxChars
    ensures r.Ok? ==> TypeOf(r.value) == st && Fits(r.value) && r.value.s == s
    ensures r.Fail? ==> r.error == IllegalArgument
  {
    if |s| > st.maxChars then Fail(IllegalArgument) else Ok(StringField(s, st.maxChars))
  }

  /** FieldType.blankField: IntField(0) for IntType, StringField("") for a
      StringType. */
  function BlankField(t: FieldType): (r: Result<Field>)
    ensures r.Ok? <==> (t.StringType? ==> t.maxChars >= 0)
    ensures r.Ok? ==> TypeOf(r.value) == t && Fits(r.value)
    ensures r.Ok? && t.IntType? ==> r.value.value == 0
    ensures r.Ok? && t.StringType? ==> r.value.s == []
  {
    match t
    case IntType => Ok(IntField(0))
    case StringType(_) => NewStringField([], t)
  }

  /** Every valid type has a blank field. */
  lemma BlankFieldOfValidType(t: FieldType)
    requires ValidType(t)
    ensures BlankField(t).Ok?
  {
  }

  /** The constructor as written accepts a negative limit, and the type it
      makes has no blank field: blankField throws for it. */
  lemma NegativeLimitHasNoBlank()
    ensures NewStringType(-1).Ok? && BlankField(NewStringType(-1).value).Fail?
    ensures NewStringTypeChecked(-1).Fail?
  {
  }

  /** IntType.equals is identity on the singleton and StringType.equals
      compares maxChars, so type equality is equality of the datatype. */
  function TypeEquals(a: FieldType, b: FieldType): (r: bool)
    ensures r <==> a == b
  {
    match a
    case IntType => b.IntType?
    case StringType(m) => b.StringType? && b.maxChars == m
  }

  /** hashCode of a type: 0 for the IntType singleton, maxChars for a StringType. */
  function TypeHash(t: FieldType): int {
    match t
    case IntType => 0
    case StringType(m) => m
  }

  /** hashCode agrees with equals. */
  lemma TypeHashAgrees(a: FieldType, b: FieldType)
    requires TypeEquals(a, b)
    ensures TypeHash(a) == TypeHash(b)
  {
  }

  /** IntField.equals and StringField.equals: same kind of field and the same
      value; the maximum length of a StringField's type is not compared. */
  function FieldEquals(a: Field, b: Field): bool {
    match a
    case IntField(v) => b.IntField? && b.value == v
    case StringField(s, _) => b.StringField? && b.s == s
  }

  /** Field equality is an equivalence, it ignores the string limit, and on
      fields of the same type it is equality of values. */
  lemma FieldEqualsProperties(a: Field, b: Field, c: Field)
    ensures FieldEquals(a, a)
    ensures FieldEquals(a, b) ==> FieldEquals(b, a)
    ensures FieldEquals(a, b) && FieldEquals(b, c) ==> FieldEquals(a, c)
    ensures a.StringField? && b.StringField? && a.s == b.s ==> FieldEquals(a, b)
    ensures FieldEquals(a, b) && TypeOf(a) == TypeOf(b) ==> a == b
  {
  }

  /** The bytes `serialize` lays down for a field. */
  function EncodeField(f: Field): (bs: seq<byte>)
    ensures Fits(f) ==> |bs| <= Len(TypeOf(f))
  {
    match f
    case IntField(v) => EncodeInt(v)
    case StringField(s, _) => EncodeString(s)
  }

  /** Field.serialize(buf, index) as a function of the buffer's contents:
      IntField uses the absolute putInt, StringField goes through
      StringUtils.serializeString. */
  function WriteField(buf: seq<byte>, index: int, f: Field): (w: Written)
    ensures |w.bytes| == |buf|
    ensures w.outcome == Done <==> 0 <= index && index + |EncodeField(f)| <= |buf|
  {
    match f
    case IntField(v) =>
      if 0 <= index <= |buf| - INT_BYTES then Written(Splice(buf, index, EncodeInt(v)), Done)
      else Written(buf, Thrown(IndexOutOfBounds))
    case StringField(s, _) => WriteString(buf, index, s)
  }

  /** serialize writes the field's encoding at `index` and nothing outside it. */
  lemma WriteFieldEffect(buf: seq<byte>, index: int, f: Field)
    ensures var w := WriteField(buf, index, f);
      && (w.outcome == Done ==> w.bytes == Splice(buf, index, EncodeField(f)))
      && forall i :: 0 <= i < |buf| && !(index <= i < index + |EncodeField(f)|) ==> w.bytes[i] == buf[i]
  {
  }

  /** IntField.serialize and StringField.serialize. */
  method SerializeField(f: Field, buf: array<byte>, index: int) returns (o: Outcome)
    modifies buf
    ensures Written(buf[..], o) == WriteField(old(buf[..]), index, f)
  {
    match f
    case IntField(v) =>
      o := PutInt(buf, index, v);
    case StringField(s, _) =>
      o := SerializeString(s, buf, index);
  }

  /** Field.deserialize(buf, index) on a field `f`: the field keeps its type
      and takes the value read at `index` (IntField through the absolute
      getInt, StringField through StringUtils.deserializeString). */
  function DeserializeField(buf: seq<byte>, index: int, f: Field): (r: Result<Field>)
    ensures r.Ok? ==> TypeOf(r.value) == TypeOf(f)
  {
    match f
    case IntField(_) =>
      (match GetInt(buf, index)
       case Ok(v) => Ok(IntField(v))
       case Fail(e) => Fail(e))
    case StringField(_, m) =>
      (match DeserializeString(buf, index)
       case Ok(s) => Ok(StringField(s, m))
       case Fail(e) => Fail(e))
  }

  /** The field deserialize reads is the one whose encoding the bytes at
      `index` are. */
  lemma DeserializeFieldEncodes(buf: seq<byte>, index: int, f: Field)
    requires DeserializeField(buf, index, f).Ok?
    ensures var g := DeserializeField(buf, index, f).value;
      0 <= index && index + |EncodeField(g)| <= |buf| && buf[index..index + |EncodeField(g)|] == EncodeField(g)
  {
    match f
    case IntField(_) => GetIntEncodes(buf, index);
    case StringField(_, _) => DeserializeStringEncodes(buf, index);
  }

  /** Where the bytes at `index` encode `g`, a field of `g`'s type reads `g`. */
  lemma DeserializeEncodedField(buf: seq<byte>, index: int, f: Field, g: Field)
    requires TypeOf(f) == TypeOf(g)
    requires 0 <= index && index + |EncodeField(g)| <= |buf|
    requires buf[index..index + |EncodeField(g)|] == EncodeField(g)
    ensures DeserializeField(buf, index, f) == Ok(g)
  {
    match g
    case IntField(v) =>
      GetIntOfEncoded(buf, index, v);
    case StringField(s, _) =>
      DeserializeEncoded(buf, index, s);
  }

  /** deserialize after serialize at the same index restores the field, for
      an int field (any value) and for a string field (the empty string
      included). */
  lemma DeserializeSerializeField(buf: seq<byte>, index: int, f: Field, g: Field)
    requires TypeOf(f) == TypeOf(g)
    requires 0 <= index && index + |EncodeField(g)| <= |buf|
    ensures WriteField(buf, index, g).outcome == Done
    ensures DeserializeField(WriteField(buf, index, g).bytes, index, f) == Ok(g)
  {
    WriteFieldEffect(buf, index, g);
    DeserializeEncodedField(WriteField(buf, index, g).bytes, index, f, g);
  }
}

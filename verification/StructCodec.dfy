/** The codec between plain JavaScript objects and `google.protobuf.Struct`.

    Objects are their own enumerable fields in enumeration order. Assigning the field `__proto__`
    of an object sets its prototype instead of creating a field. */
module StructCodec {
  datatype Field<T> = Field(name: string, value: T)

  datatype Js =
    | Null
    | Undefined
    | Number(n: real)
    | Boolean(b: bool)
    | String(s: string)
    | Array(items: seq<Js>)
    | Object(fields: seq<Field<Js>>)
    | Other  // functions, symbols and big integers

  /** A protobuf `Value` as it comes off the wire, by the kind that is set, if any. */
  datatype Value =
    | NoKind
    | NullValue
    | NumberValue(n: real)
    | BoolValue(b: bool)
    | StringValue(s: string)
    | NoList
    | ListValue(values: seq<Value>)
    | StructValue(struct: Struct)

  /** A `Struct` message: missing, without its map of fields, or with it. */
  datatype Struct = NoStruct | NoFields | Struct(fields: seq<Field<Value>>)

  const PROTO: string := "__proto__"

  function IndexOf<T>(fields: seq<Field<T>>, name: string): (i: nat)
    ensures i <= |fields| && (i < |fields| ==> fields[i].name == name)
    ensures i == |fields| ==> forall j :: 0 <= j < |fields| ==> fields[j].name != name
  {
    if fields == [] then 0
    else if fields[0].name == name then 0
    else 1 + IndexOf(fields[1..], name)
  }

  /** `obj[name] = value` */
  function Assign<T>(fields: seq<Field<T>>, name: string, value: T): seq<Field<T>> {
    if name == PROTO then fields
    else
      var i := IndexOf(fields, name);
      if i < |fields| then fields[i := Field(name, value)] else fields + [Field(name, value)]
  }

  // ---------- encoding ----------

  function JsToValue(x: Js): Value
    decreases x, 1
  {
    match x
    case Null => NullValue
    case Undefined => NullValue
    case Number(n) => NumberValue(n)
    case Boolean(b) => BoolValue(b)
    case String(s) => StringValue(s)
    case Array(items) => ListValue(seq(|items|, i requires 0 <= i < |items| => JsToValue(items[i])))
    case Object(fields) => StructValue(Struct(EncodeFields(fields)))
    case Other => NullValue
  }

  function EncodeFields(fields: seq<Field<Js>>): seq<Field<Value>>
    decreases fields, 0
  {
    if fields == [] then []
    else
      var last := fields[|fields| - 1];
      Assign(EncodeFields(fields[..|fields| - 1]), last.name, JsToValue(last.value))
  }

  method ObjectToStruct(obj: seq<Field<Js>>) returns (struct: Struct)
    ensures struct == Struct(EncodeFields(obj))
  {
    var fields := [];
    for i := 0 to |obj|
      invariant fields == EncodeFields(obj[..i])
    {
      assert obj[..i + 1][..i] == obj[..i];
      fields := Assign(fields, obj[i].name, JsToValue(obj[i].value));
    }
    assert obj[..|obj|] == obj;
    struct := Struct(fields);
  }

  // ---------- decoding ----------

  function ValueToJs(v: Value): Js
    decreases v, 1
  {
    match v
    case NoKind => Null
    case NullValue => Null
    case NumberValue(n) => Number(n)
    case BoolValue(b) => Boolean(b)
    case StringValue(s) => String(s)
    case NoList => Array([])
    case ListValue(values) => Array(seq(|values|, i requires 0 <= i < |values| => ValueToJs(values[i])))
    case StructValue(struct) => StructToJs(struct)
  }

  /** A missing struct is null, and one without fields an empty object. */
  function StructToJs(struct: Struct): Js
    decreases struct, 1
  {
    match struct
    case NoStruct => Null
    case NoFields => Object([])
    case Struct(fields) => Object(DecodeFields(fields))
  }

  function DecodeFields(fields: seq<Field<Value>>): seq<Field<Js>>
    decreases fields, 0
  {
    if fields == [] then []
    else
      var last := fields[|fields| - 1];
      Assign(DecodeFields(fields[..|fields| - 1]), last.name, ValueToJs(last.value))
  }

  method StructToObject(struct: Struct) returns (obj: Js)
    ensures obj == StructToJs(struct)
  {
    if struct.NoStruct? { return Null; }
    if struct.NoFields? { return Object([]); }
    var out, fields := [], struct.fields;
    for i := 0 to |fields|
      invariant out == DecodeFields(fields[..i])
    {
      assert fields[..i + 1][..i] == fields[..i];
      out := Assign(out, fields[i].name, ValueToJs(fields[i].value));
    }
    assert fields[..|fields|] == fields;
    return Object(out);
  }

  // ---------- the round trip ----------

  predicate DistinctNames<T>(fields: seq<Field<T>>) {
    forall i, j :: 0 <= i < j < |fields| ==> fields[i].name != fields[j].name
  }

  /** A real value: no object at any depth has a field twice. */
  predicate WellFormed(x: Js)
    decreases x
  {
    match x
    case Array(items) => forall i :: 0 <= i < |items| ==> WellFormed(items[i])
    case Object(fields) => DistinctNames(fields) && forall i :: 0 <= i < |fields| ==> WellFormed(fields[i].value)
    case _ => true
  }

  predicate WellFormedFields(fields: seq<Field<Js>>) {
    DistinctNames(fields) && forall i :: 0 <= i < |fields| ==> WellFormed(fields[i].value)
  }

  /** Nothing the codec loses, at any depth. */
  predicate Clean(x: Js)
    decreases x
  {
    match x
    case Undefined => false
    case Other => false
    case Array(items) => forall i :: 0 <= i < |items| ==> Clean(items[i])
    case Object(fields) => forall i :: 0 <= i < |fields| ==> fields[i].name != PROTO && Clean(fields[i].value)
    case _ => true
  }

  predicate CleanFields(fields: seq<Field<Js>>) {
    forall i :: 0 <= i < |fields| ==> fields[i].name != PROTO && Clean(fields[i].value)
  }

  /** What is left after a trip: `undefined` and non-data become null, and `__proto__` fields are gone. */
  function Normal(x: Js): Js
    decreases x, 1
  {
    match x
    case Undefined => Null
    case Other => Null
    case Array(items) => Array(seq(|items|, i requires 0 <= i < |items| => Normal(items[i])))
    case Object(fields) => Object(NormalFields(fields))
    case _ => x
  }

  function NormalFields(fields: seq<Field<Js>>): seq<Field<Js>>
    decreases fields, 0
  {
    if fields == [] then []
    else
      var last := fields[|fields| - 1];
      NormalFields(fields[..|fields| - 1]) + (if last.name == PROTO then [] else [Field(last.name, Normal(last.value))])
  }

  lemma NewNameIsAppended<T>(fields: seq<Field<T>>, name: string, value: T)
    requires name != PROTO && forall i :: 0 <= i < |fields| ==> fields[i].name != name
    ensures Assign(fields, name, value) == fields + [Field(name, value)]
  {}

  ghost predicate NamesFrom<A, B>(part: seq<Field<A>>, whole: seq<Field<B>>) {
    forall i :: 0 <= i < |part| ==> exists j :: 0 <= j < |whole| && part[i].name == whole[j].name
  }

  /** Encoding keeps the fields in order, less `__proto__`. */
  lemma {:induction false} EncodedFields(fields: seq<Field<Js>>)
    requires DistinctNames(fields)
    ensures NamesFrom(EncodeFields(fields), fields)
    ensures fields != [] ==>
      var init, last := fields[..|fields| - 1], fields[|fields| - 1];
      EncodeFields(fields) == EncodeFields(init) + (if last.name == PROTO then [] else [Field(last.name, JsToValue(last.value))])
  {
    hide JsToValue;
    if fields != [] {
      var init, last := fields[..|fields| - 1], fields[|fields| - 1];
      EncodedFields(init);
      forall i | 0 <= i < |EncodeFields(init)| ensures EncodeFields(init)[i].name != last.name {
        var j :| 0 <= j < |init| && EncodeFields(init)[i].name == init[j].name;
        assert fields[j].name != fields[|fields| - 1].name;
      }
      if last.name != PROTO { NewNameIsAppended(EncodeFields(init), last.name, JsToValue(last.value)); }
      forall i | 0 <= i < |EncodeFields(fields)|
        ensures exists j :: 0 <= j < |fields| && EncodeFields(fields)[i].name == fields[j].name
      {
        if i < |EncodeFields(init)| {
          var j :| 0 <= j < |init| && EncodeFields(init)[i].name == init[j].name;
          assert fields[j] == init[j];
        } else {
          assert EncodeFields(fields)[i].name == fields[|fields| - 1].name;
        }
      }
    }
  }

  /** Decoding what was encoded yields the normal form of any JavaScript value. */
  lemma {:induction false} RoundTrip(x: Js)
    requires WellFormed(x)
    ensures ValueToJs(JsToValue(x)) == Normal(x)
    decreases x, 1
  {
    match x
    case Array(items) =>
      forall i | 0 <= i < |items| ensures ValueToJs(JsToValue(items[i])) == Normal(items[i]) {
        RoundTrip(items[i]);
      }
    case Object(fields) => FieldsRoundTrip(fields);
    case _ =>
  }

  lemma {:induction false} FieldsRoundTrip(fields: seq<Field<Js>>)
    requires WellFormedFields(fields)
    ensures DecodeFields(EncodeFields(fields)) == NormalFields(fields)
    ensures NamesFrom(NormalFields(fields), fields)
    decreases fields, 0
  {
    if fields != [] {
      var init, last := fields[..|fields| - 1], fields[|fields| - 1];
      FieldsRoundTrip(init);
      RoundTrip(last.value);
      EncodedFields(fields);
      var wire := EncodeFields(init);
      if last.name != PROTO {
        var all := wire + [Field(last.name, JsToValue(last.value))];
        assert all[..|all| - 1] == wire;
        forall i | 0 <= i < |NormalFields(init)| ensures NormalFields(init)[i].name != last.name {
          var j :| 0 <= j < |init| && NormalFields(init)[i].name == init[j].name;
          assert fields[j].name != fields[|fields| - 1].name;
        }
        NewNameIsAppended(NormalFields(init), last.name, Normal(last.value));
      }
      forall i | 0 <= i < |NormalFields(fields)|
        ensures exists j :: 0 <= j < |fields| && NormalFields(fields)[i].name == fields[j].name
      {
        if i < |NormalFields(init)| {
          var j :| 0 <= j < |init| && NormalFields(init)[i].name == init[j].name;
          assert fields[j] == init[j];
        } else {
          assert NormalFields(fields)[i].name == fields[|fields| - 1].name;
        }
      }
    }
  }

  /** A value is its own normal form exactly when it is clean. */
  lemma {:induction false} NormalIffClean(x: Js)
    ensures Normal(x) == x <==> Clean(x)
    decreases x, 1
  {
    match x
    case Array(items) =>
      forall i | 0 <= i < |items| ensures Normal(items[i]) == items[i] <==> Clean(items[i]) {
        NormalIffClean(items[i]);
      }
      var normal := seq(|items|, i requires 0 <= i < |items| => Normal(items[i]));
      assert Normal(x) == Array(normal);
      if normal == items {
        assert forall i :: 0 <= i < |items| ==> normal[i] == items[i];
      } else {
        assert exists i :: 0 <= i < |items| && normal[i] != items[i];
      }
    case Object(fields) => NormalFieldsIffClean(fields);
    case _ =>
  }

  lemma {:induction false} NormalFieldsIffClean(fields: seq<Field<Js>>)
    ensures |NormalFields(fields)| <= |fields|
    ensures NormalFields(fields) == fields <==> CleanFields(fields)
    decreases fields, 0
  {
    if fields != [] {
      var n := |fields|;
      var init, last := fields[..n - 1], fields[n - 1];
      NormalFieldsIffClean(init);
      NormalIffClean(last.value);
      var normal := NormalFields(fields);
      assert forall i :: 0 <= i < n - 1 ==> init[i] == fields[i];
      if normal == fields {
        assert last.name != PROTO && normal[n - 1] == Field(last.name, Normal(last.value));
        assert normal[..n - 1] == NormalFields(init);
      }
      if CleanFields(fields) {
        assert CleanFields(init);
        assert normal == init + [last];
      }
    }
  }

  /** An object survives encoding, the wire and decoding unchanged exactly when, at every depth, it holds
      no `undefined` or non-data and no field named `__proto__`. */
  lemma ObjectRoundTrip(fields: seq<Field<Js>>)
    requires WellFormedFields(fields)
    ensures StructToJs(Struct(EncodeFields(fields))) == Object(fields) <==> CleanFields(fields)
  {
    FieldsRoundTrip(fields);
    NormalFieldsIffClean(fields);
  }

  /** The failing case: one field named `__proto__` is lost. */
  lemma ProtoIsLost(x: Js)
    ensures StructToJs(Struct(EncodeFields([Field(PROTO, x)]))) == Object([])
  {
    assert [Field(PROTO, x)][..0] == [];
  }

  // ---------- what decoding yields ----------

  /** Assigning a clean value keeps fields distinct and clean. */
  lemma AssignKeepsClean(fields: seq<Field<Js>>, name: string, value: Js)
    requires WellFormedFields(fields) && CleanFields(fields) && WellFormed(value) && Clean(value)
    ensures WellFormedFields(Assign(fields, name, value)) && CleanFields(Assign(fields, name, value))
  {
    hide WellFormed, Clean;
  }

  /** Whatever comes off the wire, missing parts included, decodes to a real and clean value. */
  lemma {:induction false} DecodedIsClean(v: Value)
    ensures WellFormed(ValueToJs(v)) && Clean(ValueToJs(v))
    decreases v, 1
  {
    match v
    case ListValue(values) =>
      forall i | 0 <= i < |values| ensures WellFormed(ValueToJs(values[i])) && Clean(ValueToJs(values[i])) {
        DecodedIsClean(values[i]);
      }
    case StructValue(Struct(fields)) => DecodedFieldsAreClean(fields);
    case _ =>
  }

  lemma {:induction false} DecodedFieldsAreClean(fields: seq<Field<Value>>)
    ensures WellFormedFields(DecodeFields(fields)) && CleanFields(DecodeFields(fields))
    decreases fields, 0
  {
    if fields != [] {
      var init, last := fields[..|fields| - 1], fields[|fields| - 1];
      DecodedFieldsAreClean(init);
      DecodedIsClean(last.value);
      AssignKeepsClean(DecodeFields(init), last.name, ValueToJs(last.value));
    }
  }

  /** Decoding loses nothing the codec could keep: any wire value, encoded again after decoding, decodes to the same. */
  lemma DecodingIsStable(v: Value)
    ensures ValueToJs(JsToValue(ValueToJs(v))) == ValueToJs(v)
  {
    DecodedIsClean(v);
    RoundTrip(ValueToJs(v));
    NormalIffClean(ValueToJs(v));
  }

  // ---------- kind by kind ----------

  /** `there` has exactly the fields of `here`, less `__proto__`, each value as `turn` makes it. */
  ghost predicate FieldForField<A, B>(here: seq<Field<A>>, there: seq<Field<B>>, turn: A -> B) {
    && (forall i :: 0 <= i < |here| && here[i].name != PROTO ==> Field(here[i].name, turn(here[i].value)) in there)
    && (forall f :: f in there ==> f.name != PROTO && exists i :: 0 <= i < |here| && f == Field(here[i].name, turn(here[i].value)))
  }

  lemma AssignKeepsFields<A, B>(here: seq<Field<A>>, there: seq<Field<B>>, turn: A -> B)
    requires here != [] && DistinctNames(here) && FieldForField(here[..|here| - 1], there, turn)
    ensures
      var last := here[|here| - 1];
      FieldForField(here, Assign(there, last.name, turn(last.value)), turn)
  {
    var init, last := here[..|here| - 1], here[|here| - 1];
    var after := Assign(there, last.name, turn(last.value));
    assert forall i :: 0 <= i < |init| ==> here[i] == init[i];
    if last.name != PROTO {
      forall i | 0 <= i < |there| ensures there[i].name != last.name {
        assert there[i] in there;
        var j :| 0 <= j < |init| && there[i] == Field(init[j].name, turn(init[j].value));
        assert here[j].name != here[|here| - 1].name;
      }
      NewNameIsAppended(there, last.name, turn(last.value));
    }
    forall f | f in after ensures f.name != PROTO && exists i :: 0 <= i < |here| && f == Field(here[i].name, turn(here[i].value)) {
      if f in there {
        var i :| 0 <= i < |init| && f == Field(init[i].name, turn(init[i].value));
        assert f == Field(here[i].name, turn(here[i].value));
      } else {
        assert f == Field(here[|here| - 1].name, turn(here[|here| - 1].value));
      }
    }
  }

  lemma {:induction false} EncodesFieldForField(fields: seq<Field<Js>>)
    requires DistinctNames(fields)
    ensures FieldForField(fields, EncodeFields(fields), JsToValue)
  {
    hide JsToValue;
    if fields != [] {
      EncodesFieldForField(fields[..|fields| - 1]);
      AssignKeepsFields(fields, EncodeFields(fields[..|fields| - 1]), JsToValue);
    }
  }

  lemma {:induction false} DecodesFieldForField(fields: seq<Field<Value>>)
    requires DistinctNames(fields)
    ensures FieldForField(fields, DecodeFields(fields), ValueToJs)
  {
    hide ValueToJs;
    if fields != [] {
      DecodesFieldForField(fields[..|fields| - 1]);
      AssignKeepsFields(fields, DecodeFields(fields[..|fields| - 1]), ValueToJs);
    }
  }

  /** Every value is encoded as its own kind: numbers, strings and truth values as they are, lists element by
      element, objects field by field, and everything else as null. */
  lemma EncodesKindByKind(x: Js)
    requires WellFormed(x)
    ensures
      var v := JsToValue(x);
      match x
      case Number(n) => v == NumberValue(n)
      case Boolean(b) => v == BoolValue(b)
      case String(s) => v == StringValue(s)
      case Array(items) => v.ListValue? && |v.values| == |items| && forall i :: 0 <= i < |items| ==> v.values[i] == JsToValue(items[i])
      case Object(fields) => v.StructValue? && v.struct.Struct? && FieldForField(fields, v.struct.fields, JsToValue)
      case _ => v == NullValue
  {
    if x.Object? { EncodesFieldForField(x.fields); }
  }

  /** Every wire value is decoded as its own kind; a map of fields has each name once. */
  lemma DecodesKindByKind(v: Value)
    requires v.StructValue? && v.struct.Struct? ==> DistinctNames(v.struct.fields)
    ensures
      var x := ValueToJs(v);
      match v
      case NumberValue(n) => x == Number(n)
      case BoolValue(b) => x == Boolean(b)
      case StringValue(s) => x == String(s)
      case NoList => x == Array([])
      case ListValue(values) => x.Array? && |x.items| == |values| && forall i :: 0 <= i < |values| ==> x.items[i] == ValueToJs(values[i])
      case StructValue(Struct(fields)) => x.Object? && FieldForField(fields, x.fields, ValueToJs)
      case StructValue(NoFields) => x == Object([])
      case _ => x == Null
  {
    if v.StructValue? && v.struct.Struct? { DecodesFieldForField(v.struct.fields); }
  }
}

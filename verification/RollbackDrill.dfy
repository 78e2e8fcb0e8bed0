/** The rollback drill: snapshot the collections to JSON, clear them, and restore them from the snapshot. */
module RollbackDrill {
  import opened Wrappers

  datatype Field = Field(name: string, value: Value)

  /** A stored value as the driver gives it. An ObjectId is its hex text, a date its ISO text. */
  datatype Value =
    | Null | Bool(b: bool) | Number(n: int) | Text(s: string)
    | ObjectId(hex: string) | Date(iso: string)
    | List(items: seq<Value>) | Object(fields: seq<Field>)

  const OID := "$oid"
  const DATE := "$date"
  const BSON_TYPE := "_bsontype"
  const PROTO := "__proto__"

  /** The value of a field, as `value.name` reads it. */
  function Get(fields: seq<Field>, name: string): Option<Value> {
    if fields == [] then None else if fields[0].name == name then Some(fields[0].value) else Get(fields[1..], name)
  }

  predicate HasText(fields: seq<Field>, name: string) {
    Get(fields, name).Some? && Get(fields, name).value.Text?
  }

  /** A plain object that passes for an ObjectId. */
  predicate PosesAsId(fields: seq<Field>) {
    Get(fields, BSON_TYPE) == Some(Text("ObjectId"))
  }

  /** What is written for a value. Assigning to the name __proto__ makes no field. */
  function ToSerializable(v: Value): Value {
    match v
    case ObjectId(hex) => Object([Field(OID, Text(hex))])
    case Date(iso) => Object([Field(DATE, Text(iso))])
    case List(items) => List(seq(|items|, i requires 0 <= i < |items| => ToSerializable(items[i])))
    case Object(fields) =>
      if PosesAsId(fields) then Object([Field(OID, Text("[object Object]"))]) else Object(ToFields(fields))
    case _ => v
  }

  function ToFields(fields: seq<Field>): seq<Field> {
    if fields == [] then []
    else
      var first := if fields[0].name == PROTO then [] else [Field(fields[0].name, ToSerializable(fields[0].value))];
      first + ToFields(fields[1..])
  }

  /** What is made of a value read back. An ObjectId cannot be made of just any text. */
  function FromSerializable(v: Value, isId: string -> bool): Option<Value> {
    match v
    case List(items) =>
      var read := FromItems(items, isId);
      if read.None? then None else Some(List(read.value))
    case Object(fields) =>
      if HasText(fields, OID) then
        var text := Get(fields, OID).value.s;
        if isId(text) then Some(ObjectId(text)) else None
      else if HasText(fields, DATE) then Some(Date(Get(fields, DATE).value.s))
      else
        var read := FromFields(fields, isId);
        if read.None? then None else Some(Object(read.value))
    case _ => Some(v)
  }

  function FromItems(items: seq<Value>, isId: string -> bool): Option<seq<Value>> {
    if items == [] then Some([])
    else
      var first, rest := FromSerializable(items[0], isId), FromItems(items[1..], isId);
      if first.None? || rest.None? then None else Some([first.value] + rest.value)
  }

  function FromFields(fields: seq<Field>, isId: string -> bool): Option<seq<Field>> {
    if fields == [] then Some([])
    else
      var first, rest := FromSerializable(fields[0].value, isId), FromFields(fields[1..], isId);
      if first.None? || rest.None? then None
      else Some((if fields[0].name == PROTO then [] else [Field(fields[0].name, first.value)]) + rest.value)
  }

  /** The tagged forms; and what an object that says it is an ObjectId is written as, so that no reader takes it. */
  lemma TaggedForms(text: string, rest: seq<Field>, isId: string -> bool)
    ensures ToSerializable(ObjectId(text)) == Object([Field("$oid", Text(text))])
    ensures ToSerializable(Date(text)) == Object([Field("$date", Text(text))])
    ensures ToSerializable(Object([Field("_bsontype", Text("ObjectId"))] + rest)) ==
            Object([Field("$oid", Text("[object Object]"))])
    ensures ToFields([Field("__proto__", Text(text))] + rest) == ToFields(rest)
  {
    assert ([Field("__proto__", Text(text))] + rest)[1..] == rest;
  }

  // ---------------------------------------------------------------- the round trip

  /** Ids are ids, and field names are distinct. */
  ghost predicate Stored(v: Value, isId: string -> bool) {
    match v
    case ObjectId(hex) => isId(hex)
    case List(items) => forall i | 0 <= i < |items| :: Stored(items[i], isId)
    case Object(fields) =>
      && (forall i | 0 <= i < |fields| :: Stored(fields[i].value, isId))
      && (forall i, j | 0 <= i < j < |fields| :: fields[i].name != fields[j].name)
    case _ => true
  }

  /** No plain object anywhere in the value has a text for its $oid or $date, poses as an ObjectId, or has
      a field __proto__. */
  ghost predicate Plain(v: Value) {
    match v
    case List(items) => forall i | 0 <= i < |items| :: Plain(items[i])
    case Object(fields) =>
      && !HasText(fields, OID) && !HasText(fields, DATE) && !PosesAsId(fields)
      && (forall i | 0 <= i < |fields| :: fields[i].name != PROTO && Plain(fields[i].value))
    case _ => true
  }

  lemma ToText(v: Value)
    ensures ToSerializable(v).Text? <==> v.Text?
    ensures v.Text? ==> ToSerializable(v) == v
  {
  }

  /** Written fields keep their names and have texts where there were texts. */
  lemma {:induction false} ToFieldsGet(fields: seq<Field>, name: string)
    requires name != PROTO
    ensures Get(ToFields(fields), name).Some? <==> Get(fields, name).Some?
    ensures Get(fields, name).Some? ==> Get(ToFields(fields), name).value == ToSerializable(Get(fields, name).value)
    ensures HasText(ToFields(fields), name) <==> HasText(fields, name)
  {
    if fields != [] {
      ToFieldsGet(fields[1..], name);
      if Get(fields, name).Some? {
        ToText(Get(fields, name).value);
      }
      if fields[0].name != PROTO {
        var t := ToFields(fields);
        assert t[0] == Field(fields[0].name, ToSerializable(fields[0].value)) && t[1..] == ToFields(fields[1..]);
      } else {
        assert ToFields(fields) == ToFields(fields[1..]);
      }
    }
  }

  lemma FromOne(f: Field, more: seq<Field>, isId: string -> bool)
    ensures FromFields([f] + more, isId) ==
            var first, rest := FromSerializable(f.value, isId), FromFields(more, isId);
            if first.None? || rest.None? then None
            else Some((if f.name == PROTO then [] else [Field(f.name, first.value)]) + rest.value)
  {
    assert ([f] + more)[1..] == more;
  }

  lemma FromFirst(v: Value, more: seq<Value>, isId: string -> bool)
    ensures FromItems([v] + more, isId) ==
            var first, rest := FromSerializable(v, isId), FromItems(more, isId);
            if first.None? || rest.None? then None else Some([first.value] + rest.value)
  {
    assert ([v] + more)[1..] == more;
  }

  /** Reading back what was written gives the value exactly when the value is plain. */
  lemma {:induction false} RoundTrip(v: Value, isId: string -> bool)
    requires Stored(v, isId)
    ensures FromSerializable(ToSerializable(v), isId) == Some(v) <==> Plain(v)
    decreases v, 2
  {
    match v
    case ObjectId(hex) => assert HasText([Field(OID, Text(hex))], OID);
    case Date(iso) =>
      var fs := [Field(DATE, Text(iso))];
      assert fs[1..] == [] && Get(fs, OID) == None && HasText(fs, DATE);
    case List(items) =>
      ItemsRoundTrip(v, items, isId);
    case Object(fields) =>
      if !PosesAsId(fields) {
        ToFieldsGet(fields, OID);
        ToFieldsGet(fields, DATE);
        FieldsRoundTrip(v, fields, isId);
      } else {
        assert HasText([Field(OID, Text("[object Object]"))], OID);
      }
    case _ =>
  }

  lemma {:induction false} ItemsRoundTrip(v: Value, items: seq<Value>, isId: string -> bool)
    requires forall i | 0 <= i < |items| :: items[i] < v && Stored(items[i], isId)
    ensures var written := seq(|items|, i requires 0 <= i < |items| => ToSerializable(items[i]));
            FromItems(written, isId) == Some(items) <==> forall i | 0 <= i < |items| :: Plain(items[i])
    decreases v, 1, |items|
  {
    hide Plain;
    hide Stored;
    hide ToSerializable;
    hide FromSerializable;
    var written := seq(|items|, i requires 0 <= i < |items| => ToSerializable(items[i]));
    if items != [] {
      var more := seq(|items[1..]|, i requires 0 <= i < |items[1..]| => ToSerializable(items[1..][i]));
      assert written == [ToSerializable(items[0])] + more;
      FromFirst(ToSerializable(items[0]), more, isId);
      RoundTrip(items[0], isId);
      ItemsRoundTrip(v, items[1..], isId);
      assert items == [items[0]] + items[1..];
      AllItems(items);
    }
  }

  lemma {:induction false} FieldsRoundTrip(v: Value, fields: seq<Field>, isId: string -> bool)
    requires forall i | 0 <= i < |fields| :: fields[i].value < v && Stored(fields[i].value, isId)
    ensures FromFields(ToFields(fields), isId) == Some(fields) <==>
            forall i | 0 <= i < |fields| :: fields[i].name != PROTO && Plain(fields[i].value)
    ensures FromFields(ToFields(fields), isId).Some? ==> |FromFields(ToFields(fields), isId).value| <= |fields|
    decreases v, 1, |fields|
  {
    if fields != [] {
      var f, more := fields[0], fields[1..];
      FieldsRoundTrip(v, more, isId);
      RoundTrip(f.value, isId);
      assert fields == [f] + more;
      if f.name == PROTO {
        assert ToFields(fields) == ToFields(more);
      } else {
        FromOne(Field(f.name, ToSerializable(f.value)), ToFields(more), isId);
        var back := FromFields(ToFields(fields), isId);
        if back == Some(fields) {
          assert back.value[0] == f && back.value[1..] == more;
        }
      }
      AllButFirst(fields);
    }
  }

  lemma AllItems(items: seq<Value>)
    requires items != []
    ensures (forall i | 0 <= i < |items| :: Plain(items[i])) <==>
            Plain(items[0]) && forall i | 0 <= i < |items[1..]| :: Plain(items[1..][i])
  {
    hide Plain;
    if Plain(items[0]) && forall i | 0 <= i < |items[1..]| :: Plain(items[1..][i]) {
      forall i | 0 <= i < |items| ensures Plain(items[i]) {
        if i > 0 { assert items[1..][i - 1] == items[i]; }
      }
    }
  }

  lemma AllButFirst(fields: seq<Field>)
    requires fields != []
    ensures (forall i | 0 <= i < |fields| :: fields[i].name != PROTO && Plain(fields[i].value)) <==>
            fields[0].name != PROTO && Plain(fields[0].value)
            && forall i | 0 <= i < |fields[1..]| :: fields[1..][i].name != PROTO && Plain(fields[1..][i].value)
  {
    hide Plain;
    if fields[0].name != PROTO && Plain(fields[0].value)
       && forall i | 0 <= i < |fields[1..]| :: fields[1..][i].name != PROTO && Plain(fields[1..][i].value) {
      forall i | 0 <= i < |fields| ensures fields[i].name != PROTO && Plain(fields[i].value) {
        if i > 0 { assert fields[1..][i - 1] == fields[i]; }
      }
    }
  }

  // ---------------------------------------------------------------- what is read back is plain

  lemma FromText(v: Value, isId: string -> bool)
    requires FromSerializable(v, isId).Some?
    ensures FromSerializable(v, isId).value.Text? <==> v.Text?
    ensures v.Text? ==> FromSerializable(v, isId) == Some(v)
  {
  }

  /** Fields read back keep their names, have texts where there were texts, and none is named __proto__. */
  lemma {:induction false} FromFieldsGet(fields: seq<Field>, isId: string -> bool, name: string)
    requires FromFields(fields, isId).Some? && name != PROTO
    ensures var out := FromFields(fields, isId).value;
            && (HasText(out, name) <==> HasText(fields, name))
            && (HasText(fields, name) ==> Get(out, name) == Get(fields, name))
            && (Get(out, name).Some? <==> Get(fields, name).Some?)
  {
    if fields != [] {
      FromFieldsGet(fields[1..], isId, name);
      FromText(fields[0].value, isId);
      var first, rest := FromSerializable(fields[0].value, isId), FromFields(fields[1..], isId);
      if fields[0].name == PROTO {
        assert [] + rest.value == rest.value;
      } else {
        var out := [Field(fields[0].name, first.value)] + rest.value;
        assert out[0].name == fields[0].name && out[1..] == rest.value;
      }
    }
  }

  ghost predicate PlainFields(fields: seq<Field>) {
    forall i | 0 <= i < |fields| :: fields[i].name != PROTO && Plain(fields[i].value)
  }

  /** Whatever the value was: what is read back of it is plain. */
  lemma {:induction false} ReadBackPlain(v: Value, isId: string -> bool)
    requires FromSerializable(ToSerializable(v), isId).Some?
    ensures Plain(FromSerializable(ToSerializable(v), isId).value)
    decreases v, 2
  {
    match v
    case ObjectId(hex) => assert HasText([Field(OID, Text(hex))], OID);
    case Date(iso) =>
      var fs := [Field(DATE, Text(iso))];
      assert fs[1..] == [] && Get(fs, OID) == None && HasText(fs, DATE);
    case List(items) =>
      ItemsReadBackPlain(v, items, isId);
    case Object(fields) =>
      if PosesAsId(fields) {
        assert HasText([Field(OID, Text("[object Object]"))], OID);
      } else if !HasText(ToFields(fields), OID) && !HasText(ToFields(fields), DATE) {
        FieldsReadBackPlain(v, fields, isId);
        ReadBackPoses(fields, isId);
      }
    case _ =>
  }

  lemma ReadBackPoses(fields: seq<Field>, isId: string -> bool)
    requires !PosesAsId(fields) && FromFields(ToFields(fields), isId).Some?
    requires !HasText(ToFields(fields), OID) && !HasText(ToFields(fields), DATE)
    requires PlainFields(FromFields(ToFields(fields), isId).value)
    ensures Plain(Object(FromFields(ToFields(fields), isId).value))
  {
    NamesDiffer();
    ToFieldsGet(fields, BSON_TYPE);
    FromFieldsGet(ToFields(fields), isId, BSON_TYPE);
    FromFieldsGet(ToFields(fields), isId, OID);
    FromFieldsGet(ToFields(fields), isId, DATE);
    if Get(fields, BSON_TYPE).Some? { ToText(Get(fields, BSON_TYPE).value); }
    hide ToSerializable;
    hide FromSerializable;
    hide ToFields;
    hide FromFields;
    hide Get;
  }

  lemma {:induction false} ItemsReadBackPlain(v: Value, items: seq<Value>, isId: string -> bool)
    requires forall i | 0 <= i < |items| :: items[i] < v
    requires FromItems(seq(|items|, i requires 0 <= i < |items| => ToSerializable(items[i])), isId).Some?
    ensures var read := FromItems(seq(|items|, i requires 0 <= i < |items| => ToSerializable(items[i])), isId).value;
            forall i | 0 <= i < |read| :: Plain(read[i])
    decreases v, 1, |items|
  {
    hide Plain;
    hide ToSerializable;
    hide FromSerializable;
    if items != [] {
      var written := seq(|items|, i requires 0 <= i < |items| => ToSerializable(items[i]));
      var more := seq(|items[1..]|, i requires 0 <= i < |items[1..]| => ToSerializable(items[1..][i]));
      assert written == [ToSerializable(items[0])] + more;
      FromFirst(ToSerializable(items[0]), more, isId);
      ReadBackPlain(items[0], isId);
      ItemsReadBackPlain(v, items[1..], isId);
    }
  }

  lemma {:induction false} FieldsReadBackPlain(v: Value, fields: seq<Field>, isId: string -> bool)
    requires forall i | 0 <= i < |fields| :: fields[i].value < v
    requires FromFields(ToFields(fields), isId).Some?
    ensures PlainFields(FromFields(ToFields(fields), isId).value)
    decreases v, 1, |fields|
  {
    hide Plain;
    hide ToSerializable;
    hide FromSerializable;
    if fields != [] {
      var f, more := fields[0], fields[1..];
      if f.name == PROTO {
        assert ToFields(fields) == ToFields(more);
        FieldsReadBackPlain(v, more, isId);
      } else {
        FromOne(Field(f.name, ToSerializable(f.value)), ToFields(more), isId);
        ReadBackPlain(f.value, isId);
        FieldsReadBackPlain(v, more, isId);
      }
    }
  }

  // ---------------------------------------------------------------- collections

  const ID := "_id"

  /** The other fields of each document, by _id. */
  type Collection = map<Value, seq<Field>>

  function DocumentOf(id: Value, rest: seq<Field>): Value {
    Object([Field(ID, id)] + rest)
  }

  function WithoutId(fields: seq<Field>): seq<Field> {
    if fields == [] then [] else (if fields[0].name == ID then [] else [fields[0]]) + WithoutId(fields[1..])
  }

  /** One document of the snapshot, put in place of what has its _id; a value that is no document fails. */
  function Upserted(coll: Collection, written: Value, isId: string -> bool): Option<Collection> {
    match FromSerializable(written, isId)
    case None => None
    case Some(doc) =>
      if doc.Object? && Get(doc.fields, ID).Some? then Some(coll[Get(doc.fields, ID).value := WithoutId(doc.fields)])
        else None
  }

  /** A document as it is read back from a snapshot: its _id and its other fields, if it can be read. */
  ghost function Back(id: Value, rest: seq<Field>, isId: string -> bool): Option<(Value, seq<Field>)> {
    match FromSerializable(ToSerializable(DocumentOf(id, rest)), isId)
    case None => None
    case Some(doc) =>
      if doc.Object? && Get(doc.fields, ID).Some? then Some((Get(doc.fields, ID).value, WithoutId(doc.fields)))
        else None
  }

  lemma UpsertedBack(coll: Collection, id: Value, rest: seq<Field>, isId: string -> bool)
    ensures Upserted(coll, ToSerializable(DocumentOf(id, rest)), isId) ==
            match Back(id, rest, isId) case None => None case Some(b) => Some(coll[b.0 := b.1])
  {
    hide ToSerializable;
    hide FromSerializable;
    hide WithoutId;
    hide Get;
  }

  /** Every document can be read back. */
  ghost predicate Readable(coll: Collection, isId: string -> bool) {
    forall id | id in coll :: Back(id, coll[id], isId).Some?
  }

  /** The _ids that the documents have when they are read back. */
  ghost function BackIds(coll: Collection, isId: string -> bool): set<Value> {
    set id | id in coll && Back(id, coll[id], isId).Some? :: Back(id, coll[id], isId).value.0
  }

  /** A collection of just what is read back: the _ids, and for each one document that has it then. */
  ghost predicate IsBack(coll: Collection, before: Collection, isId: string -> bool) {
    && coll.Keys == BackIds(before, isId)
    && forall x | x in coll :: exists id :: id in before && Back(id, before[id], isId) == Some((x, coll[x]))
  }

  /** A plain collection comes back as it was, and as many documents as it had. */
  lemma PlainIsBack(coll: Collection, before: Collection, isId: string -> bool)
    requires PlainCollection(before, isId)
    ensures Readable(before, isId) && BackIds(before, isId) == before.Keys
    ensures IsBack(coll, before, isId) ==> coll == before
  {
    hide Back;
    hide Stored;
    hide Plain;
    forall id | id in before ensures Back(id, before[id], isId) == Some((id, before[id])) {
      PlainBack(id, before[id], isId);
    }
    if IsBack(coll, before, isId) {
      assert coll.Keys == before.Keys;
      forall x | x in coll ensures coll[x] == before[x] {
        var id :| id in before && Back(id, before[id], isId) == Some((x, coll[x]));
      }
    }
  }

  lemma PlainBack(id: Value, rest: seq<Field>, isId: string -> bool)
    requires Stored(DocumentOf(id, rest), isId) && Plain(DocumentOf(id, rest))
    ensures Back(id, rest, isId) == Some((id, rest))
  {
    UpsertPlain(map[], id, rest, isId);
    UpsertedBack(map[], id, rest, isId);
    hide *;
    var back := Back(id, rest, isId);
    assert back.Some? && map[][back.value.0 := back.value.1] == map[id := rest];
    assert back.value.0 in map[id := rest] && map[id := rest][back.value.0] == back.value.1;
  }

  ghost predicate PlainCollection(coll: Collection, isId: string -> bool) {
    forall id | id in coll :: Stored(DocumentOf(id, coll[id]), isId) && Plain(DocumentOf(id, coll[id]))
  }

  /** Ids and field names of every document are as the database keeps them. */
  ghost predicate StoredCollection(coll: Collection, isId: string -> bool) {
    forall id | id in coll :: Stored(DocumentOf(id, coll[id]), isId)
  }

  /** No document has what a snapshot would change. */
  ghost predicate PlainDocuments(coll: Collection) {
    forall id | id in coll :: Plain(DocumentOf(id, coll[id]))
  }

  lemma {:induction false} WithoutIdGet(fields: seq<Field>, name: string)
    requires name != ID
    ensures Get(WithoutId(fields), name) == Get(fields, name)
  {
    if fields != [] {
      WithoutIdGet(fields[1..], name);
      if fields[0].name != ID {
        assert ([fields[0]] + WithoutId(fields[1..]))[1..] == WithoutId(fields[1..]);
      } else {
        assert [] + WithoutId(fields[1..]) == WithoutId(fields[1..]);
      }
    }
  }

  lemma {:induction false} PlainParts(fields: seq<Field>)
    requires PlainFields(fields)
    ensures PlainFields(WithoutId(fields))
    ensures Get(fields, ID).Some? ==> Plain(Get(fields, ID).value)
  {
    hide Plain;
    if fields != [] {
      assert forall i | 0 <= i < |fields[1..]| :: fields[1..][i] == fields[i + 1];
      PlainParts(fields[1..]);
    }
  }

  /** Taking the _id of a plain document apart and putting it in front leaves it plain. */
  lemma PlainDocument(fields: seq<Field>)
    requires Plain(Object(fields)) && Get(fields, ID).Some?
    ensures Plain(DocumentOf(Get(fields, ID).value, WithoutId(fields)))
  {
    var id, rest := Get(fields, ID).value, WithoutId(fields);
    var doc := [Field(ID, id)] + rest;
    NamesDiffer();
    PlainParts(fields);
    forall name | name != ID ensures Get(doc, name) == Get(fields, name) {
      WithoutIdGet(fields, name);
      assert doc[0].name == ID && doc[1..] == rest;
    }
    forall i | 0 <= i < |doc| ensures doc[i].name != PROTO && Plain(doc[i].value) {
      if i > 0 { assert doc[i] == rest[i - 1]; }
    }
    hide Get;
    hide WithoutId;
    assert HasText(doc, OID) <==> HasText(fields, OID);
    assert HasText(doc, DATE) <==> HasText(fields, DATE);
    assert PosesAsId(doc) <==> PosesAsId(fields);
  }

  /** Whatever was written: a collection of plain documents stays one. */
  lemma UpsertedPlain(coll: Collection, doc: Value, isId: string -> bool)
    requires PlainDocuments(coll) && Upserted(coll, ToSerializable(doc), isId).Some?
    ensures PlainDocuments(Upserted(coll, ToSerializable(doc), isId).value)
  {
    ReadBackPlain(doc, isId);
    var read := FromSerializable(ToSerializable(doc), isId).value;
    PlainDocument(read.fields);
    hide Plain;
    hide ToSerializable;
    hide FromSerializable;
    hide WithoutId;
    hide Get;
  }

  lemma StoredPlain(coll: Collection, isId: string -> bool)
    ensures PlainCollection(coll, isId) <==> StoredCollection(coll, isId) && PlainDocuments(coll)
  {
    hide Stored;
    hide Plain;
  }

  lemma NoDocuments()
    ensures PlainDocuments(map[])
  {
  }

  lemma {:induction false} WithoutNoId(fields: seq<Field>)
    requires forall i | 0 <= i < |fields| :: fields[i].name != ID
    ensures WithoutId(fields) == fields
  {
    if fields != [] {
      WithoutNoId(fields[1..]);
      assert fields == [fields[0]] + fields[1..];
    }
  }

  /** A plain document is put back as it was. */
  lemma UpsertPlain(coll: Collection, id: Value, rest: seq<Field>, isId: string -> bool)
    requires Stored(DocumentOf(id, rest), isId) && Plain(DocumentOf(id, rest))
    ensures Upserted(coll, ToSerializable(DocumentOf(id, rest)), isId) == Some(coll[id := rest])
  {
    RoundTrip(DocumentOf(id, rest), isId);
    var fields := [Field(ID, id)] + rest;
    assert fields[0] == Field(ID, id) && fields[1..] == rest;
    forall i | 0 <= i < |rest| ensures rest[i].name != ID {
      assert fields[i + 1] == rest[i] && fields[0].name != fields[i + 1].name;
    }
    WithoutNoId(rest);
    assert WithoutId(fields) == rest;
  }

  /** Every document, written out, in whatever order the cursor gives them. */
  method BackupCollection(coll: Collection) returns (snapshot: seq<Value>, ghost ids: seq<Value>)
    ensures |snapshot| == |ids| && forall i | 0 <= i < |ids| ::
            ids[i] in coll && snapshot[i] == ToSerializable(DocumentOf(ids[i], coll[ids[i]]))
    ensures forall id | id in coll :: id in ids
    ensures |snapshot| == |coll|
  {
    snapshot, ids := [], [];
    var rest := coll.Keys;
    while rest != {}
      invariant rest <= coll.Keys
      invariant |snapshot| == |ids| && forall i | 0 <= i < |ids| ::
                ids[i] in coll && snapshot[i] == ToSerializable(DocumentOf(ids[i], coll[ids[i]]))
      invariant forall id | id in coll :: id in rest || id in ids
      invariant |snapshot| + |rest| == |coll|
      decreases |rest|
    {
      var id :| id in rest;
      rest := rest - {id};
      snapshot := snapshot + [ToSerializable(DocumentOf(id, coll[id]))];
      ids := ids + [id];
    }
  }

  class Database {
    var collections: map<string, Collection>

    method DeleteMany(name: string)
      requires name in collections
      modifies this
      ensures collections == old(collections)[name := map[]]
    {
      collections := collections[name := map[]];
    }

    /** Put the snapshot's documents into the collection. It stops at one that cannot be read or written. */
    method RestoreCollection(name: string, snapshot: seq<Value>, isId: string -> bool, written: nat -> bool,
                             ghost before: Collection, ghost ids: seq<Value>) returns (ok: bool)
      requires name in collections && collections[name] == map[]
      requires IsSnapshot(snapshot, ids, before)
      modifies this
      ensures collections.Keys == old(collections).Keys
      ensures forall other | other in collections && other != name :: collections[other] == old(collections)[other]
      ensures ok <==> Readable(before, isId) && forall k: nat | k < |snapshot| :: written(k)
      ensures ok ==> IsBack(collections[name], before, isId)
      ensures PlainDocuments(collections[name])
    {
      hide ToSerializable;
      hide Upserted;
      hide Back;
      hide PlainDocuments;
      NoDocuments();
      for k := 0 to |snapshot|
        invariant collections.Keys == old(collections).Keys
        invariant forall other | other in collections && other != name :: collections[other] == old(collections)[other]
        invariant PlainDocuments(collections[name])
        invariant forall i: nat | i < k :: written(i)
        invariant forall i | 0 <= i < k :: Back(ids[i], before[ids[i]], isId).Some?
                                           && Back(ids[i], before[ids[i]], isId).value.0 in collections[name]
        invariant forall x | x in collections[name] ::
                    exists i | 0 <= i < k :: Back(ids[i], before[ids[i]], isId) == Some((x, collections[name][x]))
      {
        var next := Upserted(collections[name], snapshot[k], isId);
        UpsertedBack(collections[name], ids[k], before[ids[k]], isId);
        if !written(k) || next.None? { return false; }
        UpsertedPlain(collections[name], DocumentOf(ids[k], before[ids[k]]), isId);
        collections := collections[name := next.value];
      }
      ok := true;
    }

    /** Every collection's snapshot. */
    method SnapshotAll(names: seq<string>)
      returns (snapshots: seq<seq<Value>>, documents: seq<nat>, ghost ids: seq<seq<Value>>)
      requires forall i | 0 <= i < |names| :: names[i] in collections
      ensures |snapshots| == |documents| == |ids| == |names|
      ensures forall k | 0 <= k < |names| ::
                && documents[k] == |snapshots[k]| == |collections[names[k]]|
                && IsSnapshot(snapshots[k], ids[k], collections[names[k]])
    {
      hide ToSerializable;
      snapshots, documents, ids := [], [], [];
      for i := 0 to |names|
        invariant |snapshots| == |documents| == |ids| == i
        invariant forall k | 0 <= k < i ::
                    && documents[k] == |snapshots[k]| == |collections[names[k]]|
                    && IsSnapshot(snapshots[k], ids[k], collections[names[k]])
      {
        var snapshot, order := BackupCollection(collections[names[i]]);
        snapshots, documents, ids := snapshots + [snapshot], documents + [|snapshot|], ids + [order];
      }
    }

    /** Snapshot everything; then, when told to, clear and restore one collection after the other and count
        what came back. */
    method Drill(names: seq<string>, isId: string -> bool, apply: bool, written: nat -> nat -> bool)
      returns (finished: bool, documents: seq<nat>, restored: seq<nat>, verified: bool)
      requires forall i | 0 <= i < |names| :: names[i] in collections
      requires forall i, j | 0 <= i < j < |names| :: names[i] != names[j]
      modifies this
      ensures !apply ==> collections == old(collections)
      ensures collections.Keys == old(collections).Keys
      ensures forall other | other in collections && other !in names :: collections[other] == old(collections)[other]
      ensures |documents| == |names| && forall i | 0 <= i < |names| :: documents[i] == |old(collections)[names[i]]|
      ensures finished <==> !apply || forall i | 0 <= i < |names| ::
                Readable(old(collections)[names[i]], isId)
                  && forall k: nat | k < |old(collections)[names[i]]| :: written(i)(k)
      ensures finished && apply ==> |restored| == |names| && forall i | 0 <= i < |names| ::
                && IsBack(collections[names[i]], old(collections)[names[i]], isId)
                && restored[i] == |BackIds(old(collections)[names[i]], isId)|
      ensures finished && apply ==> (verified <==> restored == documents)
      ensures !finished || !apply ==> !verified
      ensures finished && apply && AllPlain(old(collections), names, isId) ==>
              collections == old(collections) && verified
      ensures finished && apply && AllStored(old(collections), names, isId) ==>
                (collections == old(collections) <==> AllPlain(old(collections), names, isId))
    {
      hide *;
      ghost var before := collections;
      restored, verified := [], false;
      var snapshots;
      ghost var ids;
      snapshots, documents, ids := SnapshotAll(names);
      if !apply { return true, documents, restored, verified; }
      for i := 0 to |names|
        invariant |restored| == i && collections.Keys == before.Keys
        invariant forall other | other in before && other !in names[..i] :: collections[other] == before[other]
        invariant forall k | 0 <= k < i ::
                    && Readable(before[names[k]], isId) && (forall j: nat | j < documents[k] :: written(k)(j))
                    && IsBack(collections[names[k]], before[names[k]], isId)
                    && restored[k] == |BackIds(before[names[k]], isId)|
                    && PlainDocuments(collections[names[k]])
      {
        PrefixNext(names, i);
        var ok := ClearAndRestore(names[i], snapshots[i], isId, written(i), before[names[i]], ids[i]);
        if !ok { return false, documents, restored, false; }
        BackCounts(collections[names[i]], before[names[i]], isId);
        restored := restored + [|collections[names[i]]|];
      }
      PrefixNext(names, |names|);
      if AllPlain(before, names, isId) { AllBack(before, collections, names, isId); }
      verified := restored == documents;
      finished := true;
      if collections == before && AllStored(before, names, isId) { BackMeansPlain(before, names, isId); }
    }

    method ClearAndRestore(name: string, snapshot: seq<Value>, isId: string -> bool, written: nat -> bool,
                           ghost before: Collection, ghost ids: seq<Value>) returns (ok: bool)
      requires name in collections && IsSnapshot(snapshot, ids, before)
      modifies this
      ensures collections.Keys == old(collections).Keys
      ensures forall other | other in collections && other != name :: collections[other] == old(collections)[other]
      ensures ok <==> Readable(before, isId) && forall k: nat | k < |snapshot| :: written(k)
      ensures ok ==> IsBack(collections[name], before, isId)
      ensures ok ==> PlainDocuments(collections[name])
    {
      hide *;
      DeleteMany(name);
      ok := RestoreCollection(name, snapshot, isId, written, before, ids);
    }
  }

  lemma BackCounts(coll: Collection, before: Collection, isId: string -> bool)
    requires IsBack(coll, before, isId)
    ensures |coll| == |BackIds(before, isId)|
  {
    hide BackIds;
    assert |coll| == |coll.Keys|;
  }

  lemma AllBack(before: map<string, Collection>, after: map<string, Collection>, names: seq<string>,
                isId: string -> bool)
    requires forall i | 0 <= i < |names| :: names[i] in before && names[i] in after
    requires AllPlain(before, names, isId)
    requires forall i | 0 <= i < |names| :: IsBack(after[names[i]], before[names[i]], isId)
    ensures forall i | 0 <= i < |names| ::
              after[names[i]] == before[names[i]] && |BackIds(before[names[i]], isId)| == |before[names[i]]|
  {
    hide *;
    forall i | 0 <= i < |names|
      ensures after[names[i]] == before[names[i]] && |BackIds(before[names[i]], isId)| == |before[names[i]]|
    {
      PlainAt(before, names, isId, i);
      PlainIsBack(after[names[i]], before[names[i]], isId);
      assert |before[names[i]]| == |before[names[i]].Keys|;
    }
  }

  ghost predicate AllPlain(collections: map<string, Collection>, names: seq<string>, isId: string -> bool)
    requires forall i | 0 <= i < |names| :: names[i] in collections
  {
    forall i | 0 <= i < |names| :: PlainCollection(collections[names[i]], isId)
  }

  ghost predicate AllStored(collections: map<string, Collection>, names: seq<string>, isId: string -> bool)
    requires forall i | 0 <= i < |names| :: names[i] in collections
  {
    forall i | 0 <= i < |names| :: StoredCollection(collections[names[i]], isId)
  }

  lemma BackMeansPlain(collections: map<string, Collection>, names: seq<string>, isId: string -> bool)
    requires forall i | 0 <= i < |names| :: names[i] in collections
    requires AllStored(collections, names, isId)
    requires forall i | 0 <= i < |names| :: PlainDocuments(collections[names[i]])
    ensures AllPlain(collections, names, isId)
  {
    hide StoredCollection;
    hide PlainDocuments;
    hide PlainCollection;
    forall i | 0 <= i < |names| ensures PlainCollection(collections[names[i]], isId) {
      StoredPlain(collections[names[i]], isId);
    }
  }

  lemma PlainAt(collections: map<string, Collection>, names: seq<string>, isId: string -> bool, i: nat)
    requires forall k | 0 <= k < |names| :: names[k] in collections
    requires i < |names| && AllPlain(collections, names, isId)
    ensures PlainCollection(collections[names[i]], isId)
  {
    hide PlainCollection;
  }

  lemma PrefixNext(names: seq<string>, i: nat)
    requires i <= |names| && forall i, j | 0 <= i < j < |names| :: names[i] != names[j]
    ensures i < |names| ==> names[i] !in names[..i] && names[..i + 1] == names[..i] + [names[i]]
    ensures names[..|names|] == names
    ensures forall x | x in names[..i] :: x in names && exists k | 0 <= k < i :: names[k] == x
  {
  }

  ghost predicate IsSnapshot(snapshot: seq<Value>, ids: seq<Value>, coll: Collection) {
    && |snapshot| == |ids| && (forall i | 0 <= i < |ids| ::
                               ids[i] in coll && snapshot[i] == ToSerializable(DocumentOf(ids[i], coll[ids[i]])))
    && (forall id | id in coll :: id in ids)
  }

  lemma GetTwo(f: Field, g: Field, name: string)
    ensures Get([f], name) == if f.name == name then Some(f.value) else None
    ensures Get([f] + [g], name) == if f.name == name then Some(f.value) else if g.name == name then Some(g.value)
            else None
  {
    assert ([f] + [g])[1..] == [g] && [g][1..] == [] && [f][1..] == [];
  }

  lemma NamesDiffer()
    ensures OID != BSON_TYPE && OID != DATE && OID != PROTO && ID != BSON_TYPE && ID != OID && ID != DATE && ID != PROTO
    ensures "ref" != BSON_TYPE && "ref" != OID && "ref" != DATE && "ref" != ID && "ref" != PROTO
  {
    assert |"ref"| == |ID| == 3 && |OID| == 4 && |DATE| == 5 && |BSON_TYPE| == |PROTO| == 9;
    assert "ref"[0] == 'r' && ID[0] == '_';
  }

  /** Equal counts do not show equal documents: a text $oid inside a document comes back as an ObjectId, and
      the collection has as many documents as before. */
  lemma CountsMissIt(isId: string -> bool, id: Value, oid: string)
    requires isId(oid) && (id.Number? || id.Text?)
    ensures var rest := [Field("ref", Object([Field(OID, Text(oid))]))];
            var back := Upserted(map[], ToSerializable(DocumentOf(id, rest)), isId);
            back.Some? && |back.value| == 1 && id in back.value && back.value[id] == [Field("ref", ObjectId(oid))]
  {
    var inner := Object([Field(OID, Text(oid))]);
    var ref := Field("ref", inner);
    var read := Field("ref", ObjectId(oid));
    NamesDiffer();
    var oidField := Field(OID, Text(oid));
    GetTwo(oidField, oidField, BSON_TYPE);
    GetTwo(oidField, oidField, OID);
    assert [oidField][1..] == [] && !PosesAsId([oidField]);
    assert ToFields([oidField]) == [oidField] + [];
    assert ToSerializable(inner) == inner;
    assert FromSerializable(inner, isId) == Some(ObjectId(oid));
    assert [ref][1..] == [] && [read][1..] == [];
    assert ToFields([ref]) == [ref] + [];
    assert FromFields([ref], isId) == Some([read] + []);
    var fields, back := [Field(ID, id)] + [ref], [Field(ID, id)] + [read];
    GetTwo(Field(ID, id), ref, BSON_TYPE);
    GetTwo(Field(ID, id), ref, OID);
    GetTwo(Field(ID, id), ref, DATE);
    GetTwo(Field(ID, id), read, ID);
    assert fields[1..] == [ref] && back[1..] == [read];
    assert ToFields(fields) == fields;
    assert [read] + [] == [read] && [ref] + [] == [ref];
    FromOne(Field(ID, id), [ref], isId);
    assert FromSerializable(id, isId) == Some(id) && ToSerializable(id) == id;
    assert FromFields(fields, isId) == Some(back);
    assert !PosesAsId(fields) && !HasText(fields, OID) && !HasText(fields, DATE);
    assert FromSerializable(Object(fields), isId) == Some(Object(back));
    assert WithoutId([read]) == [read] + [];
    assert WithoutId(back) == [] + [read];
  }
}

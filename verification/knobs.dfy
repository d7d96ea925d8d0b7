/** The knob tables of the story schematic: the default value
    `getKnobDefaultValue` gives a member's type kind, and the knob type the
    member mapping looks up for it. */
module Knobs {
  import opened Wrappers
  import opened SyntaxTree

  /** `KnobType` of the source; `Select` is declared there but never produced. */
  datatype KnobType = Text | Boolean | Number | Select

  /** The JavaScript values the tables hold, plus `undefined`. */
  datatype JsValue = JsString(s: string) | JsNumber(n: int) | JsBoolean(b: bool) | Undefined

  /** `typeof v` */
  function TypeOf(v: JsValue): (r: string)
    ensures r == "undefined" <==> v.Undefined?
  {
    match v
    case JsString(_) => "string"
    case JsNumber(_) => "number"
    case JsBoolean(_) => "boolean"
    case Undefined => "undefined"
  }

  /** `typeNameToDefault`; the string default is the two-character literal
      `''`, which the template prints verbatim. */
  const DefaultByKind: map<TypeKind, JsValue> :=
    map[StringKeyword := JsString("''"), NumberKeyword := JsNumber(0), BooleanKeyword := JsBoolean(false)]

  /** `initializerKindToKnobType` */
  const KnobTypeByKind: map<TypeKind, KnobType> :=
    map[StringKeyword := Text, NumberKeyword := Number, BooleanKeyword := Boolean]

  /** A knob type that goes with a default value: text with a string,
      number with a number, boolean with a boolean, and no knob type with
      `undefined`. */
  predicate Matches(t: Option<KnobType>, v: JsValue) {
    match t
    case Some(Text) => v.JsString?
    case Some(Number) => v.JsNumber?
    case Some(Boolean) => v.JsBoolean?
    case Some(Select) => false
    case None => v.Undefined?
  }

  /** `getKnobDefaultValue`. Indexing the table with a missing kind yields
      `undefined`. The fallback test compares the string `typeof` returns
      with the value `undefined`, which never holds, so the `''` fallback is
      dead and an unrecognised kind gets `undefined` (evidently intended:
      `''`). */
  function KnobDefaultValue(kind: TypeKind): (v: JsValue)
    ensures kind == StringKeyword ==> v == JsString("''")
    ensures kind == NumberKeyword ==> v == JsNumber(0)
    ensures kind == BooleanKeyword ==> v == JsBoolean(false)
    ensures v.Undefined? <==> kind == OtherKind
    ensures Matches(KnobTypeOf(kind), v)
  {
    assert kind.StringKeyword? || kind.NumberKeyword? || kind.BooleanKeyword? || kind.OtherKind?;
    var resolved := if kind in DefaultByKind then DefaultByKind[kind] else Undefined;
    if JsString(TypeOf(resolved)) == Undefined then JsString("''") else resolved
  }

  /** `initializerKindToKnobType[kind]`; `None` is the `undefined` a missing
      kind yields. */
  function KnobTypeOf(kind: TypeKind): (t: Option<KnobType>)
    ensures kind == StringKeyword ==> t == Some(Text)
    ensures kind == NumberKeyword ==> t == Some(Number)
    ensures kind == BooleanKeyword ==> t == Some(Boolean)
    ensures t.None? <==> kind == OtherKind
    ensures t != Some(Select)
  {
    assert kind.StringKeyword? || kind.NumberKeyword? || kind.BooleanKeyword? || kind.OtherKind?;
    if kind in KnobTypeByKind then Some(KnobTypeByKind[kind]) else None
  }

  /** The knob's name as it appears in the joined `usedKnobs` list;
      `Array.prototype.join` renders `undefined` as the empty string. */
  function KnobName(t: Option<KnobType>): (name: string)
    ensures t == Some(Text) ==> name == "text"
    ensures t == Some(Number) ==> name == "number"
    ensures t == Some(Boolean) ==> name == "boolean"
    ensures t == Some(Select) ==> name == "select"
    ensures ',' !in name
    ensures name == "" <==> t.None?
  {
    match t
    case Some(Text) => "text"
    case Some(Boolean) => "boolean"
    case Some(Number) => "number"
    case Some(Select) => "select"
    case None => ""
  }
}

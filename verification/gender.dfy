/**
 * Gender labels (`src/features/common/lib/gender.ts` and the inline tables of
 * three pages): the stored value `male` / `female` / `other` is shown as its
 * Japanese label, anything else as itself.
 *
 * The source reads the label with `table[gender] || gender` on a plain object
 * literal. Such a read also finds the members every object inherits from
 * `Object.prototype`, so `LabelAsWritten` models the read as JavaScript
 * performs it, and `GetGenderLabel` is the own-property lookup the code means.
 */
module Gender {

  /** The label table of `gender.ts`. */
  const Labels: map<string, string> := map["male" := "男性", "female" := "女性", "other" := "その他"]

  /**
   * The object literal `{ male: "男性", female: "女性", other: "その他" }` written
   * inline in three pages: the same entries as `Labels`, so the same map.
   */
  const InlineLabels: map<string, string> := map["other" := "その他", "female" := "女性", "male" := "男性"]

  /** Names an object literal inherits from `Object.prototype` (ECMA-262 and Annex B). */
  const ObjectPrototypeMembers: set<string> := {
    "constructor", "hasOwnProperty", "isPrototypeOf", "propertyIsEnumerable",
    "toLocaleString", "toString", "valueOf", "__proto__",
    "__defineGetter__", "__defineSetter__", "__lookupGetter__", "__lookupSetter__"
  }

  /** The value of a property read: an own string, an inherited member (a function or object), or `undefined`. */
  datatype JsValue = Str(s: string) | Inherited(name: string) | Undefined

  /** `table[key]` on an object literal built from `table`. */
  function Read(table: map<string, string>, key: string): JsValue
  {
    if key in table then Str(table[key])
    else if key in ObjectPrototypeMembers then Inherited(key)
    else Undefined
  }

  /** JavaScript truthiness of a read value: functions and objects are truthy, "" is not. */
  predicate Truthy(v: JsValue)
  {
    match v
    case Str(s) => s != ""
    case Inherited(_) => true
    case Undefined => false
  }

  /** `table[gender] || gender`, as the source evaluates it. */
  function LabelAsWritten(table: map<string, string>, gender: string): (v: JsValue)
    ensures v.Str? || gender in ObjectPrototypeMembers
  {
    var read := Read(table, gender);
    if Truthy(read) then read else Str(gender)
  }

  /** The prototype read is not hypothetical: the gender `"toString"` yields a function, not a string. */
  lemma LabelAsWrittenLeaksPrototype()
    ensures LabelAsWritten(Labels, "toString") == Inherited("toString")
    ensures !LabelAsWritten(InlineLabels, "constructor").Str?
  {
  }

  /** `getGenderLabel(gender)` with an own-property lookup: the label, or the value unchanged. */
  function GetGenderLabel(gender: string): (r: string)
    ensures gender == "male" ==> r == "男性"
    ensures gender == "female" ==> r == "女性"
    ensures gender == "other" ==> r == "その他"
    ensures gender != "male" && gender != "female" && gender != "other" ==> r == gender
    ensures |r| == 0 <==> |gender| == 0
  {
    if gender in Labels then Labels[gender] else gender
  }

  /** On every value that is not an inherited member name, the source's read agrees with `GetGenderLabel`. */
  lemma AsWrittenAgreesOffPrototype(gender: string)
    requires gender !in ObjectPrototypeMembers
    ensures LabelAsWritten(Labels, gender) == Str(GetGenderLabel(gender))
  {
  }

}

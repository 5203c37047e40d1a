/**
 * The model registry (src/lib/models.ts) and the expression that turns a requested model
 * identifier into the provider's model string (src/lib/analyzeContract.ts:159).
 */
module ModelRegistry {
  import opened Wrappers

  /** One own property of the `models` object: short identifier and provider model string. */
  datatype Entry = Entry(key: string, value: string)

  predicate DistinctKeys(entries: seq<Entry>) {
    forall i, j :: 0 <= i < j < |entries| ==> entries[i].key != entries[j].key
  }

  /** An object literal's own properties in property order. None of the keys here is an
      array index, so that order is insertion order. */
  type Registry = entries: seq<Entry> | DistinctKeys(entries) witness []

  const Models: Registry := [Entry("geminiPro", "google/gemini-2.0-pro-exp-02-05:free")]

  const DefaultModel: string := "meta-llama/llama-3.3-70b-instruct:free"

  /** The own property `key` of the registry, if it has one. */
  function OwnProperty(reg: Registry, key: string): (r: Option<string>)
    ensures r.Some? <==> exists i :: 0 <= i < |reg| && reg[i].key == key
    ensures forall i :: 0 <= i < |reg| && reg[i].key == key ==> r == Some(reg[i].value)
    decreases |reg|
  {
    if reg == [] then None
    else if reg[0].key == key then Some(reg[0].value)
    else
      var tail: Registry := reg[1..];
      var r := OwnProperty(tail, key);
      assert forall i :: 1 <= i < |reg| ==> reg[i] == tail[i - 1];
      r
  }

  /** An element of the list `getAvailableModels` returns. */
  datatype ModelInfo = ModelInfo(id: string, name: string)

  /** `Object.entries(reg).map(([key, value]) => ({ id: key, name: value }))`. */
  function AvailableModels(reg: Registry): (r: seq<ModelInfo>)
    ensures |r| == |reg|
    ensures forall i :: 0 <= i < |r| ==> r[i].id == reg[i].key
    ensures forall i :: 0 <= i < |r| ==> OwnProperty(reg, r[i].id) == Some(r[i].name)
    ensures forall i, j :: 0 <= i < j < |r| ==> r[i].id != r[j].id
    ensures forall key :: OwnProperty(reg, key).Some? <==> exists i :: 0 <= i < |r| && r[i].id == key
  {
    seq(|reg|, i requires 0 <= i < |reg| => ModelInfo(reg[i].key, reg[i].value))
  }

  /** `getAvailableModels()`: the one shipped model. */
  function GetAvailableModels(): (r: seq<ModelInfo>)
    ensures r == [ModelInfo("geminiPro", "google/gemini-2.0-pro-exp-02-05:free")]
  {
    AvailableModels(Models)
  }

  /** The registry holds exactly one model, and the list offered to the user is that one. */
  lemma ModelsContents()
    ensures OwnProperty(Models, "geminiPro") == Some("google/gemini-2.0-pro-exp-02-05:free")
    ensures forall key :: OwnProperty(Models, key).Some? ==> key == "geminiPro"
    ensures GetAvailableModels() == [ModelInfo("geminiPro", "google/gemini-2.0-pro-exp-02-05:free")]
  {
  }

  /** `models[modelType] || "meta-llama/llama-3.3-70b-instruct:free"`, reading only the
      registry's own properties: a registered identifier with a non-empty model string
      resolves to it, anything else to the default. */
  function ResolveModel(reg: Registry, key: string): (r: string)
    ensures forall i :: 0 <= i < |reg| && reg[i].key == key && reg[i].value != "" ==>
              r == reg[i].value
    ensures (forall i :: 0 <= i < |reg| ==> reg[i].key != key) ==> r == DefaultModel
    ensures r == DefaultModel || exists i :: 0 <= i < |reg| && reg[i].key == key && reg[i].value == r
  {
    match OwnProperty(reg, key)
    case Some(v) => if v != "" then v else DefaultModel
    case None => DefaultModel
  }

  /** Resolution agrees with the list the user picks from: each offered identifier resolves to
      the name shown beside it, and an identifier that is not offered gets the default. */
  lemma ResolveMatchesAvailable(reg: Registry, key: string)
    requires forall i :: 0 <= i < |reg| ==> reg[i].value != ""
    ensures forall m :: m in AvailableModels(reg) ==> ResolveModel(reg, m.id) == m.name
    ensures (forall m :: m in AvailableModels(reg) ==> m.id != key) ==>
              ResolveModel(reg, key) == DefaultModel
  {
    var r := AvailableModels(reg);
    forall m | m in r ensures ResolveModel(reg, m.id) == m.name {
      var i :| 0 <= i < |r| && r[i] == m;
    }
  }

  /** For the shipped registry: "geminiPro" resolves to its Gemini model, everything else to
      the Llama default. */
  lemma ResolveShippedRegistry(key: string)
    ensures key == "geminiPro" ==> ResolveModel(Models, key) == "google/gemini-2.0-pro-exp-02-05:free"
    ensures key != "geminiPro" ==> ResolveModel(Models, key) == DefaultModel
  {
  }

  /** A value read from a JavaScript property. */
  datatype JsValue =
    | JsString(s: string)
    | JsObject      // a function or object, e.g. one inherited from Object.prototype
    | Undefined

  predicate Truthy(v: JsValue) {
    match v
    case JsString(s) => s != ""
    case JsObject => true
    case Undefined => false
  }

  /** The properties every object literal inherits from Object.prototype. */
  const ObjectPrototypeProperties: set<string> := {
    "constructor", "hasOwnProperty", "isPrototypeOf", "propertyIsEnumerable",
    "toLocaleString", "toString", "valueOf", "__proto__",
    "__defineGetter__", "__defineSetter__", "__lookupGetter__", "__lookupSetter__"
  }

  /** `models[key]`: an own property, else an inherited one, else `undefined`. */
  function GetProperty(reg: Registry, key: string): JsValue {
    match OwnProperty(reg, key)
    case Some(v) => JsString(v)
    case None => if key in ObjectPrototypeProperties then JsObject else Undefined
  }

  /** Line 159 as written: `models[modelType as ModelType] || default`. The cast is erased at
      run time, so the lookup also sees inherited properties. */
  function ResolveAsWritten(reg: Registry, key: string): JsValue {
    var v := GetProperty(reg, key);
    if Truthy(v) then v else JsString(DefaultModel)
  }

  /** The expression as written agrees with `ResolveModel` for every identifier that is not
      the name of an Object.prototype property... */
  lemma ResolveAsWrittenAgrees(reg: Registry, key: string)
    requires key !in ObjectPrototypeProperties || OwnProperty(reg, key).Some?
    ensures ResolveAsWritten(reg, key) == JsString(ResolveModel(reg, key))
  {
  }

  /** ...but "constructor" (or "toString", "__proto__", ...) yields the inherited function or
      object instead of the default, so the request body carries no model string. */
  lemma ResolveAsWrittenInherited()
    ensures ResolveAsWritten(Models, "constructor") == JsObject
    ensures ResolveModel(Models, "constructor") == DefaultModel
  {
    assert OwnProperty(Models, "constructor") == None;
  }
}

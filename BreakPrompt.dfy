/** The "break_prompt" tool definition the backend hands to the language
    model: a JSON object naming the tool, describing it, and giving a JSON
    Schema for its arguments (an array of exactly `totalSubPrompts`
    subject/action pairs). JSON values are modelled as a datatype, and the
    schema keywords the definition uses are given their JSON Schema meaning
    by a small validator, so that what the schema admits can be stated and
    proved. */
module BreakPrompt {
  import opened Wrappers
  import opened Strings

  /** A JSON value; an object keeps its members in source order. Numbers
      are integers, which is all the definition uses. */
  datatype Json =
    | JNull
    | JBool(b: bool)
    | JNum(n: int)
    | JStr(s: string)
    | JArr(elems: seq<Json>)
    | JObj(members: seq<(string, Json)>)

  predicate HasKey(m: seq<(string, Json)>, k: string) {
    exists i :: 0 <= i < |m| && m[i].0 == k
  }

  /** The index of the first member named `k`, or -1. */
  function KeyIndex(m: seq<(string, Json)>, k: string): (r: int)
    ensures -1 <= r < |m|
    ensures r >= 0 ==> m[r].0 == k
    ensures r < 0 <==> !HasKey(m, k)
  {
    if m == [] then -1
    else if m[0].0 == k then 0
    else
      var r := KeyIndex(m[1..], k);
      assert forall i :: 0 < i < |m| ==> m[i] == m[1..][i - 1];
      if r < 0 then -1 else r + 1
  }

  /** The value of the first member named `k`. */
  function Get(m: seq<(string, Json)>, k: string): (r: Option<Json>)
    ensures r.Some? <==> HasKey(m, k)
  {
    var i := KeyIndex(m, k);
    if i < 0 then None else Some(m[i].1)
  }

  /** The first member named `k` decides the lookup. */
  lemma {:induction false} GetAt(m: seq<(string, Json)>, i: int, k: string)
    requires 0 <= i < |m| && m[i].0 == k
    requires forall j :: 0 <= j < i ==> m[j].0 != k
    ensures Get(m, k) == Some(m[i].1)
    decreases i
  {
    if i > 0 {
      GetAt(m[1..], i - 1, k);
    }
  }

  // ---------------------------------------------------------------------
  // The tool definition

  const DefaultSubPrompts: int := 3
  const ToolName: string := "break_prompt"

  const DescriptionTail: string :=
    " independent, context-free sub-prompts."
    + " Each sub-prompt must be drawable on its own and must NOT reference other entities, props, locations, or relationships."
    + " Keep language generic. Avoid prepositional phrases and objects (no 'with/at/on/next to/near')."
    + " Format: a short subject plus a short action phrase."

  /** The tool description, which embeds the count. */
  function Description(totalSubPrompts: int): string {
    "Produce exactly " + IntToString(totalSubPrompts) + DescriptionTail
  }

  /** The description of the `prompts` array, which embeds the count. */
  function PromptsDescription(totalSubPrompts: int): string {
    "Array of " + IntToString(totalSubPrompts) + " sub-prompts"
  }

  /** A piece placed between two others occurs where the first ends. */
  lemma OccursBetween(a: string, k: string, b: string)
    ensures OccursAt(a + k + b, k, |a|)
  {
    assert (a + k + b)[|a|..|a| + |k|] == k;
  }

  /** A string property with its description. */
  function StringProperty(description: string): Json {
    JObj([("type", JStr("string")), ("description", JStr(description))])
  }

  const SubjectDescription: string := "A very short subject (1-2 words max)"
  const ActionDescription: string := "A concise action phrase describing what the subject is doing (1-5 words max)"

  /** The properties of a sub-prompt. */
  function SubPromptProperties(): seq<(string, Json)> {
    [("subject", StringProperty(SubjectDescription)), ("action", StringProperty(ActionDescription))]
  }

  /** `subPrompt()`: the schema of one sub-prompt. */
  function SubPrompt(): Json {
    JObj([
      ("type", JStr("object")),
      ("properties", JObj(SubPromptProperties())),
      ("required", JArr([JStr("subject"), JStr("action")])),
      ("additionalProperties", JBool(false))])
  }

  /** The `prompts` property: an array of exactly `totalSubPrompts`
      sub-prompts. */
  function PromptsSchema(totalSubPrompts: int): Json {
    JObj([
      ("type", JStr("array")),
      ("items", SubPrompt()),
      ("minItems", JNum(totalSubPrompts)),
      ("maxItems", JNum(totalSubPrompts)),
      ("description", JStr(PromptsDescription(totalSubPrompts)))])
  }

  /** The `parameters` schema: an object holding only `prompts`. */
  function Parameters(totalSubPrompts: int): Json {
    JObj([
      ("type", JStr("object")),
      ("properties", JObj([("prompts", PromptsSchema(totalSubPrompts))])),
      ("required", JArr([JStr("prompts")])),
      ("additionalProperties", JBool(false))])
  }

  /** `breakPromptTool(totalSubPrompts)`; an omitted count is 3. */
  function BreakPromptTool(totalSubPrompts: Option<int>): Json {
    var n := if totalSubPrompts.Some? then totalSubPrompts.value else DefaultSubPrompts;
    JObj([
      ("name", JStr(ToolName)),
      ("description", JStr(Description(n))),
      ("parameters", Parameters(n))])
  }

  /** The tool is named "break_prompt", asks for 3 sub-prompts unless told
      otherwise, and its description states the count. */
  lemma BreakPromptToolShape(totalSubPrompts: Option<int>)
    ensures var n := if totalSubPrompts.Some? then totalSubPrompts.value else 3;
      var tool := BreakPromptTool(totalSubPrompts).members;
      Get(tool, "name") == Some(JStr("break_prompt")) &&
      Get(tool, "description") == Some(JStr(Description(n))) &&
      Contains(Description(n), IntToString(n)) &&
      Get(tool, "parameters") == Some(Parameters(n))
  {
    var n := if totalSubPrompts.Some? then totalSubPrompts.value else 3;
    var tool := BreakPromptTool(totalSubPrompts).members;
    GetAt(tool, 0, "name");
    GetAt(tool, 1, "description");
    GetAt(tool, 2, "parameters");
    OccursBetween("Produce exactly ", IntToString(n), DescriptionTail);
  }

  /** The argument schema: the top level is a closed object that requires
      "prompts" and describes only it. */
  lemma ParametersShape(n: int)
    ensures var params := Parameters(n).members;
      Get(params, "type") == Some(JStr("object")) &&
      Get(params, "properties") == Some(JObj([("prompts", PromptsSchema(n))])) &&
      Get(params, "required") == Some(JArr([JStr("prompts")])) &&
      Get(params, "additionalProperties") == Some(JBool(false))
  {
    ParametersKind(n);
    ParametersClosure(n);
  }

  lemma ParametersKind(n: int)
    ensures Get(Parameters(n).members, "type") == Some(JStr("object"))
    ensures Get(Parameters(n).members, "properties") == Some(JObj([("prompts", PromptsSchema(n))]))
  {
    GetAt(Parameters(n).members, 0, "type");
    GetAt(Parameters(n).members, 1, "properties");
  }

  lemma ParametersClosure(n: int)
    ensures Get(Parameters(n).members, "required") == Some(JArr([JStr("prompts")]))
    ensures Get(Parameters(n).members, "additionalProperties") == Some(JBool(false))
  {
    GetAt(Parameters(n).members, 2, "required");
    GetAt(Parameters(n).members, 3, "additionalProperties");
  }

  /** The "prompts" property: an array of sub-prompts whose lower and upper
      bounds are both the count, with the count in its description. */
  lemma PromptsSchemaShape(n: int)
    ensures var prompts := PromptsSchema(n).members;
      Get(prompts, "type") == Some(JStr("array")) &&
      Get(prompts, "items") == Some(SubPrompt()) &&
      Get(prompts, "minItems") == Some(JNum(n)) &&
      Get(prompts, "maxItems") == Some(JNum(n))
  {
    PromptsSchemaKind(n);
    PromptsSchemaBounds(n);
  }

  lemma PromptsSchemaKind(n: int)
    ensures Get(PromptsSchema(n).members, "type") == Some(JStr("array"))
    ensures Get(PromptsSchema(n).members, "items") == Some(SubPrompt())
  {
    GetAt(PromptsSchema(n).members, 0, "type");
    GetAt(PromptsSchema(n).members, 1, "items");
  }

  lemma PromptsSchemaBounds(n: int)
    ensures Get(PromptsSchema(n).members, "minItems") == Some(JNum(n))
    ensures Get(PromptsSchema(n).members, "maxItems") == Some(JNum(n))
  {
    GetAt(PromptsSchema(n).members, 2, "minItems");
    GetAt(PromptsSchema(n).members, 3, "maxItems");
  }

  /** The description of the "prompts" array states the count. */
  lemma PromptsDescriptionCount(n: int)
    ensures Get(PromptsSchema(n).members, "description") == Some(JStr(PromptsDescription(n)))
    ensures Contains(PromptsDescription(n), IntToString(n))
  {
    GetAt(PromptsSchema(n).members, 4, "description");
    OccursBetween("Array of ", IntToString(n), " sub-prompts");
  }

  /** The sub-prompt schema: a closed object requiring "subject" and
      "action" and describing its properties. */
  lemma SubPromptShape()
    ensures var m := SubPrompt().members;
      Get(m, "type") == Some(JStr("object")) &&
      Get(m, "properties") == Some(JObj(SubPromptProperties())) &&
      Get(m, "required") == Some(JArr([JStr("subject"), JStr("action")])) &&
      Get(m, "additionalProperties") == Some(JBool(false))
  {
    SubPromptKind();
    SubPromptClosure();
  }

  lemma SubPromptKind()
    ensures Get(SubPrompt().members, "type") == Some(JStr("object"))
    ensures Get(SubPrompt().members, "properties") == Some(JObj(SubPromptProperties()))
  {
    GetAt(SubPrompt().members, 0, "type");
    GetAt(SubPrompt().members, 1, "properties");
  }

  lemma SubPromptClosure()
    ensures Get(SubPrompt().members, "required") == Some(JArr([JStr("subject"), JStr("action")]))
    ensures Get(SubPrompt().members, "additionalProperties") == Some(JBool(false))
  {
    GetAt(SubPrompt().members, 2, "required");
    GetAt(SubPrompt().members, 3, "additionalProperties");
  }

  /** The sub-prompt's "subject" and "action" are described as strings. */
  lemma SubPromptPropertiesShape()
    ensures Get(SubPromptProperties(), "subject") == Some(StringProperty(SubjectDescription))
    ensures Get(SubPromptProperties(), "action") == Some(StringProperty(ActionDescription))
    ensures Get(StringProperty(SubjectDescription).members, "type") == Some(JStr("string"))
    ensures Get(StringProperty(ActionDescription).members, "type") == Some(JStr("string"))
  {
    GetAt(SubPromptProperties(), 0, "subject");
    GetAt(SubPromptProperties(), 1, "action");
    GetAt(StringProperty(SubjectDescription).members, 0, "type");
    GetAt(StringProperty(ActionDescription).members, 0, "type");
  }

  // ---------------------------------------------------------------------
  // What the schema keywords mean

  /** The JSON Schema type name of a value. */
  function TypeName(v: Json): string {
    match v
    case JNull => "null"
    case JBool(_) => "boolean"
    case JNum(_) => "number"
    case JStr(_) => "string"
    case JArr(_) => "array"
    case JObj(_) => "object"
  }

  /** `v` satisfies the keywords `type`, `properties`, `required`,
      `additionalProperties: false`, `items`, `minItems` and `maxItems` of
      the object schema `schema`; other keywords (such as `description`)
      do not constrain. */
  predicate Validates(schema: Json, v: Json)
    decreases schema
  {
    schema.JObj? &&
    var m := schema.members;
    (match Get(m, "type")
     case None => true
     case Some(t) => t == JStr(TypeName(v))) &&
    (v.JObj? ==> PropertiesOk(schema, v.members) && RequiredOk(m, v.members) && ClosedOk(m, v.members)) &&
    (v.JArr? ==> ItemsOk(schema, v.elems) && BoundsOk(m, |v.elems|))
  }

  predicate PropertiesOk(schema: Json, vm: seq<(string, Json)>)
    requires schema.JObj?
    decreases schema, 0
  {
    var i := KeyIndex(schema.members, "properties");
    i >= 0 && schema.members[i].1.JObj? ==>
      var props := schema.members[i].1.members;
      forall j :: 0 <= j < |props| ==>
        HasKey(vm, props[j].0) ==> Validates(props[j].1, Get(vm, props[j].0).value)
  }

  predicate RequiredOk(m: seq<(string, Json)>, vm: seq<(string, Json)>) {
    match Get(m, "required")
    case Some(JArr(rs)) => forall i :: 0 <= i < |rs| ==> rs[i].JStr? && HasKey(vm, rs[i].s)
    case _ => true
  }

  predicate ClosedOk(m: seq<(string, Json)>, vm: seq<(string, Json)>) {
    Get(m, "additionalProperties") == Some(JBool(false)) ==>
      var props := Get(m, "properties");
      forall i :: 0 <= i < |vm| ==> props.Some? && props.value.JObj? && HasKey(props.value.members, vm[i].0)
  }

  predicate ItemsOk(schema: Json, elems: seq<Json>)
    requires schema.JObj?
    decreases schema, 0
  {
    var i := KeyIndex(schema.members, "items");
    i >= 0 ==> forall e :: 0 <= e < |elems| ==> Validates(schema.members[i].1, elems[e])
  }

  predicate BoundsOk(m: seq<(string, Json)>, count: int) {
    (match Get(m, "minItems") case Some(JNum(k)) => count >= k case _ => true) &&
    (match Get(m, "maxItems") case Some(JNum(k)) => count <= k case _ => true)
  }

  // ---------------------------------------------------------------------
  // What the tool's schema admits

  /** One sub-prompt: an object whose members are only "subject" and
      "action", both present and both strings. */
  predicate IsSubPrompt(v: Json) {
    v.JObj? &&
    (forall i :: 0 <= i < |v.members| ==> v.members[i].0 == "subject" || v.members[i].0 == "action") &&
    Get(v.members, "subject").Some? && Get(v.members, "subject").value.JStr? &&
    Get(v.members, "action").Some? && Get(v.members, "action").value.JStr?
  }

  /** The tool's arguments: an object whose only member is "prompts", an
      array of exactly `n` sub-prompts. */
  predicate IsArguments(n: int, v: Json) {
    v.JObj? &&
    (forall i :: 0 <= i < |v.members| ==> v.members[i].0 == "prompts") &&
    Get(v.members, "prompts").Some? &&
    var p := Get(v.members, "prompts").value;
    p.JArr? && |p.elems| == n &&
    forall i :: 0 <= i < |p.elems| ==> IsSubPrompt(p.elems[i])
  }

  /** A string property admits exactly the strings. */
  lemma StringPropertyExact(d: string, v: Json)
    ensures Validates(StringProperty(d), v) <==> v.JStr?
  {
    var m := StringProperty(d).members;
    GetAt(m, 0, "type");
    assert Get(m, "properties").None? && Get(m, "items").None?;
  }

  /** A schema's `properties` constrain exactly the members it names. */
  lemma PropertiesOkIff(schema: Json, props: seq<(string, Json)>, vm: seq<(string, Json)>)
    requires schema.JObj? && Get(schema.members, "properties") == Some(JObj(props))
    ensures PropertiesOk(schema, vm) <==>
      forall j :: 0 <= j < |props| ==> HasKey(vm, props[j].0) ==> Validates(props[j].1, Get(vm, props[j].0).value)
  {
  }

  /** The members a closed schema allows are the ones it describes. */
  lemma ClosedOkIff(m: seq<(string, Json)>, props: seq<(string, Json)>, vm: seq<(string, Json)>)
    requires Get(m, "additionalProperties") == Some(JBool(false))
    requires Get(m, "properties") == Some(JObj(props))
    ensures ClosedOk(m, vm) <==> forall i :: 0 <= i < |vm| ==> HasKey(props, vm[i].0)
  {
  }

  lemma SubPromptKeys(k: string)
    ensures HasKey(SubPromptProperties(), k) <==> k == "subject" || k == "action"
  {
    var pm := SubPromptProperties();
    assert pm[0].0 == "subject" && pm[1].0 == "action";
  }

  /** A schema's `required` list demands exactly the members it names. */
  lemma RequiredOkIff(m: seq<(string, Json)>, rs: seq<Json>, vm: seq<(string, Json)>)
    requires Get(m, "required") == Some(JArr(rs))
    ensures RequiredOk(m, vm) <==> forall i :: 0 <= i < |rs| ==> rs[i].JStr? && HasKey(vm, rs[i].s)
  {
  }

  /** A sub-prompt's "subject" and "action", when present, are strings. */
  lemma SubPromptTyped(vm: seq<(string, Json)>)
    ensures PropertiesOk(SubPrompt(), vm) <==>
      (HasKey(vm, "subject") ==> Get(vm, "subject").value.JStr?) &&
      (HasKey(vm, "action") ==> Get(vm, "action").value.JStr?)
  {
    GetAt(SubPrompt().members, 1, "properties");
    var pm := SubPromptProperties();
    PropertiesOkIff(SubPrompt(), pm, vm);
    assert |pm| == 2;
    assert pm[0] == ("subject", StringProperty(SubjectDescription));
    assert pm[1] == ("action", StringProperty(ActionDescription));
    if HasKey(vm, "subject") {
      StringPropertyExact(SubjectDescription, Get(vm, "subject").value);
    }
    if HasKey(vm, "action") {
      StringPropertyExact(ActionDescription, Get(vm, "action").value);
    }
  }

  /** A sub-prompt has both "subject" and "action". */
  lemma SubPromptRequired(vm: seq<(string, Json)>)
    ensures RequiredOk(SubPrompt().members, vm) <==> HasKey(vm, "subject") && HasKey(vm, "action")
  {
    GetAt(SubPrompt().members, 2, "required");
    var rs := [JStr("subject"), JStr("action")];
    RequiredOkIff(SubPrompt().members, rs, vm);
    assert |rs| == 2 && rs[0].s == "subject" && rs[1].s == "action";
  }

  /** A sub-prompt has no member but "subject" and "action". */
  lemma SubPromptClosed(vm: seq<(string, Json)>)
    ensures ClosedOk(SubPrompt().members, vm) <==> forall i :: 0 <= i < |vm| ==> vm[i].0 == "subject" || vm[i].0 == "action"
  {
    SubPromptShape();
    var pm := SubPromptProperties();
    ClosedOkIff(SubPrompt().members, pm, vm);
    forall i | 0 <= i < |vm| ensures HasKey(pm, vm[i].0) <==> vm[i].0 == "subject" || vm[i].0 == "action" {
      SubPromptKeys(vm[i].0);
    }
  }

  /** The sub-prompt schema admits exactly the sub-prompts. */
  lemma SubPromptExact(v: Json)
    ensures Validates(SubPrompt(), v) <==> IsSubPrompt(v)
  {
    SubPromptShape();
    ObjectSchemaIff(SubPrompt(), v);
    if v.JObj? {
      SubPromptTyped(v.members);
      SubPromptRequired(v.members);
      SubPromptClosed(v.members);
    }
  }

  /** An object schema admits exactly the objects whose members meet its
      `properties`, `required` and `additionalProperties`. */
  lemma ObjectSchemaIff(schema: Json, v: Json)
    requires schema.JObj? && Get(schema.members, "type") == Some(JStr("object"))
    ensures Validates(schema, v) <==>
      v.JObj? && PropertiesOk(schema, v.members) && RequiredOk(schema.members, v.members) &&
      ClosedOk(schema.members, v.members)
  {
    if Validates(schema, v) {
      assert TypeName(v) == "object";
    }
  }

  /** An array schema with an item schema and both bounds admits exactly
      the arrays within the bounds whose every element the item schema
      admits. */
  lemma ArraySchemaIff(schema: Json, items: Json, lo: int, hi: int, p: Json)
    requires schema.JObj? && Get(schema.members, "type") == Some(JStr("array"))
    requires Get(schema.members, "items") == Some(items)
    requires Get(schema.members, "minItems") == Some(JNum(lo))
    requires Get(schema.members, "maxItems") == Some(JNum(hi))
    ensures Validates(schema, p) <==>
      p.JArr? && lo <= |p.elems| <= hi && forall e :: 0 <= e < |p.elems| ==> Validates(items, p.elems[e])
  {
    if Validates(schema, p) {
      assert TypeName(p) == "array";
    }
  }

  /** The "prompts" schema admits exactly arrays of `n` sub-prompts. */
  lemma PromptsExact(n: int, p: Json)
    ensures Validates(PromptsSchema(n), p) <==>
      p.JArr? && |p.elems| == n && forall i :: 0 <= i < |p.elems| ==> IsSubPrompt(p.elems[i])
  {
    PromptsSchemaShape(n);
    ArraySchemaIff(PromptsSchema(n), SubPrompt(), n, n, p);
    if p.JArr? {
      forall i | 0 <= i < |p.elems| ensures Validates(SubPrompt(), p.elems[i]) <==> IsSubPrompt(p.elems[i]) {
        SubPromptExact(p.elems[i]);
      }
    }
  }

  /** The arguments' "prompts", when present, must match its schema. */
  lemma ParametersPropertiesOk(n: int, vm: seq<(string, Json)>)
    ensures PropertiesOk(Parameters(n), vm) <==>
      (HasKey(vm, "prompts") ==> Validates(PromptsSchema(n), Get(vm, "prompts").value))
  {
    ParametersShape(n);
    var pm := [("prompts", PromptsSchema(n))];
    PropertiesOkIff(Parameters(n), pm, vm);
    assert |pm| == 1 && pm[0].0 == "prompts";
  }

  /** The arguments must have "prompts". */
  lemma ParametersRequired(n: int, vm: seq<(string, Json)>)
    ensures RequiredOk(Parameters(n).members, vm) <==> HasKey(vm, "prompts")
  {
    ParametersShape(n);
    var rs := [JStr("prompts")];
    RequiredOkIff(Parameters(n).members, rs, vm);
    assert |rs| == 1 && rs[0].s == "prompts";
  }

  /** The arguments have no member but "prompts". */
  lemma ParametersClosed(n: int, vm: seq<(string, Json)>)
    ensures ClosedOk(Parameters(n).members, vm) <==> forall i :: 0 <= i < |vm| ==> vm[i].0 == "prompts"
  {
    ParametersShape(n);
    var pm := [("prompts", PromptsSchema(n))];
    ClosedOkIff(Parameters(n).members, pm, vm);
    forall k ensures HasKey(pm, k) <==> k == "prompts" {
      assert pm[0].0 == "prompts";
    }
  }

  /** The `parameters` schema admits exactly the intended arguments:
      `prompts` and nothing else, exactly `totalSubPrompts` sub-prompts. */
  lemma ParametersExact(n: int, v: Json)
    ensures Validates(Parameters(n), v) <==> IsArguments(n, v)
  {
    ParametersShape(n);
    ObjectSchemaIff(Parameters(n), v);
    if v.JObj? {
      ParametersPropertiesOk(n, v.members);
      ParametersRequired(n, v.members);
      ParametersClosed(n, v.members);
      if HasKey(v.members, "prompts") {
        PromptsExact(n, Get(v.members, "prompts").value);
      }
    }
  }

  /** The default tool asks for three sub-prompts. */
  lemma DefaultToolAsksForThree(v: Json)
    ensures BreakPromptTool(None) == BreakPromptTool(Some(3))
    ensures Validates(Parameters(3), v) <==> IsArguments(3, v)
  {
    ParametersExact(3, v);
  }
}

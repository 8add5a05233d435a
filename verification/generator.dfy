/** The type-synthesis walk of generator.rs: `descend` classifies one schema
    node, appends the Rust declaration lines that define it to the output
    list, and returns the name other declarations use for it; `genimpl`
    runs it over the document's top-level `definitions` in order.

    `descend` only ever appends to the output list, so each call returns
    just the lines it appends; the definition loop threads the list itself
    through as a value. heck's case conversions are passed in as a `Casing` and left
    uninterpreted. */
module Generator {
  import opened Base
  import opened Sanitizer
  import opened Schemas

  /** `to_camel_case` and `to_snake_case`. */
  datatype Casing = Casing(camel: string -> string, snake: string -> string)

  /** What `descend` returns, together with the lines it appends to the
      output list. */
  datatype Emitted = Emitted(name: Option<string>, out: seq<string>)

  /** The body lines a loop collects for the enclosing declaration, and the
      lines its children append to the output list meanwhile. */
  datatype Collected = Collected(lines: seq<string>, decls: seq<string>)

  const Derive: string := "#[derive(Debug, serde::Deserialize)]"

  /** The only `$ref` form the generator resolves. */
  const DefinitionsPrefix: string := "#/definitions/"

  /** The ten branches of `descend`, with the object branch split by whether
      the object lists any properties. */
  datatype Kind =
    | Union | Enumeration | EmptyObject | Object | Reference
    | NumberWrapper | BooleanWrapper | StringWrapper | NullType | ArrayAlias
    | MultiType | Unsupported

  /** The branch a node takes: the first test that holds wins. */
  function Classify(s: Schema): Kind
  {
    var ts := TypeSet(s);
    if |s.anyOf| > 0 && ts == {} then Union
    else if |s.enums| > 0 then Enumeration
    else if |ts| == 1 && "object" in ts then (if |s.properties| == 0 then EmptyObject else Object)
    else if s.reference.Some? && ts == {} then Reference
    else if |ts| == 1 && "number" in ts then NumberWrapper
    else if |ts| == 1 && "boolean" in ts then BooleanWrapper
    else if |ts| == 1 && "string" in ts then StringWrapper
    else if |ts| == 1 && "null" in ts then NullType
    else if |ts| == 1 && "array" in ts then ArrayAlias
    else if |ts| > 1 then MultiType
    else Unsupported
  }

  /** A node `descend` gives no type for: a `$ref` outside `#/definitions/`. */
  predicate Unresolvable(s: Schema)
  {
    Classify(s) == Reference && !StartsWith(s.reference.value, DefinitionsPrefix)
  }

  /** Enum literals the enum branch can handle; any other kind is a `todo!`. */
  predicate IsEnumLiteral(v: JsonValue)
  {
    v.JString? || v.JNumber? || v.JNull?
  }

  const PrimitiveTypes: set<string> := {"number", "string", "boolean", "null"}

  /** The nodes on which `descend` does not panic. Each conjunct excludes one
      panic on the path the walk actually takes: a `todo!` on a boolean,
      array or object enum literal, an `unwrap` of a property whose type
      cannot be resolved, an `unwrap` of missing `items`, and an
      `unimplemented!` for a non-primitive name in a multi-type list. */
  predicate Supported(s: Schema)
    decreases s
  {
    match Classify(s)
    case Union => forall j :: 0 <= j < |s.anyOf| ==> Supported(s.anyOf[j])
    case Enumeration => forall j :: 0 <= j < |s.enums| ==> IsEnumLiteral(s.enums[j])
    case Object =>
      forall j :: 0 <= j < |s.properties| ==>
        Supported(s.properties[j].schema) && !Unresolvable(s.properties[j].schema)
    case ArrayAlias => s.items.Some? && Supported(s.items.value)
    case MultiType => TypeSet(s) <= PrimitiveTypes
    case _ => true
  }

  /** The name a node's type is known by, read off the node alone: its own
      camel-cased sanitized path name, the referenced definition's name,
      the shared `Null`, or nothing for an unresolvable reference. */
  function NameOf(inName: string, s: Schema, cs: Casing): (r: Option<string>)
    ensures r.None? <==> Unresolvable(s)
  {
    match Classify(s)
    case Reference =>
      if StartsWith(s.reference.value, DefinitionsPrefix)
      then Some(cs.camel(Sanitize(s.reference.value[|DefinitionsPrefix|..])))
      else None
    case NullType => Some("Null")
    case _ => Some(cs.camel(Sanitize(inName)))
  }

  // ---------------------------------------------------------------------
  // Line templates

  /** A `#[serde(rename="...")]` attribute line for a struct field. */
  function FieldRename(key: string): string
  {
    "  #[serde(rename=\"" + key + "\")]"
  }

  function FieldLine(field: string, typeName: string): string
  {
    "  pub " + field + ": Option<" + typeName + ">,"
  }

  function VariantLine(v: string): string
  {
    "  " + v + "(" + v + "),"
  }

  /** One entry of a literal enum: the variant, with a rename attribute when
      the literal's text differs from the variant's name. */
  function EnumEntry(original: string, variant: string): string
  {
    if original != variant then "#[serde(rename=\"" + original + "\")] " + variant else variant
  }

  /** The (original text, variant name) pair for one enum literal, or
      nothing when the node's `type` list excludes that literal's kind. */
  function EnumLiteral(name: string, v: JsonValue, types: set<string>, cs: Casing): Option<(string, string)>
  {
    match v
    case JString(t) => if "string" in types then Some((t, cs.camel(t))) else None
    case JNumber(n) => if "number" in types then Some((n, cs.camel(name + "_" + n))) else None
    case JNull => if "null" in types then Some(("null", "Null")) else None
    case _ => None
  }

  /** The entries of a literal enum, in literal order. */
  function EnumEntries(name: string, vs: seq<JsonValue>, types: set<string>, cs: Casing): seq<string>
  {
    if |vs| == 0 then []
    else
      (match EnumLiteral(name, vs[0], types, cs)
       case Some(p) => [EnumEntry(p.0, p.1)]
       case None => [])
      + EnumEntries(name, vs[1..], types, cs)
  }

  function PrimitiveVariant(t: string): string
  {
    match t
    case "number" => "Number(f64)"
    case "string" => "String(String)"
    case "boolean" => "Boolean(bool)"
    case _ => "Null"
  }

  /** The variants of a multi-type enum. The source visits the type set in
      hash order; the model fixes one order. */
  function PrimitiveVariants(types: set<string>): seq<string>
  {
    (if "number" in types then [PrimitiveVariant("number")] else [])
    + (if "string" in types then [PrimitiveVariant("string")] else [])
    + (if "boolean" in types then [PrimitiveVariant("boolean")] else [])
    + (if "null" in types then [PrimitiveVariant("null")] else [])
  }

  // ---------------------------------------------------------------------
  // The walk

  /** The lines a branch that walks no children declares for the node
      named `name`: nothing for `null` and for references below the root. */
  function LeafLines(name: string, s: Schema, root: bool, cs: Casing): seq<string>
  {
    match Classify(s)
    case Enumeration =>
      [Derive, "pub enum " + name + " { " + Join(EnumEntries(name, s.enums, TypeSet(s), cs), ", ") + " }"]
    case EmptyObject =>
      [Derive, "pub struct " + name + " (serde_json::Value);"]
    case Reference =>
      var reference := s.reference.value;
      if StartsWith(reference, DefinitionsPrefix) && root then
        [Derive, "pub struct " + name + "(" + cs.camel(Sanitize(reference[|DefinitionsPrefix|..])) + ");"]
      else []
    case NumberWrapper => [Derive, "pub struct " + name + "(f64);"]
    case BooleanWrapper => [Derive, "pub struct " + name + "(bool);"]
    case StringWrapper => [Derive, "pub struct " + name + "(String);"]
    case MultiType =>
      [Derive, "pub enum " + name + " { " + Join(PrimitiveVariants(TypeSet(s)), ", ") + " }"]
    case Unsupported => [Derive, "pub struct " + name + ";"]
    case _ => []
  }

  /** The opening lines of the union branch's enum. */
  function UnionHeader(name: string): seq<string>
  {
    ["/// any_of enum: " + name, Derive, "#[serde(untagged)]", "pub enum " + name + " {"]
  }

  /** `descend`: the name the node's type is known by, and the lines the
      call appends to the output list, children's declarations first.
      `descend` never reads the list it appends to, so the model returns
      the appended lines and the caller concatenates them. */
  function Descend(inName: string, s: Schema, root: bool, cs: Casing): (r: Emitted)
    requires Supported(s)
    ensures r.name == NameOf(inName, s, cs)
    decreases s, 1
  {
    var name := cs.camel(Sanitize(inName));
    match Classify(s)
    case Union =>
      var alts := Alternatives(name, s.anyOf, 0, cs);
      Emitted(Some(name), alts.decls + UnionHeader(name) + alts.lines + ["}"])
    case Object =>
      var fields := Fields(name, s.properties, 0, cs);
      Emitted(Some(name), fields.decls + [Derive, "pub struct " + name + " {"] + fields.lines + ["}"])
    case ArrayAlias =>
      var innerName := "VecOf" + cs.camel(name);
      var inner := Descend(innerName, s.items.value, false, cs);
      var element := if inner.name.Some? then inner.name.value else innerName;
      Emitted(Some(name), inner.out + ["pub type " + name + " = Vec<" + Sanitize(element) + ">;"])
    case _ =>
      Emitted(NameOf(inName, s, cs), LeafLines(name, s, root, cs))
  }

  /** The variant lines the union branch expects from `anyOf[i..]`: one per
      alternative that has a type, in order, computed from the
      alternatives' names alone. */
  function UnionVariants(name: string, alts: seq<Schema>, i: nat, cs: Casing): seq<string>
    requires i <= |alts|
    decreases |alts| - i
  {
    if i == |alts| then []
    else
      (match NameOf(name + "Variant" + DecimalString(i), alts[i], cs)
       case Some(v) => [VariantLine(Sanitize(v))]
       case None => [])
      + UnionVariants(name, alts, i + 1, cs)
  }

  /** The loop of the union branch over `anyOf[i..]`: each alternative is
      walked under the name `<name>Variant<i>`; an alternative without a type
      contributes no variant. */
  function Alternatives(name: string, alts: seq<Schema>, i: nat, cs: Casing): (r: Collected)
    requires i <= |alts|
    requires forall j :: 0 <= j < |alts| ==> Supported(alts[j])
    ensures r.lines == UnionVariants(name, alts, i, cs)
    decreases alts, 0, |alts| - i
  {
    if i == |alts| then Collected([], [])
    else
      var e := Descend(name + "Variant" + DecimalString(i), alts[i], false, cs);
      var here := if e.name.Some? then [VariantLine(Sanitize(e.name.value))] else [];
      var rest := Alternatives(name, alts, i + 1, cs);
      Collected(here + rest.lines, e.out + rest.decls)
  }

  /** The path name a property is walked under. */
  function PropertyPath(name: string, key: string, cs: Casing): string
  {
    cs.camel(name + "_prpty_" + key)
  }

  /** The field lines the object branch expects from `props[i..]`: per
      property, a rename attribute when the key is not its own snake-cased
      sanitized form, then a field that is always `Option<..>`. */
  function StructFields(name: string, props: seq<Property>, i: nat, cs: Casing): seq<string>
    requires i <= |props|
    requires forall j :: 0 <= j < |props| ==> !Unresolvable(props[j].schema)
    decreases |props| - i
  {
    if i == |props| then []
    else
      var key := props[i].key;
      var field := cs.snake(Sanitize(key));
      var t := NameOf(PropertyPath(name, key, cs), props[i].schema, cs);
      (if key != field then [FieldRename(key)] else [])
      + [FieldLine(field, if t.Some? then t.value else "")]
      + StructFields(name, props, i + 1, cs)
  }

  /** The loop of the object branch over `properties[i..]`. */
  function Fields(name: string, props: seq<Property>, i: nat, cs: Casing): (r: Collected)
    requires i <= |props|
    requires forall j :: 0 <= j < |props| ==> Supported(props[j].schema) && !Unresolvable(props[j].schema)
    ensures r.lines == StructFields(name, props, i, cs)
    decreases props, 0, |props| - i
  {
    if i == |props| then Collected([], [])
    else
      var here := Field(name, props[i], cs);
      var rest := Fields(name, props, i + 1, cs);
      Collected(here.lines + rest.lines, here.decls + rest.decls)
  }

  /** One pass of the property loop: the property's schema is walked under
      its path name, then its field is declared. */
  function Field(name: string, p: Property, cs: Casing): (r: Collected)
    requires Supported(p.schema) && !Unresolvable(p.schema)
    ensures r.lines == StructFields(name, [p], 0, cs)
    decreases p.schema, 2
  {
    var e := Descend(PropertyPath(name, p.key, cs), p.schema, false, cs);
    var field := cs.snake(Sanitize(p.key));
    var here := (if p.key != field then [FieldRename(p.key)] else [])
                + [FieldLine(field, e.name.value)];
    Collected(here, e.out)
  }

  /** The definition loop of `genimpl`: every top-level definition is walked
      as a root, in document order, into one output list. */
  function Definitions(defs: seq<Property>, out: seq<string>, cs: Casing): (r: seq<string>)
    requires forall j :: 0 <= j < |defs| ==> Supported(defs[j].schema)
    ensures out <= r
    decreases |defs|
  {
    if |defs| == 0 then out
    else Definitions(defs[1..], out + Descend(defs[0].key, defs[0].schema, true, cs).out, cs)
  }

  function GenImpl(doc: Schema, cs: Casing): seq<string>
    requires forall j :: 0 <= j < |doc.definitions| ==> Supported(doc.definitions[j].schema)
  {
    Definitions(doc.definitions, [], cs)
  }
}

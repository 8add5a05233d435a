/** The intermediate representation of generator/tokens.rs and its `Display`
    impls. The generator does not use it; it is modelled on its own.

    `writeln!` produces one line followed by a newline and `write!` produces
    text without one. Each declaration is modelled as its list of lines, and
    its text as those lines each followed by a newline. Readers turn the
    lines back into the declaration. The round-trip lemmas show that the
    lines lose nothing but a field's description, for fields whose name has
    no `:` and whose type is not written as `Option<..>` or `Box<..>`, and
    for variant names without parentheses; the *Ambiguous lemmas show
    declarations outside these that print alike. The text keeps as much
    only while no name or type holds a newline. */
module Tokens {
  import opened Base
  import StringValidator
  import NumericValidator

  datatype EnumVariant =
    | Tuple(name: string, typeName: string)     // `  N(T),`
    | Unit(name: string, oldName: string)       // `  N,`, renamed from the old name

  datatype Enum = Enum(name: string, variants: seq<EnumVariant>)

  datatype StructField = StructField(
    name: string,
    oldName: string,
    fieldType: string,
    required: bool,
    boxed: bool,
    description: Option<string>)

  datatype Struct = Struct(name: string, fields: seq<StructField>, additionalFields: bool)

  datatype RustItem =
    | DocComment(text: string)
    | DeriveCommon
    | DeriveNoSerde
    | SerdeUntagged
    | TypeAlias(alias: string, source: string)
    | EnumItem(enumDecl: Enum)
    | TupleStruct(structName: string, structType: string)
    | UnitStruct(unitName: string)
    | StructItem(structDecl: Struct)
    | StringValidatorItem(stringField: string, stringConfig: StringValidator.Config)
    | NumericValidatorItem(numericField: string, numericConfig: NumericValidator.Config)

  // ---------------------------------------------------------------------
  // Text

  /** The text of some `writeln!` lines. */
  function Lines(ls: seq<string>): string
  {
    if |ls| == 0 then "" else ls[0] + "\n" + Lines(ls[1..])
  }

  lemma {:induction false} LinesConcat(a: seq<string>, b: seq<string>)
    ensures Lines(a + b) == Lines(a) + Lines(b)
    decreases |a|
  {
    if |a| == 0 {
      assert a + b == b;
    } else {
      assert (a + b)[1..] == a[1..] + b;
      LinesConcat(a[1..], b);
    }
  }

  // ---------------------------------------------------------------------
  // Struct fields

  const RenamePrefix: string := "  #[serde(rename=\""
  const RenameSuffix: string := "\")]"
  const DefaultLine: string := "  #[serde(default)]"
  const PubPrefix: string := "  pub "

  function RenameLine(oldName: string): string
  {
    RenamePrefix + oldName + RenameSuffix
  }

  function PubLine(name: string, typeText: string): string
  {
    PubPrefix + name + ": " + typeText + ","
  }

  /** The field's type, inside a `Box` when the field is boxed. */
  function BoxedType(f: StructField): string
  {
    if f.boxed then "Box<" + f.fieldType + ">" else f.fieldType
  }

  /** A collection is recognised by its unboxed type's name. */
  predicate IsCollection(f: StructField)
  {
    StartsWith(f.fieldType, "Vec")
  }

  /** `Display for StructField`, line by line. */
  function FieldLines(f: StructField): seq<string>
  {
    (if f.name != f.oldName then [RenameLine(f.oldName)] else [])
    + (if f.required then [PubLine(f.name, BoxedType(f))]
       else if IsCollection(f) then [DefaultLine, PubLine(f.name, BoxedType(f))]
       else [PubLine(f.name, "Option<" + BoxedType(f) + ">")])
  }

  function ShowField(f: StructField): string
  {
    Lines(FieldLines(f))
  }

  // ---------------------------------------------------------------------
  // Structs

  const DenyLine: string := "#[serde(deny_unknown_fields)]"

  function StructHeader(name: string): string
  {
    "pub struct " + name + " {"
  }

  function FieldsLines(fs: seq<StructField>): seq<string>
  {
    if |fs| == 0 then [] else FieldLines(fs[0]) + FieldsLines(fs[1..])
  }

  function StructLines(s: Struct): seq<string>
  {
    (if !s.additionalFields then [DenyLine] else [])
    + [StructHeader(s.name)] + FieldsLines(s.fields) + ["}"]
  }

  /** The fields' texts one after another, as the `write!` loop emits them. */
  function ShowFields(fs: seq<StructField>): string
  {
    if |fs| == 0 then "" else ShowField(fs[0]) + ShowFields(fs[1..])
  }

  /** `Display for Struct`. */
  function ShowStruct(s: Struct): string
  {
    (if !s.additionalFields then Lines([DenyLine]) else "")
    + Lines([StructHeader(s.name)]) + ShowFields(s.fields) + Lines(["}"])
  }

  lemma {:induction false} ShowFieldsLines(fs: seq<StructField>)
    ensures ShowFields(fs) == Lines(FieldsLines(fs))
    decreases |fs|
  {
    if |fs| > 0 {
      ShowFieldsLines(fs[1..]);
      LinesConcat(FieldLines(fs[0]), FieldsLines(fs[1..]));
    }
  }

  /** A struct's text is its lines, each ended by a newline. */
  lemma StructText(s: Struct)
    ensures ShowStruct(s) == Lines(StructLines(s))
  {
    var deny: seq<string> := if !s.additionalFields then [DenyLine] else [];
    ShowFieldsLines(s.fields);
    LinesConcat(deny, [StructHeader(s.name)]);
    LinesConcat(deny + [StructHeader(s.name)], FieldsLines(s.fields));
    LinesConcat(deny + [StructHeader(s.name)] + FieldsLines(s.fields), ["}"]);
    if s.additionalFields {
      assert Lines(deny) == "";
    }
  }

  // ---------------------------------------------------------------------
  // Enums

  function UnitLine(name: string): string
  {
    "  " + name + ","
  }

  function TupleLine(name: string, typeName: string): string
  {
    "  " + name + "(" + typeName + "),"
  }

  /** `Display for EnumVariant`, line by line. */
  function VariantLines(v: EnumVariant): seq<string>
  {
    match v
    case Unit(name, oldName) =>
      (if name != oldName then [RenameLine(oldName)] else []) + [UnitLine(name)]
    case Tuple(name, typeName) => [TupleLine(name, typeName)]
  }

  function VariantsLines(vs: seq<EnumVariant>): seq<string>
  {
    if |vs| == 0 then [] else VariantLines(vs[0]) + VariantsLines(vs[1..])
  }

  function EnumHeader(name: string): string
  {
    "pub enum " + name + " {"
  }

  function EnumLines(e: Enum): seq<string>
  {
    [EnumHeader(e.name)] + VariantsLines(e.variants) + ["}"]
  }

  function ShowVariants(vs: seq<EnumVariant>): string
  {
    if |vs| == 0 then "" else Lines(VariantLines(vs[0])) + ShowVariants(vs[1..])
  }

  /** `Display for Enum`. */
  function ShowEnum(e: Enum): string
  {
    Lines([EnumHeader(e.name)]) + ShowVariants(e.variants) + Lines(["}"])
  }

  lemma {:induction false} ShowVariantsLines(vs: seq<EnumVariant>)
    ensures ShowVariants(vs) == Lines(VariantsLines(vs))
    decreases |vs|
  {
    if |vs| > 0 {
      ShowVariantsLines(vs[1..]);
      LinesConcat(VariantLines(vs[0]), VariantsLines(vs[1..]));
    }
  }

  /** An enum's text is its lines, each ended by a newline. */
  lemma EnumText(e: Enum)
    ensures ShowEnum(e) == Lines(EnumLines(e))
  {
    ShowVariantsLines(e.variants);
    LinesConcat([EnumHeader(e.name)], VariantsLines(e.variants));
    LinesConcat([EnumHeader(e.name)] + VariantsLines(e.variants), ["}"]);
  }

  // ---------------------------------------------------------------------
  // Items

  /** `{:?}` of an `Option<u32>`. */
  function DebugCount(n: Option<StringValidator.U32>): string
  {
    match n
    case None => "None"
    case Some(v) => "Some(" + DecimalString(v) + ")"
  }

  /** `{:?}` of an `Option<f64>`, given `{:?}` of an `f64`. */
  function DebugBound(x: Option<real>, float: real -> string): string
  {
    match x
    case None => "None"
    case Some(v) => "Some(" + float(v) + ")"
  }

  /** The derived `Debug` of the validator configs. */
  function DebugStringConfig(c: StringValidator.Config): string
  {
    "StringValidatorConfig { min_length: " + DebugCount(c.minLength)
    + ", max_length: " + DebugCount(c.maxLength) + " }"
  }

  function DebugNumericConfig(c: NumericValidator.Config, float: real -> string): string
  {
    "NumericValidatorConfig { min: " + DebugBound(c.min, float)
    + ", exclusive_min: " + DebugBound(c.exclusiveMin, float)
    + ", max: " + DebugBound(c.max, float)
    + ", exclusive_max: " + DebugBound(c.exclusiveMax, float) + " }"
  }

  /** `Display for RustItem`. Rust's `{:?}` of an `f64` is passed in. */
  function ShowItem(item: RustItem, float: real -> string): string
  {
    match item
    case DocComment(text) => Lines(["/// " + text])
    case DeriveCommon => "#[derive(Debug, serde::Deserialize)]"
    case DeriveNoSerde => "#[derive(Debug)]"
    case SerdeUntagged => "#[serde(untagged)]"
    case TypeAlias(alias, source) => "pub type " + alias + " = " + source + ";"
    case EnumItem(e) => ShowEnum(e)
    case TupleStruct(name, t) => "pub struct " + name + " (" + t + ");"
    case UnitStruct(name) => "pub struct " + name + ";"
    case StructItem(s) => ShowStruct(s)
    case StringValidatorItem(field, c) => "String " + field + " " + DebugStringConfig(c)
    case NumericValidatorItem(field, c) => "Numeric " + field + " " + DebugNumericConfig(c, float)
  }
}

# zoinks core in Dafny

zoinks turns a JSON-Schema document into Rust type declarations. This
project models the part of it that does the real work, and proves
properties of the model:

- `sanitize`: rewrites a schema key into an identifier fragment (`Sanitizer`).
- `descend`: walks one schema node and emits declaration lines for it (`Generator`).
- the definition loop of `genimpl` (`Generator.Definitions`, `Generator.GenImpl`).
- the schema tree that loop reads (`Schemas`).
- the unwired token IR and its `Display` text (`Tokens`).
- readers that parse that text back (`TokensProofs`).
- the string-length validator (`StringValidator`).
- the numeric-bounds validator (`NumericValidator`).

The numeric validator checks the four bounds of JSON Schema Validation
draft 2020-12, sections 6.2.2–6.2.5 (`maximum`, `exclusiveMaximum`,
`minimum`, `exclusiveMinimum`). The string validator takes its bounds from
`maxLength` and `minLength` (sections 6.3.1–6.3.2), but it applies them to
the string's UTF-8 byte length (`str::len`), while those sections count
characters. The two differ for non-ASCII text: `"éé"` is 2 characters but
4 bytes, so `maxLength` 3 rejects it.

Files:

- `base.dfy`: shared vocabulary.
  - `Option` and `Result`.
  - serde's `Unexpected` and `invalid_value` error.
  - `starts_with`, `join` and decimal formatting.
- `sanitizer.dfy`: `sanitize` in two forms.
  - `StagedSanitize` follows the source's three stages literally.
  - `Sanitize` does the same work in one left-to-right pass.
  - `SanitizeIsStaged` proves they agree.
- `schema.dfy`: the fields of `Schema` that `descend` reads.
- `generator.dfy`: the `descend` walk, the loops inside it, and `genimpl`'s loop.
- `generator_proofs.dfy`: one lemma per `descend` branch, plus the loop properties.
- `tokens.dfy`: the IR datatypes and their `Display` impls, line by line.
- `tokens_proofs.dfy`: readers for the rendered lines and text, with round-trip lemmas.
- `string_validator.dfy`, `numeric_validator.dfy`: `valid` and the serde visitor methods.

Modelling choices:

- **Case conversion.** heck's `to_camel_case` and `to_snake_case` are a
  `Casing` parameter: two uninterpreted functions.
- **The output list.** `descend` only appends to its `out` vector and
  never reads it. So `Descend` returns the lines it appends (`Emitted.out`),
  and `Definitions` threads the vector through the loop.
- **Panicking paths** become the precondition `Supported`:
  - `todo!` on a non-scalar enum literal;
  - `unwrap` on a property that names an unresolvable reference;
  - `unwrap` on an array without `items`;
  - `unimplemented!` on a multi-type set containing any name other than
    `number`, `string`, `boolean` and `null` (e.g. `integer`, `object`, `array`).
- **Numbers.** Validator values are `real`. A string's length is its
  UTF-8 byte count (`str::len`), so strings reach the string validator as
  byte sequences.
- **What generator.rs does with edge cases**, as the model follows it:
  - `sanitize("")` is `""`.
  - `[`, `]`, `"` and `-` each become `_`.
  - An array's element type is walked under the name `VecOf<Name>`.
  - `descend` never reads `required` or `additionalProperties`. Every
    object field is `Option<..>` and no field is boxed.

## Model

| member | source | states |
|---|---|---|
| Sanitizer.StagedSanitize | zoinks-lib/src/generator.rs:17-38 | Definition; no contract. The three rewrites in source order: the literal replacements, then the character class, then the reserved-word match. |
| Sanitizer.Sanitize | zoinks-lib/src/generator.rs:17-38 | Definition; no contract. The one-pass form that the rest of the model uses; its properties are the lemmas below. |
| Sanitizer.SanitizeIsStaged | zoinks-lib/src/generator.rs:17-38 | The one-pass sanitizer equals the three staged rewrites applied in source order. |
| Sanitizer.TranslateIsStaged | zoinks-lib/src/generator.rs:18-30 | Substitution followed by the character-class replacement equals the single left-to-right pass, for every input. |
| Sanitizer.SanitizeNoBanned | zoinks-lib/src/generator.rs:18-30 | No output contains a banned character: square brackets, double quote, hyphen, angle brackets, vertical bar, comma, parentheses or dollar. No replacement text brings one back. |
| Sanitizer.EmptyBracketsBecomeArray | zoinks-lib/src/generator.rs:19 | Every `[]` becomes `Array` before single brackets are touched. The text on either side is translated (stages 1–2) independently; the reserved-word table then applies to the whole result. |
| Sanitizer.SanitizeReservedWords | zoinks-lib/src/generator.rs:31-36 | `as`, `type`, `box` and `URI` after substitution become `reserved_as`, `reserved_type`, `reserved_box` and `UniformResoruceIdiot`. Any other string passes through unchanged. |
| Sanitizer.SanitizeNotReserved | zoinks-lib/src/generator.rs:31-37 | The output is never one of the four reserved words. |
| Sanitizer.SanitizeIdentity | zoinks-lib/src/generator.rs:17-38 | A string with no banned character that is not a reserved word is returned unchanged. |
| Sanitizer.SanitizeIdempotent | zoinks-lib/src/generator.rs:17-38 | Sanitizing twice gives the same result as sanitizing once. |
| Sanitizer.TranslateSplit | zoinks-lib/src/generator.rs:18-30 | The rewrite works piecewise: two strings not joined at a `[` `]` pair are rewritten separately. |
| Sanitizer.HyphenCollidesWithUnderscore | zoinks-lib/src/generator.rs:28-30 | Keys that differ only in `-` versus `_` sanitize to the same name. |
| Generator.Classify | zoinks-lib/src/generator.rs:47-202 | Definition; no contract. Which branch of `descend` a node takes, with the tests in source order. The branch lemmas below state what each branch does. |
| Generator.NameOf | zoinks-lib/src/generator.rs:144-159 | The name `descend` returns is absent exactly when the node is a bare reference outside `#/definitions/`. |
| Generator.Descend | zoinks-lib/src/generator.rs:40-209 | The walk returns the name `NameOf` predicts for every supported node, together with the lines it appends. |
| Generator.Alternatives | zoinks-lib/src/generator.rs:54-62 | The variant loop emits the variant lines `UnionVariants` predicts from each alternative's name. |
| Generator.Fields | zoinks-lib/src/generator.rs:129-137 | The property loop emits the field lines `StructFields` predicts from each property's key and name. |
| Generator.Definitions | zoinks-lib/src/generator.rs:214-216 | The definition loop only appends: the vector it starts with is a prefix of the result. |
| GeneratorProofs.DescendNoneIff | zoinks-lib/src/generator.rs:144-159 | `None` is returned iff `anyOf`, `enum` and the types are empty and `$ref` lacks the `#/definitions/` prefix. Nothing is emitted then. |
| GeneratorProofs.DescendReference | zoinks-lib/src/generator.rs:144-155 | A `#/definitions/X` ref returns camel(sanitize(X)). It emits a derive and a wrapper struct only at the root, and nothing otherwise. |
| GeneratorProofs.RootOnlyForReferences | zoinks-lib/src/generator.rs:40-209 | `root` changes the result only for reference nodes. |
| GeneratorProofs.DescendNull | zoinks-lib/src/generator.rs:175-176 | A singleton `null` type returns `Null` and emits nothing. |
| GeneratorProofs.UnionBranch | zoinks-lib/src/generator.rs:47-65 | With a non-empty `anyOf` and no types, the node's name is returned. First come the alternatives' own declarations, then the doc comment, derive, untagged attribute, header, variants and `}`, whatever `enum`, `$ref` or `properties` hold. |
| GeneratorProofs.VariantsOnePerTypedAlternative | zoinks-lib/src/generator.rs:54-62 | There is exactly one variant line per alternative whose descent named a type, and each is `  V(V),`. |
| GeneratorProofs.NullAlternative | zoinks-lib/src/generator.rs:54-62 | A `null` alternative contributes the variant `  Null(Null),` in its place. |
| GeneratorProofs.EnumBranch | zoinks-lib/src/generator.rs:66-116 | A non-empty `enum` (when the union branch does not apply) gives a derive line and one `pub enum` line of the filtered, renamed entries joined by `, `. This holds whatever object type or `$ref` the node has. |
| GeneratorProofs.KeptIff | zoinks-lib/src/generator.rs:67-101 | A literal is kept iff it is listed and its kind (string, number, null) is among the node's types. |
| GeneratorProofs.EnumEntriesAreKept | zoinks-lib/src/generator.rs:71-110 | The entries are exactly the kept literals, in order. Each has its variant name: camel of a string, camel of `<name>_<n>` for a number, `Null` for null. |
| GeneratorProofs.EnumEntryRenameIff | zoinks-lib/src/generator.rs:102-108 | An entry carries a rename attribute iff its original text differs from its variant name. |
| GeneratorProofs.ObjectBranch | zoinks-lib/src/generator.rs:117-143 | A singleton `object` type with no properties gives a `serde_json::Value` tuple struct. Otherwise the properties' declarations come first, then the struct with its field lines and `}`. |
| GeneratorProofs.OneFieldPerProperty | zoinks-lib/src/generator.rs:125-137 | There is exactly one `pub` field line per property, and no other. The k-th is `  pub <snake(sanitize(key))>: Option<T>,`, where T is the name the k-th property's schema was walked to. |
| GeneratorProofs.RenamePerChangedKey | zoinks-lib/src/generator.rs:132-135 | The number of rename attributes equals the number of keys that differ from their sanitized snake-case field name. |
| GeneratorProofs.RequiredIgnored | zoinks-lib/src/generator.rs:40-209 | Changing `required` or `additionalProperties` never changes what `descend` returns or emits. |
| GeneratorProofs.WrapperBranches | zoinks-lib/src/generator.rs:160-174 | A singleton `number`, `boolean` or `string` type gives a derive line and a tuple struct over `f64`, `bool` or `String`. |
| GeneratorProofs.ArrayBranch | zoinks-lib/src/generator.rs:177-186 | A singleton `array` type first descends into `items` under `VecOf<Name>`. It then emits `pub type Name = Vec<T>;`, with T the sanitized element name, or `VecOf<Name>` when the element has none. |
| GeneratorProofs.MultiTypeBranch | zoinks-lib/src/generator.rs:187-201 | Several primitive types and no `enum` give the node's name, a derive line and one `pub enum` line of the types' variants joined by `, `. This holds whatever `anyOf`, `$ref` or `properties` hold. |
| GeneratorProofs.MultiTypeVariants | zoinks-lib/src/generator.rs:187-197 | Several types give one variant per type, without repeats. Only the set of variants is fixed, not their order. |
| GeneratorProofs.UnsupportedFallback | zoinks-lib/src/generator.rs:202-208 | A node matching no branch gives a derive line and a unit struct of its name. |
| Generator.GenImpl | zoinks-lib/src/generator.rs:211-216 | Definition; no contract. The definition loop started on an empty vector; see GenImplConcat. |
| GeneratorProofs.DefinitionsConcat | zoinks-lib/src/generator.rs:214-216 | The loop's output is the starting vector followed by each definition's root-level lines, in document order. |
| GeneratorProofs.GenImplConcat | zoinks-lib/src/generator.rs:211-216 | `genimpl` collects exactly the root-level lines of every definition, in document order. |
| Tokens.FieldLines | zoinks-lib/src/generator/tokens.rs:72-96 | Definition; no contract. `Display for StructField`, line by line; see ReadFieldRoundTrip. |
| Tokens.StructLines | zoinks-lib/src/generator/tokens.rs:98-110 | Definition; no contract. `Display for Struct`, line by line; see StructText and ReadStructRoundTrip. |
| Tokens.VariantLines | zoinks-lib/src/generator/tokens.rs:122-134 | Definition; no contract. `Display for EnumVariant`, line by line; see ReadVariantRoundTrip. |
| Tokens.EnumLines | zoinks-lib/src/generator/tokens.rs:112-120 | Definition; no contract. `Display for Enum`, line by line; see EnumText and ReadEnumRoundTrip. |
| Tokens.ShowItem | zoinks-lib/src/generator/tokens.rs:136-152 | Definition; no contract. `Display for RustItem`; see NewlineIff and the item round trips. |
| Tokens.StructText | zoinks-lib/src/generator/tokens.rs:98-110 | The `Display` of a struct is its lines, each ended by a newline. |
| Tokens.EnumText | zoinks-lib/src/generator/tokens.rs:112-120 | The `Display` of an enum is its lines, each ended by a newline. |
| TokensProofs.ReadFieldRoundTrip | zoinks-lib/src/generator/tokens.rs:72-96 | A field's lines read back as its name, key, type, required flag and boxed flag. So the rename attribute, `Box<..>` and `Option<..>` / `serde(default)` choices are all recoverable from the lines, for plain fields (see Left out). |
| TokensProofs.OptionTypeAmbiguous | zoinks-lib/src/generator/tokens.rs:85-93 | A required field whose type is written `Option<T>` prints exactly like an optional field of type `T`. |
| TokensProofs.BoxTypeAmbiguous | zoinks-lib/src/generator/tokens.rs:76-86 | A required field whose type is written `Box<T>` prints exactly like a boxed field of type `T`. |
| TokensProofs.ColonNameAmbiguous | zoinks-lib/src/generator/tokens.rs:86 | A field name containing `: ` prints like a different name/type pair. |
| TokensProofs.ReadTypeRoundTrip | zoinks-lib/src/generator/tokens.rs:74-93 | Required fields have the bare type. Optional collections have `serde(default)` and the bare type. Other optional fields have `Option<..>`, with `Box<..>` inside when boxed. |
| TokensProofs.FieldRenameIff | zoinks-lib/src/generator/tokens.rs:81-83 | A field has a rename line iff `name != old_name`, and then it is the first line and names the old key. |
| TokensProofs.ReadStructRoundTrip | zoinks-lib/src/generator/tokens.rs:98-110 | A struct's lines, one per `writeln!`, read back as its name, fields in order and `additional_fields` flag. |
| TokensProofs.SplitLinesRoundTrip | zoinks-lib/src/generator/tokens.rs:98-134 | Cutting the text of `writeln!` lines at each newline gives back exactly those lines when none of them holds a newline. |
| TokensProofs.ReadStructText | zoinks-lib/src/generator/tokens.rs:98-110 | A struct's `Display` text, cut at its newlines, reads back as its name, fields in order and `additional_fields` flag, when no name or type holds a newline. |
| TokensProofs.StructNewlineAmbiguous | zoinks-lib/src/generator/tokens.rs:72-110 | A required field whose type holds `,` newline `  pub b: U` prints exactly as two fields, so the struct's text alone cannot tell them apart. |
| TokensProofs.DenyIff | zoinks-lib/src/generator/tokens.rs:100-102 | `deny_unknown_fields` heads the struct iff `additional_fields` is false. |
| TokensProofs.ReadVariantRoundTrip | zoinks-lib/src/generator/tokens.rs:122-134 | A unit variant reads back with both its names. A tuple variant `  N(T),` reads back as N and T. |
| TokensProofs.VariantTextAmbiguous | zoinks-lib/src/generator/tokens.rs:129-131 | A parenthesis in a variant name moves the name/type boundary. A unit variant named `x(y)` prints exactly as the tuple variant `x` over `y`. |
| TokensProofs.VariantRenameIff | zoinks-lib/src/generator/tokens.rs:125-129 | A variant starts with a rename line iff it is a unit variant whose two names differ. |
| TokensProofs.ReadEnumRoundTrip | zoinks-lib/src/generator/tokens.rs:112-134 | An enum's lines, one per `writeln!`, read back as the same enum: name and variants in order. |
| TokensProofs.ReadEnumText | zoinks-lib/src/generator/tokens.rs:112-134 | An enum's `Display` text, cut at its newlines, reads back as the same enum, when no name or type holds a newline. |
| TokensProofs.EnumNewlineAmbiguous | zoinks-lib/src/generator/tokens.rs:122-134 | A tuple variant whose type holds `),` newline `  B(U` prints exactly as two tuple variants. |
| TokensProofs.NewlineIff | zoinks-lib/src/generator/tokens.rs:136-152 | Only doc comments, enums and structs end with a newline. Every other item uses `write!` without one. |
| TokensProofs.AliasRoundTrip | zoinks-lib/src/generator/tokens.rs:143 | `pub type A = B;` reads back as A and B, for an alias without a space. |
| TokensProofs.TupleStructRoundTrip | zoinks-lib/src/generator/tokens.rs:145 | `pub struct N (T);` reads back as N and T, for a name without a space. |
| TokensProofs.UnitStructRoundTrip | zoinks-lib/src/generator/tokens.rs:145-146 | `pub struct N;` reads back as N. For a name without `)`, it is never read as a tuple struct. |
| TokensProofs.AliasTextAmbiguous | zoinks-lib/src/generator/tokens.rs:143 | An alias containing ` = ` prints like a different alias/source pair. |
| TokensProofs.TupleStructTextAmbiguous | zoinks-lib/src/generator/tokens.rs:145 | A tuple struct name containing ` (` prints like a different name/type pair. |
| TokensProofs.UnitStructTextAmbiguous | zoinks-lib/src/generator/tokens.rs:145-146 | A unit struct named `x (y)` prints exactly as the tuple struct `x` over `y`. |
| TokensProofs.ReadStringConfigRoundTrip | zoinks-support/src/string_validator.rs:6-10 | The derived `Debug` text of a string validator config reads back as the same two bounds. |
| TokensProofs.StringItemInjective | zoinks-lib/src/generator/tokens.rs:148 | Two string validator items for the same field print alike only when their configs are equal. |
| StringValidator.Valid | zoinks-support/src/string_validator.rs:43-59 | Valid iff the minimum, when present, is at most the byte length, and the byte length is at most the maximum, when present. |
| StringValidator.VisitStr | zoinks-support/src/string_validator.rs:70-78 | Accepts iff valid. Returns the input unchanged, or the error carrying the string and the config. |
| StringValidator.DefaultAcceptsAll | zoinks-support/src/string_validator.rs:12-19 | The default config accepts every string. |
| StringValidator.BoundsInclusive | zoinks-support/src/string_validator.rs:46-56 | A length equal to either bound is accepted. |
| StringValidator.CrossedBoundsRejectAll | zoinks-support/src/string_validator.rs:46-56 | If `min_length > max_length`, every string is rejected. |
| StringValidator.LooserAcceptsMore | zoinks-support/src/string_validator.rs:43-59 | A config with weaker bounds accepts everything a stricter one does. |
| StringValidator.RemovingBoundLoosens | zoinks-support/src/string_validator.rs:43-59 | Dropping either bound weakens the config. |
| StringValidator.AcceptedLengthsConvex | zoinks-support/src/string_validator.rs:43-59 | Accepted lengths form an interval. |
| NumericValidator.Valid | zoinks-support/src/numeric_validator.rs:59-85 | Valid iff `min <= n`, `exclusive_min < n`, `n <= max` and `n < exclusive_max`, each only when that bound is present. |
| NumericValidator.VisitF64 | zoinks-support/src/numeric_validator.rs:119-127 | Returns `n` unchanged iff valid, else the `Float` error with the config. |
| NumericValidator.VisitI64 | zoinks-support/src/numeric_validator.rs:96-106 | Validates the converted value and returns it, else the `Signed` error with the config. |
| NumericValidator.VisitU64 | zoinks-support/src/numeric_validator.rs:107-117 | Validates the converted value and returns it, else the `Unsigned` error with the config. |
| NumericValidator.DefaultAcceptsAll | zoinks-support/src/numeric_validator.rs:14-23 | The default config accepts every value. |
| NumericValidator.BoundaryValues | zoinks-support/src/numeric_validator.rs:60-82 | A value equal to `min` or `max` is accepted. A value equal to an exclusive bound is rejected. |
| NumericValidator.LooserAcceptsMore | zoinks-support/src/numeric_validator.rs:59-85 | A config with weaker bounds accepts everything a stricter one does. |
| NumericValidator.RemovingBoundLoosens | zoinks-support/src/numeric_validator.rs:59-85 | Removing any one of the four bounds weakens the config. |
| NumericValidator.AcceptedConvex | zoinks-support/src/numeric_validator.rs:59-85 | Accepted values form an interval. |
| NumericValidator.EmptyRangeRejectsAll | zoinks-support/src/numeric_validator.rs:59-85 | Crossed lower and upper bounds reject every value. |
| NumericValidator.IntegersAgreeWithFloats | zoinks-support/src/numeric_validator.rs:96-127 | The integer visitors accept exactly the values the float visitor accepts. |

## Left out

- `ToTokens` impls and `syn::parse_str`: quote/syn proc-macro machinery, foreign to the model.
- heck case conversion: a `Casing` parameter of uninterpreted functions, so no property depends on how it converts.
- The regex crate: the character class `[\[\]"\-]` is modelled directly, as a per-character replacement.
- Logging (`error!`, `warn!`), the `println!` lines and the trailing `todo!()` of `genimpl`: output and panics with no effect on the lines collected.
- File reading, `serde_json` parsing, the proc-macro entry point, the CLI and the `string_or_vec` visitor: I/O and library plumbing.
- The visitors' `expecting` messages: diagnostic text only.
- GeneratorProofs.MultiTypeVariants: states the set of variants but not their order, because the source iterates a `HashSet`. The model lists them in one fixed order.
- Generator.Descend: panicking paths are excluded by the `Supported` precondition instead of being modelled as panics.
- NumericValidator.VisitI64: converts exactly to `real`, with no f64 rounding of large integers and no NaN bounds.
- NumericValidator.VisitU64: converts exactly to `real`, for the same reason.
- NumericValidator.VisitF64: values are `real`, so there is no NaN. In the source every test in `valid` is a rejection (`min > n`, `exclusive_min >= n`, ...), so a NaN input passes every config and is returned. That is not modelled.
- Tokens.ShowItem: the `{:?}` text of an `f64` is a parameter, because Rust's float formatting is not modelled.
- Number literals in `enum` are kept as the text `serde_json` prints for them.
- Schema keywords `descend` never reads (`allOf`, `oneOf`, `pattern`, the bounds, `format`, …) are not part of the `Schema` datatype.
- TokensProofs.ReadTypeRoundTrip: holds for `Plain` fields only, whose type is not itself written as `Option<..>` or `Box<..>`. Otherwise the text is ambiguous: OptionTypeAmbiguous and BoxTypeAmbiguous give two different fields with the same lines.
- TokensProofs.ReadFieldRoundTrip: holds for `Plain` fields only, with no `:` in the name and a type not written as `Option<..>` or `Box<..>`. ColonNameAmbiguous, OptionTypeAmbiguous and BoxTypeAmbiguous show fields that print alike otherwise.
- TokensProofs.ReadVariantRoundTrip: holds for variant names without parentheses (`Ident`). VariantTextAmbiguous shows two variants that print alike otherwise.
- TokensProofs.AliasRoundTrip: holds for aliases without a space. AliasTextAmbiguous shows two aliases that print alike otherwise.
- TokensProofs.TupleStructRoundTrip: holds for names without a space. TupleStructTextAmbiguous shows two tuple structs that print alike otherwise.
- TokensProofs.UnitStructRoundTrip: "never read as a tuple struct" holds for names without `)`. UnitStructTextAmbiguous shows a unit struct that prints as a tuple struct otherwise.
- TokensProofs.ReadStructRoundTrip: holds for fields whose name has no `:` and whose type is not itself written as `Option<..>` or `Box<..>`; the text of other fields is ambiguous. It reads the list of lines, not the text.
- TokensProofs.ReadStructText: needs, besides the ReadStructRoundTrip restrictions, that no struct name, field name, old name or field type holds a newline. StructNewlineAmbiguous shows one field printing as two otherwise.
- TokensProofs.ReadEnumRoundTrip: holds for variant names without parentheses, for the same reason. It reads the list of lines, not the text.
- TokensProofs.ReadEnumText: needs, besides variant names without parentheses, that no enum name, variant name, old name or variant type holds a newline. EnumNewlineAmbiguous shows one variant printing as two otherwise.
- A field's `description` is not rendered by `Display`, so the readers do not recover it.

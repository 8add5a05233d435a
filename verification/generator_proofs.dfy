/** Properties of the type-synthesis walk: what each branch of `descend`
    emits, in which order the branches are tried, and how `genimpl`
    composes the definitions. */
module GeneratorProofs {
  import opened Base
  import opened Sanitizer
  import opened Schemas
  import opened Generator

  // ---------------------------------------------------------------------
  // Branch by branch. Each lemma's premise names only the keywords that
  // decide the branch, so the keywords it leaves out are shown not to matter.

  /** No type comes back exactly for a `$ref` outside `#/definitions/` on a
      node without `anyOf`, `enum` or `type`; nothing is emitted for it. */
  lemma DescendNoneIff(n: string, s: Schema, root: bool, cs: Casing)
    requires Supported(s)
    ensures var r := Descend(n, s, root, cs);
      && (r.name.None? <==>
            |s.anyOf| == 0 && |s.enums| == 0 && TypeSet(s) == {} && s.reference.Some?
            && !StartsWith(s.reference.value, DefinitionsPrefix))
      && (r.name.None? ==> r.out == [])
  {
  }

  /** A `#/definitions/X` reference stands for the camel-cased sanitized `X`;
      a wrapper struct named after the node is declared only at the root. */
  lemma DescendReference(n: string, s: Schema, root: bool, cs: Casing)
    requires |s.anyOf| == 0 && |s.enums| == 0 && TypeSet(s) == {}
    requires s.reference.Some? && StartsWith(s.reference.value, DefinitionsPrefix)
    ensures Supported(s)
    ensures var target := cs.camel(Sanitize(s.reference.value[14..]));
      var r := Descend(n, s, root, cs);
      && r.name == Some(target)
      && (root ==> r.out == [Derive, "pub struct " + cs.camel(Sanitize(n)) + "(" + target + ");"])
      && (!root ==> r.out == [])
  {
  }

  /** Null unification: every node whose `type` is just `null` is the shared
      `Null` type, whatever its path, and declares nothing. */
  lemma DescendNull(n: string, s: Schema, root: bool, cs: Casing)
    requires TypeSet(s) == {"null"} && |s.enums| == 0
    ensures Supported(s)
    ensures Descend(n, s, root, cs) == Emitted(Some("Null"), [])
  {
  }

  /** Only a reference looks at whether it is a root: every other node
      emits the same lines at the top level and below it. */
  lemma RootOnlyForReferences(n: string, s: Schema, cs: Casing)
    requires Supported(s) && Classify(s) != Reference
    ensures Descend(n, s, true, cs) == Descend(n, s, false, cs)
  {
  }

  /** The lines a union declares for itself, after its alternatives' own
      declarations. */
  function UnionBlock(name: string, alts: seq<Schema>, cs: Casing): seq<string>
  {
    UnionHeader(name) + UnionVariants(name, alts, 0, cs) + ["}"]
  }

  /** `anyOf` without `type` wins over every other keyword: the node becomes
      an untagged enum with one tuple variant per alternative that has a
      type, in order, declared after everything its alternatives declared. */
  lemma UnionBranch(n: string, s: Schema, root: bool, cs: Casing)
    requires |s.anyOf| > 0 && TypeSet(s) == {}
    requires Supported(s)
    ensures var name := cs.camel(Sanitize(n));
      var r := Descend(n, s, root, cs);
      && r.name == Some(name)
      && r.out == Alternatives(name, s.anyOf, 0, cs).decls + UnionBlock(name, s.anyOf, cs)
  {
  }

  /** The number of alternatives in `alts[i..]` that have a type. */
  function Typed(alts: seq<Schema>, i: nat): nat
    requires i <= |alts|
    decreases |alts| - i
  {
    if i == |alts| then 0 else (if Unresolvable(alts[i]) then 0 else 1) + Typed(alts, i + 1)
  }

  /** Every line is a tuple variant `  V(V),`. */
  ghost predicate AllVariantLines(vs: seq<string>)
  {
    forall k :: 0 <= k < |vs| ==> exists v :: vs[k] == VariantLine(v)
  }

  /** One variant per alternative that has a type, and each variant wraps
      the type of the same name. */
  lemma {:induction false} VariantsOnePerTypedAlternative(name: string, alts: seq<Schema>, i: nat, cs: Casing)
    requires i <= |alts|
    ensures var vs := UnionVariants(name, alts, i, cs);
      |vs| == Typed(alts, i) && AllVariantLines(vs)
    decreases |alts| - i
  {
    if i < |alts| {
      VariantsOnePerTypedAlternative(name, alts, i + 1, cs);
      UnionVariantsStep(name, alts, i, cs);
    }
  }

  /** One alternative's contribution to the variant lines: one more variant
      line exactly when the alternative has a type. */
  lemma UnionVariantsStep(name: string, alts: seq<Schema>, i: nat, cs: Casing)
    requires i < |alts|
    ensures var vs := UnionVariants(name, alts, i, cs);
      var rest := UnionVariants(name, alts, i + 1, cs);
      && |vs| == |rest| + (if Unresolvable(alts[i]) then 0 else 1)
      && (AllVariantLines(rest) ==> AllVariantLines(vs))
  {
    var rest := UnionVariants(name, alts, i + 1, cs);
    match NameOf(name + "Variant" + DecimalString(i), alts[i], cs)
    case Some(v) =>
      if AllVariantLines(rest) {
        ConsVariantLine(Sanitize(v), rest);
      }
    case None =>
  }

  lemma ConsVariantLine(w: string, rest: seq<string>)
    requires AllVariantLines(rest)
    ensures AllVariantLines([VariantLine(w)] + rest)
  {
    var vs := [VariantLine(w)] + rest;
    forall k | 0 <= k < |vs| ensures exists v :: vs[k] == VariantLine(v) {
      if k == 0 {
        assert vs[0] == VariantLine(w);
      } else {
        assert vs[k] == rest[k - 1];
      }
    }
  }

  /** Null unification inside a union: an alternative whose `type` is just
      `null` contributes the variant `Null(Null)`. */
  lemma NullAlternative(name: string, alts: seq<Schema>, i: nat, cs: Casing)
    requires i < |alts| && TypeSet(alts[i]) == {"null"} && |alts[i].enums| == 0
    ensures UnionVariants(name, alts, i, cs) == ["  Null(Null),"] + UnionVariants(name, alts, i + 1, cs)
  {
    assert Classify(alts[i]) == NullType by {
      assert |TypeSet(alts[i])| == 1;
      assert "object" !in TypeSet(alts[i]) && "number" !in TypeSet(alts[i]);
      assert "boolean" !in TypeSet(alts[i]) && "string" !in TypeSet(alts[i]);
    }
    assert NameOf(name + "Variant" + DecimalString(i), alts[i], cs) == Some("Null");
    SanitizeNull();
    assert VariantLine(Sanitize("Null")) == "  Null(Null),";
  }

  lemma SanitizeNull()
    ensures Sanitize("Null") == "Null"
  {
    SanitizeIdentity("Null");
  }

  /** With `anyOf` out of the way, a non-empty `enum` wins over `type`
      `object` and over `$ref`: one line declares the literal enum. */
  lemma EnumBranch(n: string, s: Schema, root: bool, cs: Casing)
    requires |s.enums| > 0 && !(|s.anyOf| > 0 && TypeSet(s) == {})
    requires forall j :: 0 <= j < |s.enums| ==> IsEnumLiteral(s.enums[j])
    ensures Supported(s)
    ensures var name := cs.camel(Sanitize(n));
      Descend(n, s, root, cs)
        == Emitted(Some(name),
                   [Derive, "pub enum " + name + " { " + Join(EnumEntries(name, s.enums, TypeSet(s), cs), ", ") + " }"])
  {
  }

  /** The lines an object declares for itself. */
  function ObjectBlock(name: string, props: seq<Property>, cs: Casing): seq<string>
    requires forall j :: 0 <= j < |props| ==> !Unresolvable(props[j].schema)
  {
    [Derive, "pub struct " + name + " {"] + StructFields(name, props, 0, cs) + ["}"]
  }

  /** A node whose `type` is just `object` and that has no `enum` becomes a
      struct whatever its `$ref` says: a `serde_json::Value` wrapper when it
      lists no properties, otherwise a struct declared after everything its
      properties declared. */
  lemma ObjectBranch(n: string, s: Schema, root: bool, cs: Casing)
    requires TypeSet(s) == {"object"} && |s.enums| == 0
    requires Supported(s)
    ensures var name := cs.camel(Sanitize(n));
      var r := Descend(n, s, root, cs);
      && r.name == Some(name)
      && (|s.properties| == 0 ==> r.out == [Derive, "pub struct " + name + " (serde_json::Value);"])
      && (|s.properties| > 0 ==> r.out == Fields(name, s.properties, 0, cs).decls + ObjectBlock(name, s.properties, cs))
  {
    assert |TypeSet(s)| == 1;
  }

  /** `required` and `additionalProperties` are never consulted: changing
      them changes nothing in the output. */
  lemma RequiredIgnored(n: string, s: Schema, root: bool, cs: Casing,
                        req: seq<string>, extra: Option<AdditionalProperties>)
    requires Supported(s)
    ensures Supported(s.(required := req, additionalProperties := extra))
    ensures Descend(n, s.(required := req, additionalProperties := extra), root, cs)
         == Descend(n, s, root, cs)
  {
    var s' := s.(required := req, additionalProperties := extra);
    assert TypeSet(s') == TypeSet(s);
    assert Classify(s') == Classify(s);
  }

  /** A single `number`, `boolean` or `string` type becomes a tuple struct
      around `f64`, `bool` or `String`, whatever `anyOf` and `$ref` say. */
  lemma WrapperBranches(n: string, s: Schema, root: bool, cs: Casing, t: string)
    requires |s.enums| == 0 && TypeSet(s) == {t}
    requires t == "number" || t == "boolean" || t == "string"
    ensures Supported(s)
    ensures var name := cs.camel(Sanitize(n));
      var inner := match t case "number" => "f64" case "boolean" => "bool" case _ => "String";
      Descend(n, s, root, cs) == Emitted(Some(name), [Derive, "pub struct " + name + "(" + inner + ");"])
  {
    var ts := TypeSet(s);
    assert |ts| == 1 && "object" !in ts && ts != {};
    assert "number" != "string" by { assert "number"[0] != "string"[0]; }
    if t == "number" {
      assert Classify(s) == NumberWrapper;
      var name := cs.camel(Sanitize(n));
      assert "pub struct " + name + "(" + "f64" + ");" == "pub struct " + name + "(f64);";
    } else if t == "boolean" {
      assert "number" !in ts;
      assert Classify(s) == BooleanWrapper;
      var name := cs.camel(Sanitize(n));
      assert "pub struct " + name + "(" + "bool" + ");" == "pub struct " + name + "(bool);";
    } else {
      assert "number" !in ts && "boolean" !in ts;
      assert Classify(s) == StringWrapper;
      var name := cs.camel(Sanitize(n));
      assert "pub struct " + name + "(" + "String" + ");" == "pub struct " + name + "(String);";
    }
  }

  /** A single `array` type becomes a `Vec` alias of its items' type, after
      everything the items declared; items without a type fall back to the
      name they were walked under. No derive line precedes the alias. */
  lemma ArrayBranch(n: string, s: Schema, root: bool, cs: Casing)
    requires TypeSet(s) == {"array"} && |s.enums| == 0
    requires Supported(s)
    ensures s.items.Some?
    ensures var name := cs.camel(Sanitize(n));
      var innerName := "VecOf" + cs.camel(name);
      var element := match NameOf(innerName, s.items.value, cs)
                     case Some(t) => t
                     case None => innerName;
      var r := Descend(n, s, root, cs);
      && r.name == Some(name)
      && r.out == Descend(innerName, s.items.value, false, cs).out
                  + ["pub type " + name + " = Vec<" + Sanitize(element) + ">;"]
  {
    assert |TypeSet(s)| == 1;
    assert "object" !in TypeSet(s) && "number" !in TypeSet(s) && "boolean" !in TypeSet(s);
    assert "string" !in TypeSet(s) && "null" !in TypeSet(s);
  }

  /** Several types, all primitive, and no `enum`: one `pub enum` line
      whose variants are the types' variants, joined by `, `. */
  lemma MultiTypeBranch(n: string, s: Schema, root: bool, cs: Casing)
    requires |s.enums| == 0 && |TypeSet(s)| > 1 && TypeSet(s) <= PrimitiveTypes
    ensures Supported(s)
    ensures var name := cs.camel(Sanitize(n));
      Descend(n, s, root, cs)
        == Emitted(Some(name), [Derive, "pub enum " + name + " { " + Join(PrimitiveVariants(TypeSet(s)), ", ") + " }"])
  {
  }

  /** Several primitive types become an enum with one variant per type; the
      variants are exactly the types' variants, each once. */
  lemma MultiTypeVariants(types: set<string>)
    requires types <= PrimitiveTypes
    ensures var vs := PrimitiveVariants(types);
      && (set v | v in vs) == (set t | t in types :: PrimitiveVariant(t))
      && (forall i, j :: 0 <= i < j < |vs| ==> vs[i] != vs[j])
  {
    var vs := PrimitiveVariants(types);
    forall t | t in types ensures PrimitiveVariant(t) in vs {
      assert t == "number" || t == "string" || t == "boolean" || t == "null";
    }
  }

  /** A node no other branch claims (no keyword at all, or one type name the
      generator does not know, such as `integer`) becomes a unit struct. */
  lemma UnsupportedFallback(n: string, s: Schema, root: bool, cs: Casing)
    requires |s.enums| == 0
    requires (TypeSet(s) == {} && |s.anyOf| == 0 && s.reference.None?)
          || (exists t :: TypeSet(s) == {t} && t !in PrimitiveTypes && t != "object" && t != "array")
    ensures Supported(s)
    ensures var name := cs.camel(Sanitize(n));
      Descend(n, s, root, cs) == Emitted(Some(name), [Derive, "pub struct " + name + ";"])
  {
    if TypeSet(s) != {} {
      var t :| TypeSet(s) == {t} && t !in PrimitiveTypes && t != "object" && t != "array";
      assert |TypeSet(s)| == 1;
      assert "number" !in TypeSet(s) && "boolean" !in TypeSet(s) && "string" !in TypeSet(s);
      assert "null" !in TypeSet(s) && "object" !in TypeSet(s) && "array" !in TypeSet(s);
    }
  }

  // ---------------------------------------------------------------------
  // Literal enums

  /** Whether the node's `type` list admits a literal. */
  predicate Admits(types: set<string>, v: JsonValue)
  {
    || (v.JString? && "string" in types)
    || (v.JNumber? && "number" in types)
    || (v.JNull? && "null" in types)
  }

  /** The literals that survive the filter, in order. */
  function Kept(vs: seq<JsonValue>, types: set<string>): seq<JsonValue>
  {
    if |vs| == 0 then []
    else (if Admits(types, vs[0]) then [vs[0]] else []) + Kept(vs[1..], types)
  }

  /** A literal survives exactly when it is listed and its kind is admitted. */
  lemma {:induction false} KeptIff(vs: seq<JsonValue>, types: set<string>, v: JsonValue)
    ensures v in Kept(vs, types) <==> v in vs && Admits(types, v)
  {
    if |vs| > 0 {
      KeptIff(vs[1..], types, v);
      assert vs == [vs[0]] + vs[1..];
    }
  }

  /** The variant name a surviving literal gets, and the text it came from. */
  function Naming(name: string, v: JsonValue, cs: Casing): (string, string)
  {
    match v
    case JString(t) => (t, cs.camel(t))
    case JNumber(t) => (t, cs.camel(name + "_" + t))
    case _ => ("null", "Null")
  }

  /** The enum's entries are the surviving literals, one each, in order:
      strings named by their camel-cased text, numbers by the camel-cased
      `<name>_<number>`, and null as `Null` renamed from `null`. */
  lemma {:induction false} EnumEntriesAreKept(name: string, vs: seq<JsonValue>, types: set<string>, cs: Casing)
    ensures var es := EnumEntries(name, vs, types, cs);
      var ks := Kept(vs, types);
      && |es| == |ks|
      && forall k :: 0 <= k < |ks| ==> es[k] == EnumEntry(Naming(name, ks[k], cs).0, Naming(name, ks[k], cs).1)
  {
    if |vs| > 0 {
      EnumEntriesAreKept(name, vs[1..], types, cs);
    }
  }

  /** An entry carries a rename attribute exactly when the literal's text
      differs from the variant name. */
  lemma EnumEntryRenameIff(original: string, variant: string)
    ensures EnumEntry(original, variant) == variant <==> original == variant
  {
    if original != variant {
      assert |EnumEntry(original, variant)| > |variant|;
    }
  }

  // ---------------------------------------------------------------------
  // Objects

  /** The number of lines that start with `prefix`. */
  function CountStarting(lines: seq<string>, prefix: string): nat
  {
    if |lines| == 0 then 0
    else (if StartsWith(lines[0], prefix) then 1 else 0) + CountStarting(lines[1..], prefix)
  }

  const FieldPrefix: string := "  pub "
  const RenameAttribute: string := "  #[serde(rename="

  lemma {:induction false} CountStartingConcat(a: seq<string>, b: seq<string>, prefix: string)
    ensures CountStarting(a + b, prefix) == CountStarting(a, prefix) + CountStarting(b, prefix)
  {
    if |a| > 0 {
      assert (a + b)[1..] == a[1..] + b;
      CountStartingConcat(a[1..], b, prefix);
    } else {
      assert a + b == b;
    }
  }

  /** The number of properties from `i` on whose key differs from the
      field name it becomes. */
  function ChangedKeys(props: seq<Property>, i: nat, cs: Casing): nat
    requires i <= |props|
    decreases |props| - i
  {
    if i == |props| then 0
    else (if props[i].key != cs.snake(Sanitize(props[i].key)) then 1 else 0) + ChangedKeys(props, i + 1, cs)
  }

  /** The lines one property contributes, split into the attribute part and
      the declaration, with what each kind of count sees in them. */
  lemma PropertyLines(name: string, props: seq<Property>, i: nat, cs: Casing)
    requires i < |props|
    requires forall j :: 0 <= j < |props| ==> !Unresolvable(props[j].schema)
    ensures var key := props[i].key;
      var field := cs.snake(Sanitize(key));
      var rename: seq<string> := if key != field then [FieldRename(key)] else [];
      var t := NameOf(PropertyPath(name, key, cs), props[i].schema, cs);
      var line := FieldLine(field, if t.Some? then t.value else "");
      && StructFields(name, props, i, cs) == rename + [line] + StructFields(name, props, i + 1, cs)
      && CountStarting(rename, FieldPrefix) == 0
      && CountStarting([line], FieldPrefix) == 1
      && CountStarting(rename, RenameAttribute) == (if key != field then 1 else 0)
      && CountStarting([line], RenameAttribute) == 0
  {
    var key := props[i].key;
    var field := cs.snake(Sanitize(key));
    var t := NameOf(PropertyPath(name, key, cs), props[i].schema, cs);
    var line := FieldLine(field, if t.Some? then t.value else "");
    assert StartsWith(line, FieldPrefix) by { assert line[..6] == FieldPrefix; }
    assert !StartsWith(line, RenameAttribute) by { assert line[2] != RenameAttribute[2]; }
    assert CountStarting([line], FieldPrefix) == 1;
    assert CountStarting([line], RenameAttribute) == 0;
    if key != field {
      assert !StartsWith(FieldRename(key), FieldPrefix) by { assert FieldRename(key)[2] == '#'; }
      assert StartsWith(FieldRename(key), RenameAttribute) by {
        assert FieldRename(key)[..|RenameAttribute|] == RenameAttribute;
      }
      assert CountStarting([FieldRename(key)], FieldPrefix) == 0;
      assert CountStarting([FieldRename(key)], RenameAttribute) == 1;
    }
  }

  /** The lines that start with `prefix`, in order. */
  function Starting(lines: seq<string>, prefix: string): seq<string>
  {
    if |lines| == 0 then []
    else (if StartsWith(lines[0], prefix) then [lines[0]] else []) + Starting(lines[1..], prefix)
  }

  lemma {:induction false} StartingConcat(a: seq<string>, b: seq<string>, prefix: string)
    ensures Starting(a + b, prefix) == Starting(a, prefix) + Starting(b, prefix)
  {
    if |a| > 0 {
      assert (a + b)[1..] == a[1..] + b;
      StartingConcat(a[1..], b, prefix);
    } else {
      assert a + b == b;
    }
  }

  lemma {:induction false} StartingCount(lines: seq<string>, prefix: string)
    ensures |Starting(lines, prefix)| == CountStarting(lines, prefix)
  {
    if |lines| > 0 {
      StartingCount(lines[1..], prefix);
    }
  }

  /** The type a property's field wraps in `Option<..>`: the name its schema
      was walked to. */
  function PropertyType(name: string, p: Property, cs: Casing): string
  {
    var t := NameOf(PropertyPath(name, p.key, cs), p.schema, cs);
    if t.Some? then t.value else ""
  }

  /** The field line a property should become. */
  function FieldOf(name: string, cs: Casing): Property -> string
  {
    (p: Property) => FieldLine(cs.snake(Sanitize(p.key)), PropertyType(name, p, cs))
  }

  /** `f` applied to each of `props[i..]`, in order. */
  function MapLines(props: seq<Property>, i: nat, f: Property -> string): seq<string>
    requires i <= |props|
    decreases |props| - i
  {
    if i == |props| then [] else [f(props[i])] + MapLines(props, i + 1, f)
  }

  lemma {:induction false} MapLinesAt(props: seq<Property>, i: nat, f: Property -> string)
    requires i <= |props|
    ensures var m := MapLines(props, i, f);
      |m| == |props| - i && forall k :: 0 <= k < |m| ==> m[k] == f(props[i + k])
    decreases |props| - i
  {
    if i < |props| {
      MapLinesAt(props, i + 1, f);
      var m := MapLines(props, i, f);
      var tail := MapLines(props, i + 1, f);
      forall k | 0 <= k < |m| ensures m[k] == f(props[i + k]) {
        if k > 0 {
          assert m[k] == tail[k - 1];
        }
      }
    }
  }

  /** One field per property, whatever `required` lists: a rename attribute
      is never taken for a field. The fields come in property order, each
      named after its key and typed `Option<..>` of its schema's name. */
  lemma OneFieldPerProperty(name: string, props: seq<Property>, i: nat, cs: Casing)
    requires i <= |props|
    requires forall j :: 0 <= j < |props| ==> !Unresolvable(props[j].schema)
    ensures CountStarting(StructFields(name, props, i, cs), FieldPrefix) == |props| - i
    ensures var fs := Starting(StructFields(name, props, i, cs), FieldPrefix);
      && |fs| == |props| - i
      && forall k :: 0 <= k < |fs| ==>
           fs[k] == "  pub " + cs.snake(Sanitize(props[i + k].key)) + ": Option<" + PropertyType(name, props[i + k], cs) + ">,"
  {
    FieldsInOrder(name, props, i, cs);
    MapLinesAt(props, i, FieldOf(name, cs));
    StartingCount(StructFields(name, props, i, cs), FieldPrefix);
  }

  lemma {:induction false} FieldsInOrder(name: string, props: seq<Property>, i: nat, cs: Casing)
    requires i <= |props|
    requires forall j :: 0 <= j < |props| ==> !Unresolvable(props[j].schema)
    ensures Starting(StructFields(name, props, i, cs), FieldPrefix) == MapLines(props, i, FieldOf(name, cs))
    decreases |props| - i
  {
    if i < |props| {
      var key := props[i].key;
      var field := cs.snake(Sanitize(key));
      var rename: seq<string> := if key != field then [FieldRename(key)] else [];
      var line := FieldLine(field, PropertyType(name, props[i], cs));
      PropertyLines(name, props, i, cs);
      FieldsInOrder(name, props, i + 1, cs);
      StartingStep(rename, line, StructFields(name, props, i + 1, cs), MapLines(props, i + 1, FieldOf(name, cs)));
    }
  }

  /** Attribute lines, then one field line, then lines whose fields are
      known. */
  lemma StartingStep(rename: seq<string>, line: string, rest: seq<string>, restFields: seq<string>)
    requires CountStarting(rename, FieldPrefix) == 0 && CountStarting([line], FieldPrefix) == 1
    requires Starting(rest, FieldPrefix) == restFields
    ensures Starting(rename + [line] + rest, FieldPrefix) == [line] + restFields
  {
    StartingCount(rename, FieldPrefix);
    StartingConcat(rename, [line], FieldPrefix);
    StartingConcat(rename + [line], rest, FieldPrefix);
    assert Starting([line], FieldPrefix) == [line];
  }

  /** A rename attribute exactly for each property whose key is not already
      its own field name. */
  lemma {:induction false} RenamePerChangedKey(name: string, props: seq<Property>, i: nat, cs: Casing)
    requires i <= |props|
    requires forall j :: 0 <= j < |props| ==> !Unresolvable(props[j].schema)
    ensures CountStarting(StructFields(name, props, i, cs), RenameAttribute) == ChangedKeys(props, i, cs)
    decreases |props| - i
  {
    if i < |props| {
      var key := props[i].key;
      var field := cs.snake(Sanitize(key));
      var t := NameOf(PropertyPath(name, key, cs), props[i].schema, cs);
      var rename: seq<string> := if key != field then [FieldRename(key)] else [];
      var line := FieldLine(field, if t.Some? then t.value else "");
      PropertyLines(name, props, i, cs);
      RenamePerChangedKey(name, props, i + 1, cs);
      CountStartingConcat(rename, [line], RenameAttribute);
      CountStartingConcat(rename + [line], StructFields(name, props, i + 1, cs), RenameAttribute);
    }
  }

  // ---------------------------------------------------------------------
  // genimpl

  /** The lines each definition produces, concatenated in document order. */
  function DefinitionOutputs(defs: seq<Property>, cs: Casing): seq<string>
    requires forall j :: 0 <= j < |defs| ==> Supported(defs[j].schema)
  {
    if |defs| == 0 then []
    else Descend(defs[0].key, defs[0].schema, true, cs).out + DefinitionOutputs(defs[1..], cs)
  }

  /** The definition loop appends each definition's lines, as if walked
      alone, one definition after another. */
  lemma {:induction false} DefinitionsConcat(defs: seq<Property>, out: seq<string>, cs: Casing)
    requires forall j :: 0 <= j < |defs| ==> Supported(defs[j].schema)
    ensures Definitions(defs, out, cs) == out + DefinitionOutputs(defs, cs)
    decreases |defs|
  {
    if |defs| > 0 {
      var e := Descend(defs[0].key, defs[0].schema, true, cs).out;
      var rest := DefinitionOutputs(defs[1..], cs);
      assert Definitions(defs, out, cs) == Definitions(defs[1..], out + e, cs);
      DefinitionsConcat(defs[1..], out + e, cs);
      assert DefinitionOutputs(defs, cs) == e + rest;
      AppendAssoc(out, e, rest);
    }
  }

  lemma AppendAssoc(a: seq<string>, b: seq<string>, c: seq<string>)
    ensures a + b + c == a + (b + c)
  {
  }

  lemma GenImplConcat(doc: Schema, cs: Casing)
    requires forall j :: 0 <= j < |doc.definitions| ==> Supported(doc.definitions[j].schema)
    ensures GenImpl(doc, cs) == DefinitionOutputs(doc.definitions, cs)
  {
    DefinitionsConcat(doc.definitions, [], cs);
  }
}

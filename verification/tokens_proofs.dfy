/** Reading the rendered declarations back. Each reader undoes one
    `Display` impl line by line. The round-trip lemmas show that the lines
    determine the declaration: which attributes appear, in which order, and
    what they carry. This holds for `Plain` fields and `Ident` variant
    names; the *Ambiguous lemmas give declarations outside these that print
    alike. `SplitLines` recovers the lines from the text when no name or
    type holds a newline. */
module TokensProofs {
  import opened Base
  import opened Tokens

  // ---------------------------------------------------------------------
  // Reading pieces of a line

  /** `line` without a known prefix, compared one character at a time.
      The recursion is measured on the line, which is never a literal. */
  function StripPrefix(line: string, pre: string): Option<string>
    decreases |line|
  {
    if |pre| == 0 then Some(line)
    else if |line| > 0 && line[0] == pre[0] then StripPrefix(line[1..], pre[1..])
    else None
  }

  /** `line` without a known suffix, compared from the end. */
  function StripSuffix(line: string, suf: string): Option<string>
    decreases |line|
  {
    if |suf| == 0 then Some(line)
    else if |line| > 0 && line[|line| - 1] == suf[|suf| - 1] then
      StripSuffix(line[..|line| - 1], suf[..|suf| - 1])
    else None
  }

  lemma {:induction false} StripPrefixSome(line: string, pre: string)
    requires StripPrefix(line, pre).Some?
    ensures line == pre + StripPrefix(line, pre).value
    decreases |line|
  {
    if |pre| > 0 {
      var x := StripPrefix(line[1..], pre[1..]).value;
      StripPrefixSome(line[1..], pre[1..]);
      calc {
        line;
        [line[0]] + line[1..];
        [pre[0]] + (pre[1..] + x);
        ([pre[0]] + pre[1..]) + x;
        { assert [pre[0]] + pre[1..] == pre; }
        pre + x;
      }
    }
  }

  lemma {:induction false} StripSuffixSome(line: string, suf: string)
    requires StripSuffix(line, suf).Some?
    ensures line == StripSuffix(line, suf).value + suf
    decreases |line|
  {
    if |suf| > 0 {
      var init := line[..|line| - 1];
      var x := StripSuffix(init, suf[..|suf| - 1]).value;
      StripSuffixSome(init, suf[..|suf| - 1]);
      calc {
        line;
        init + [line[|line| - 1]];
        (x + suf[..|suf| - 1]) + [suf[|suf| - 1]];
        x + (suf[..|suf| - 1] + [suf[|suf| - 1]]);
        { assert suf[..|suf| - 1] + [suf[|suf| - 1]] == suf; }
        x + suf;
      }
    }
  }

  /** The text strictly between a known prefix and suffix of a line. */
  function Between(line: string, pre: string, suf: string): (r: Option<string>)
    ensures r.Some? ==> pre + r.value + suf == line
  {
    match StripPrefix(line, pre)
    case None => None
    case Some(x) =>
      match StripSuffix(x, suf)
      case None => None
      case Some(y) =>
        StripPrefixSome(line, pre);
        StripSuffixSome(x, suf);
        assert pre + (y + suf) == pre + y + suf;
        Some(y)
  }

  lemma {:induction false} StripPrefixRoundTrip(pre: string, x: string)
    ensures StripPrefix(pre + x, pre) == Some(x)
    decreases |pre|
  {
    if |pre| == 0 {
      assert pre + x == x;
    } else {
      var line := pre + x;
      assert line[0] == pre[0];
      assert line[1..] == pre[1..] + x;
      StripPrefixRoundTrip(pre[1..], x);
    }
  }

  lemma {:induction false} StripSuffixRoundTrip(x: string, suf: string)
    ensures StripSuffix(x + suf, suf) == Some(x)
    decreases |suf|
  {
    if |suf| == 0 {
      assert x + suf == x;
    } else {
      var line := x + suf;
      assert line[|line| - 1] == suf[|suf| - 1];
      assert line[..|line| - 1] == x + suf[..|suf| - 1];
      StripSuffixRoundTrip(x, suf[..|suf| - 1]);
    }
  }

  lemma BetweenRoundTrip(pre: string, x: string, suf: string)
    ensures Between(pre + x + suf, pre, suf) == Some(x)
  {
    assert pre + x + suf == pre + (x + suf);
    StripPrefixRoundTrip(pre, x + suf);
    StripSuffixRoundTrip(x, suf);
  }

  lemma {:induction false} StripPrefixMiss(line: string, pre: string, i: nat)
    requires i < |pre| && i < |line| && line[i] != pre[i]
    ensures StripPrefix(line, pre).None?
    decreases i
  {
    if i > 0 && line[0] == pre[0] {
      StripPrefixMiss(line[1..], pre[1..], i - 1);
    }
  }

  lemma {:induction false} StripSuffixMiss(line: string, suf: string, i: nat)
    requires i < |suf|
    requires i < |line| ==> line[|line| - 1 - i] != suf[|suf| - 1 - i]
    ensures StripSuffix(line, suf).None?
    decreases i
  {
    if i > 0 && |line| > 0 && line[|line| - 1] == suf[|suf| - 1] {
      StripSuffixMiss(line[..|line| - 1], suf[..|suf| - 1], i - 1);
    }
  }

  /** A line that differs from the prefix at some position has no text
      between that prefix and any suffix. */
  lemma BetweenMissPrefix(line: string, pre: string, suf: string, i: nat)
    requires i < |pre| && i < |line| && line[i] != pre[i]
    ensures Between(line, pre, suf).None?
  {
    StripPrefixMiss(line, pre, i);
  }

  /** Likewise for a difference at the `i`-th position from the end. */
  lemma BetweenMissSuffix(line: string, pre: string, suf: string, i: nat)
    requires i < |suf| && i < |line| && line[|line| - 1 - i] != suf[|suf| - 1 - i]
    ensures Between(line, pre, suf).None?
  {
    var x := StripPrefix(line, pre);
    if x.Some? {
      StripPrefixSome(line, pre);
      var y := x.value;
      if i < |y| {
        assert y[|y| - 1 - i] == line[|line| - 1 - i];
      }
      StripSuffixMiss(y, suf, i);
    }
  }

  /** The position of the first `c` in `s`, or `|s|` when there is none. */
  function FirstIndex(s: string, c: char): (r: nat)
    ensures r <= |s|
    ensures r < |s| ==> s[r] == c
    ensures forall k :: 0 <= k < r ==> s[k] != c
  {
    if |s| == 0 then 0 else if s[0] == c then 0 else 1 + FirstIndex(s[1..], c)
  }

  predicate Lacks(s: string, c: char)
  {
    forall k :: 0 <= k < |s| ==> s[k] != c
  }

  /** Splitting `a + [c] + b` at its first `c` gives back `a` when `a` has no `c`. */
  lemma FirstIndexAt(a: string, c: char, b: string)
    requires Lacks(a, c)
    ensures FirstIndex(a + [c] + b, c) == |a|
  {
    var s := a + [c] + b;
    assert s[|a|] == c;
    assert forall k :: 0 <= k < |a| ==> s[k] == a[k];
  }

  // ---------------------------------------------------------------------
  // Fields

  /** What a field's text tells: everything but its description. */
  datatype FieldView = FieldView(name: string, oldName: string, fieldType: string, required: bool, boxed: bool)

  function View(f: StructField): FieldView
  {
    FieldView(f.name, f.oldName, f.fieldType, f.required, f.boxed)
  }

  function Views(fs: seq<StructField>): (vs: seq<FieldView>)
    ensures |vs| == |fs|
  {
    if |fs| == 0 then [] else [View(fs[0])] + Views(fs[1..])
  }

  predicate IsRenameLine(line: string)
  {
    Between(line, RenamePrefix, RenameSuffix).Some?
  }

  /** `text` cut at the first occurrence of `sep`'s first character,
      provided `sep` itself starts there. */
  function SplitAtFirst(text: string, sep: string): Option<(string, string)>
    requires |sep| > 0
  {
    var i := FirstIndex(text, sep[0]);
    if i + |sep| <= |text| && text[i..i + |sep|] == sep then Some((text[..i], text[i + |sep|..])) else None
  }

  lemma SplitAtFirstRoundTrip(a: string, sep: string, b: string)
    requires |sep| > 0 && Lacks(a, sep[0])
    ensures SplitAtFirst(a + sep + b, sep) == Some((a, b))
  {
    var text := a + sep + b;
    assert text == a + [sep[0]] + (sep[1..] + b);
    FirstIndexAt(a, sep[0], sep[1..] + b);
    assert text[|a|..|a| + |sep|] == sep;
    assert text[..|a|] == a;
    assert text[|a| + |sep|..] == b;
  }

  /** The field name and type text of a `pub` line. */
  function ReadDecl(line: string): Option<(string, string)>
  {
    match Between(line, PubPrefix, ",")
    case None => None
    case Some(body) => SplitAtFirst(body, ": ")
  }

  /** The field type, whether the field is required and whether it is
      boxed, from the declared type text and whether a `default`
      attribute preceded it. */
  function ReadType(t: string, hasDefault: bool): (string, bool, bool)
  {
    var optional := !hasDefault && Between(t, "Option<", ">").Some?;
    var u := if optional then Between(t, "Option<", ">").value else t;
    var boxed := Between(u, "Box<", ">");
    (if boxed.Some? then boxed.value else u, !hasDefault && !optional, boxed.Some?)
  }

  /** The declaration line alone, read as a field that keeps its name. */
  function ReadDeclared(line: string, hasDefault: bool): Option<FieldView>
  {
    match ReadDecl(line)
    case None => None
    case Some(d) =>
      var t := ReadType(d.1, hasDefault);
      Some(FieldView(d.0, d.0, t.0, t.1, t.2))
  }

  /** A field without a rename attribute: an optional `default` line, then
      the declaration. */
  function ReadUnrenamed(ls: seq<string>): (r: Option<(FieldView, nat)>)
    ensures r.Some? ==> 1 <= r.value.1 <= |ls|
  {
    var hasDefault := |ls| > 0 && ls[0] == DefaultLine;
    var k := if hasDefault then 1 else 0;
    if |ls| <= k then None
    else
      match ReadDeclared(ls[k], hasDefault)
      case None => None
      case Some(v) => Some((v, k + 1))
  }

  /** One field from the head of `ls`, with the number of lines it took. */
  function ReadField(ls: seq<string>): (r: Option<(FieldView, nat)>)
    ensures r.Some? ==> 1 <= r.value.1 <= |ls|
  {
    if |ls| == 0 then None
    else
      var renamed := Between(ls[0], RenamePrefix, RenameSuffix);
      var k := if renamed.Some? then 1 else 0;
      match ReadUnrenamed(ls[k..])
      case None => None
      case Some(p) => Some((if renamed.Some? then p.0.(oldName := renamed.value) else p.0, p.1 + k))
  }

  /** A field whose text can be read back: its name has no colon and its
      type is not itself written as an `Option<..>` or a `Box<..>`. */
  predicate Plain(f: StructField)
  {
    && Lacks(f.name, ':')
    && Between(f.fieldType, "Option<", ">").None?
    && Between(f.fieldType, "Box<", ">").None?
  }

  lemma ReadDeclRoundTrip(name: string, t: string)
    requires Lacks(name, ':')
    ensures ReadDecl(PubLine(name, t)) == Some((name, t))
  {
    var body := name + ": " + t;
    assert PubLine(name, t) == PubPrefix + body + ",";
    BetweenRoundTrip(PubPrefix, body, ",");
    SplitAtFirstRoundTrip(name, ": ", t);
  }

  lemma PubLineIsNoRename(name: string, t: string)
    ensures !IsRenameLine(PubLine(name, t))
    ensures PubLine(name, t) != DefaultLine
  {
    var line := PubLine(name, t);
    assert line[2] == 'p';
    BetweenMissPrefix(line, RenamePrefix, RenameSuffix, 2);
  }

  lemma DefaultLineIsNoRename()
    ensures !IsRenameLine(DefaultLine)
  {
    BetweenMissPrefix(DefaultLine, RenamePrefix, RenameSuffix, 10);
  }

  /** The type text a field is declared with. */
  function TypeText(f: StructField): string
  {
    if f.required || IsCollection(f) then BoxedType(f) else "Option<" + BoxedType(f) + ">"
  }

  /** Whether a `default` attribute precedes the declaration. */
  predicate HasDefault(f: StructField)
  {
    !f.required && IsCollection(f)
  }

  /** The lines after the optional rename attribute. */
  function Unrenamed(f: StructField): seq<string>
  {
    if HasDefault(f) then [DefaultLine, PubLine(f.name, TypeText(f))] else [PubLine(f.name, TypeText(f))]
  }

  lemma FieldLinesLayers(f: StructField)
    ensures f.name == f.oldName ==> FieldLines(f) == Unrenamed(f)
    ensures f.name != f.oldName ==> FieldLines(f) == [RenameLine(f.oldName)] + Unrenamed(f)
  {
  }

  /** The first line after the optional rename attribute is never one. */
  lemma UnrenamedHead(f: StructField)
    ensures |Unrenamed(f)| > 0 && !IsRenameLine(Unrenamed(f)[0])
  {
    PubLineIsNoRename(f.name, TypeText(f));
    DefaultLineIsNoRename();
  }

  /** Reading the declared type back gives the field's type, requiredness
      and boxing. */
  lemma ReadTypeRoundTrip(f: StructField)
    requires Plain(f)
    ensures ReadType(TypeText(f), HasDefault(f)) == (f.fieldType, f.required, f.boxed)
  {
    var b := BoxedType(f);
    if f.boxed {
      BetweenRoundTrip("Box<", f.fieldType, ">");
      BetweenMissPrefix(b, "Option<", ">", 0);
    }
    if !f.required && !IsCollection(f) {
      BetweenRoundTrip("Option<", b, ">");
    }
  }

  lemma ReadUnrenamedRoundTrip(f: StructField, rest: seq<string>)
    requires Plain(f)
    ensures ReadUnrenamed(Unrenamed(f) + rest) == Some((View(f).(oldName := f.name), |Unrenamed(f)|))
  {
    var pub := PubLine(f.name, TypeText(f));
    PubLineIsNoRename(f.name, TypeText(f));
    ReadDeclRoundTrip(f.name, TypeText(f));
    ReadTypeRoundTrip(f);
    var ls := Unrenamed(f) + rest;
    if HasDefault(f) {
      assert ls[0] == DefaultLine && ls[1] == pub;
    } else {
      assert ls[0] == pub;
    }
  }

  /** After a rename attribute, the rest of the field is read as usual and
      takes the old name from the attribute. */
  lemma ReadFieldAfterRename(oldName: string, u: seq<string>, rest: seq<string>)
    ensures ReadUnrenamed(u + rest).Some? ==>
      ReadField([RenameLine(oldName)] + u + rest)
        == Some((ReadUnrenamed(u + rest).value.0.(oldName := oldName), ReadUnrenamed(u + rest).value.1 + 1))
  {
    var ls := [RenameLine(oldName)] + u + rest;
    BetweenRoundTrip(RenamePrefix, oldName, RenameSuffix);
    assert ls[0] == RenameLine(oldName);
    assert ls[1..] == u + rest;
  }

  /** Without a rename attribute in front, a field is read as unrenamed. */
  lemma ReadFieldWithoutRename(u: seq<string>, rest: seq<string>)
    requires |u| > 0 && !IsRenameLine(u[0])
    ensures ReadField(u + rest) == ReadUnrenamed(u + rest)
  {
    assert (u + rest)[0] == u[0];
  }

  lemma ReadRenamedField(f: StructField, rest: seq<string>)
    requires Plain(f) && f.name != f.oldName
    ensures ReadField(FieldLines(f) + rest) == Some((View(f), |FieldLines(f)|))
  {
    var v := View(f).(oldName := f.name);
    var u := Unrenamed(f);
    FieldLinesLayers(f);
    assert FieldLines(f) + rest == [RenameLine(f.oldName)] + u + rest;
    assert |FieldLines(f)| == |u| + 1;
    ReadUnrenamedRoundTrip(f, rest);
    ReadRenamedOf(f.oldName, u, rest, v, |u|);
    assert v.(oldName := f.oldName) == View(f);
  }

  lemma ReadRenamedOf(oldName: string, u: seq<string>, rest: seq<string>, v: FieldView, n: nat)
    requires ReadUnrenamed(u + rest) == Some((v, n))
    ensures ReadField([RenameLine(oldName)] + u + rest) == Some((v.(oldName := oldName), n + 1))
  {
    ReadFieldAfterRename(oldName, u, rest);
  }

  lemma ReadUnrenamedField(f: StructField, rest: seq<string>)
    requires Plain(f) && f.name == f.oldName
    ensures ReadField(FieldLines(f) + rest) == Some((View(f), |FieldLines(f)|))
  {
    FieldLinesLayers(f);
    UnrenamedHead(f);
    ReadFieldWithoutRename(Unrenamed(f), rest);
    ReadUnrenamedRoundTrip(f, rest);
  }

  /** A field's lines read back as the field, whatever follows them. */
  lemma ReadFieldRoundTrip(f: StructField, rest: seq<string>)
    requires Plain(f)
    ensures ReadField(FieldLines(f) + rest) == Some((View(f), |FieldLines(f)|))
  {
    if f.name != f.oldName {
      ReadRenamedField(f, rest);
    } else {
      ReadUnrenamedField(f, rest);
    }
  }

  /** A rename attribute is emitted exactly when the field's name differs
      from the key it is read from, and then it is the first line. */
  lemma FieldRenameIff(f: StructField)
    ensures (exists k :: 0 <= k < |FieldLines(f)| && IsRenameLine(FieldLines(f)[k])) <==> f.name != f.oldName
    ensures f.name != f.oldName ==> FieldLines(f)[0] == RenameLine(f.oldName)
  {
    var t := TypeText(f);
    FieldLinesLayers(f);
    PubLineIsNoRename(f.name, t);
    DefaultLineIsNoRename();
    if f.name != f.oldName {
      BetweenRoundTrip(RenamePrefix, f.oldName, RenameSuffix);
      assert IsRenameLine(FieldLines(f)[0]);
    } else {
      var ls := FieldLines(f);
      assert ls == Unrenamed(f);
      forall k | 0 <= k < |ls| ensures !IsRenameLine(ls[k]) {
        assert ls[k] == DefaultLine || ls[k] == PubLine(f.name, t);
      }
    }
  }

  // ---------------------------------------------------------------------
  // Structs

  datatype StructView = StructView(name: string, fields: seq<FieldView>, additionalFields: bool)

  /** Fields up to the closing `}`, with the number of lines they took. */
  function ReadFields(ls: seq<string>): (r: Option<(seq<FieldView>, nat)>)
    ensures r.Some? ==> r.value.1 < |ls| && ls[r.value.1] == "}"
    decreases |ls|
  {
    if |ls| == 0 then None
    else if ls[0] == "}" then Some(([], 0))
    else
      match ReadField(ls)
      case None => None
      case Some(p) =>
        match ReadFields(ls[p.1..])
        case None => None
        case Some(q) => Some(([p.0] + q.0, p.1 + q.1))
  }

  /** The header, the fields and the closing `}` of a struct. */
  function ReadStructBody(ls: seq<string>, additionalFields: bool): Option<StructView>
  {
    if |ls| == 0 then None
    else
      match Between(ls[0], "pub struct ", " {")
      case None => None
      case Some(name) =>
        match ReadFields(ls[1..])
        case None => None
        case Some(q) => if 1 + q.1 + 1 == |ls| then Some(StructView(name, q.0, additionalFields)) else None
  }

  function ReadStruct(ls: seq<string>): Option<StructView>
  {
    if |ls| > 0 && ls[0] == DenyLine then ReadStructBody(ls[1..], false) else ReadStructBody(ls, true)
  }

  lemma FieldLinesShape(f: StructField)
    ensures |FieldLines(f)| > 0 && FieldLines(f)[0] != "}"
  {
    var ls := FieldLines(f);
    if f.name != f.oldName {
      assert |ls[0]| > 1;
    } else if !f.required && IsCollection(f) {
      assert ls[0] == DefaultLine;
    } else {
      assert |ls[0]| > 1;
    }
  }

  lemma {:induction false} ReadFieldsRoundTrip(fs: seq<StructField>, rest: seq<string>)
    requires forall i :: 0 <= i < |fs| ==> Plain(fs[i])
    ensures ReadFields(FieldsLines(fs) + ["}"] + rest) == Some((Views(fs), |FieldsLines(fs)|))
    decreases |fs|
  {
    var ls := FieldsLines(fs) + ["}"] + rest;
    if |fs| > 0 {
      var f := fs[0];
      var after := FieldsLines(fs[1..]) + ["}"] + rest;
      assert ls == FieldLines(f) + after;
      FieldLinesShape(f);
      ReadFieldRoundTrip(f, after);
      assert ls[|FieldLines(f)|..] == after;
      ReadFieldsRoundTrip(fs[1..], rest);
    }
  }

  /** The first line and the rest of a line list with a known head. */
  lemma HeadAndTail(h: string, ls: seq<string>)
    ensures ([h] + ls)[0] == h && ([h] + ls)[1..] == ls
  {
  }

  /** A header, then lines that read as fields up to a closing `}` that
      ends them, read as a struct. */
  lemma ReadStructBodyOf(name: string, tail: seq<string>, vs: seq<FieldView>, n: nat, additionalFields: bool)
    requires ReadFields(tail) == Some((vs, n)) && n + 1 == |tail|
    ensures ReadStructBody([StructHeader(name)] + tail, additionalFields) == Some(StructView(name, vs, additionalFields))
  {
    BetweenRoundTrip("pub struct ", name, " {");
    HeadAndTail(StructHeader(name), tail);
  }

  lemma AppendNothing(ls: seq<string>)
    ensures ls + [] == ls
  {
  }

  lemma StructLinesLayers(s: Struct)
    ensures StructLines(s)
      == (if s.additionalFields then [] else [DenyLine]) + ([StructHeader(s.name)] + (FieldsLines(s.fields) + ["}"]))
  {
  }

  lemma HeaderIsNoDeny(name: string)
    ensures StructHeader(name) != DenyLine
  {
    assert StructHeader(name)[0] != DenyLine[0];
  }

  /** The `deny_unknown_fields` line, when present, is read off first. */
  lemma ReadStructOf(body: seq<string>, additionalFields: bool)
    requires |body| > 0 && body[0] != DenyLine
    ensures ReadStruct((if additionalFields then [] else [DenyLine]) + body) == ReadStructBody(body, additionalFields)
  {
    if additionalFields {
      assert [] + body == body;
    } else {
      HeadAndTail(DenyLine, body);
    }
  }

  lemma ReadStructRoundTrip(s: Struct)
    requires forall i :: 0 <= i < |s.fields| ==> Plain(s.fields[i])
    ensures ReadStruct(StructLines(s)) == Some(StructView(s.name, Views(s.fields), s.additionalFields))
  {
    var ls := FieldsLines(s.fields);
    var body := [StructHeader(s.name)] + (ls + ["}"]);
    ReadFieldsRoundTrip(s.fields, []);
    AppendNothing(ls + ["}"]);
    ReadStructBodyOf(s.name, ls + ["}"], Views(s.fields), |ls|, s.additionalFields);
    StructLinesLayers(s);
    HeaderIsNoDeny(s.name);
    HeadAndTail(StructHeader(s.name), ls + ["}"]);
    ReadStructOf(body, s.additionalFields);
  }

  /** `deny_unknown_fields` heads the struct exactly when unknown fields
      are not allowed. */
  lemma DenyIff(s: Struct)
    ensures StructLines(s)[0] == DenyLine <==> !s.additionalFields
  {
    if s.additionalFields {
      assert StructLines(s)[0] == StructHeader(s.name);
      assert StructHeader(s.name)[0] != DenyLine[0];
    }
  }

  // ---------------------------------------------------------------------
  // Enums

  /** A variant name the text can be read back from. */
  predicate Ident(name: string)
  {
    Lacks(name, '(') && Lacks(name, ')')
  }

  /** One variant from the head of `ls`, with the number of lines it took. */
  function ReadVariant(ls: seq<string>): (r: Option<(EnumVariant, nat)>)
    ensures r.Some? ==> 1 <= r.value.1 <= |ls|
  {
    if |ls| == 0 then None
    else
      match Between(ls[0], RenamePrefix, RenameSuffix)
      case Some(oldName) =>
        if |ls| < 2 then None
        else (match Between(ls[1], "  ", ",")
              case Some(name) => Some((Unit(name, oldName), 2))
              case None => None)
      case None =>
        match Between(ls[0], "  ", "),")
        case Some(body) =>
          (match SplitAtFirst(body, "(")
           case Some(parts) => Some((Tuple(parts.0, parts.1), 1))
           case None => ReadUnit(ls[0]))
        case None => ReadUnit(ls[0])
  }

  /** A unit variant line that carries no rename attribute. */
  function ReadUnit(line: string): Option<(EnumVariant, nat)>
  {
    match Between(line, "  ", ",")
    case Some(name) => Some((Unit(name, name), 1))
    case None => None
  }

  function ReadVariants(ls: seq<string>): (r: Option<(seq<EnumVariant>, nat)>)
    ensures r.Some? ==> r.value.1 < |ls| && ls[r.value.1] == "}"
    decreases |ls|
  {
    if |ls| == 0 then None
    else if ls[0] == "}" then Some(([], 0))
    else
      match ReadVariant(ls)
      case None => None
      case Some(p) =>
        match ReadVariants(ls[p.1..])
        case None => None
        case Some(q) => Some(([p.0] + q.0, p.1 + q.1))
  }

  function ReadEnum(ls: seq<string>): Option<Enum>
  {
    if |ls| == 0 then None
    else
      match Between(ls[0], "pub enum ", " {")
      case None => None
      case Some(name) =>
        match ReadVariants(ls[1..])
        case None => None
        case Some(q) => if 1 + q.1 + 1 == |ls| then Some(Enum(name, q.0)) else None
  }

  lemma UnitLineRoundTrip(name: string)
    requires Ident(name)
    ensures !IsRenameLine(UnitLine(name))
    ensures Between(UnitLine(name), "  ", "),").None?
    ensures Between(UnitLine(name), "  ", ",") == Some(name)
  {
    var line := UnitLine(name);
    BetweenMissSuffix(line, RenamePrefix, RenameSuffix, 0);
    if |name| > 0 {
      assert line[|line| - 2] == name[|name| - 1];
    }
    BetweenMissSuffix(line, "  ", "),", 1);
    BetweenRoundTrip("  ", name, ",");
  }

  lemma TupleLineRoundTrip(name: string, t: string)
    requires Ident(name)
    ensures !IsRenameLine(TupleLine(name, t))
    ensures Between(TupleLine(name, t), "  ", "),") == Some(name + "(" + t)
    ensures SplitAtFirst(name + "(" + t, "(") == Some((name, t))
  {
    var line := TupleLine(name, t);
    BetweenMissSuffix(line, RenamePrefix, RenameSuffix, 0);
    var body := name + "(" + t;
    assert line == "  " + body + "),";
    BetweenRoundTrip("  ", body, "),");
    SplitAtFirstRoundTrip(name, "(", t);
  }

  /** A variant's lines read back as the variant, whatever follows them. */
  lemma ReadVariantRoundTrip(v: EnumVariant, rest: seq<string>)
    requires Ident(v.name)
    ensures ReadVariant(VariantLines(v) + rest) == Some((v, |VariantLines(v)|))
  {
    var ls := VariantLines(v) + rest;
    match v
    case Tuple(name, t) =>
      TupleLineRoundTrip(name, t);
    case Unit(name, oldName) =>
      UnitLineRoundTrip(name);
      if name != oldName {
        BetweenRoundTrip(RenamePrefix, oldName, RenameSuffix);
        assert ls[0] == RenameLine(oldName) && ls[1] == UnitLine(name);
      } else {
        assert ls[0] == UnitLine(name);
      }
  }

  lemma VariantLinesShape(v: EnumVariant)
    ensures |VariantLines(v)| > 0 && VariantLines(v)[0] != "}"
  {
    assert |VariantLines(v)[0]| > 1;
  }

  lemma {:induction false} ReadVariantsRoundTrip(vs: seq<EnumVariant>, rest: seq<string>)
    requires forall i :: 0 <= i < |vs| ==> Ident(vs[i].name)
    ensures ReadVariants(VariantsLines(vs) + ["}"] + rest) == Some((vs, |VariantsLines(vs)|))
    decreases |vs|
  {
    var ls := VariantsLines(vs) + ["}"] + rest;
    if |vs| > 0 {
      var v := vs[0];
      var after := VariantsLines(vs[1..]) + ["}"] + rest;
      assert ls == VariantLines(v) + after;
      VariantLinesShape(v);
      ReadVariantRoundTrip(v, after);
      assert ls[|VariantLines(v)|..] == after;
      ReadVariantsRoundTrip(vs[1..], rest);
      assert [v] + vs[1..] == vs;
    }
  }

  /** An enum's lines read back as the enum. */
  lemma ReadEnumRoundTrip(e: Enum)
    requires forall i :: 0 <= i < |e.variants| ==> Ident(e.variants[i].name)
    ensures ReadEnum(EnumLines(e)) == Some(e)
  {
    var ls := EnumLines(e);
    BetweenRoundTrip("pub enum ", e.name, " {");
    assert ls[1..] == VariantsLines(e.variants) + ["}"] + [];
    ReadVariantsRoundTrip(e.variants, []);
  }

  /** A unit variant carries a rename attribute exactly when its two names
      differ. */
  lemma VariantRenameIff(v: EnumVariant)
    ensures IsRenameLine(VariantLines(v)[0]) <==> v.Unit? && v.name != v.oldName
  {
    match v
    case Tuple(name, t) =>
      BetweenMissSuffix(TupleLine(name, t), RenamePrefix, RenameSuffix, 0);
    case Unit(name, oldName) =>
      if name != oldName {
        BetweenRoundTrip(RenamePrefix, oldName, RenameSuffix);
      } else {
        BetweenMissSuffix(UnitLine(name), RenamePrefix, RenameSuffix, 0);
      }
  }

  // ---------------------------------------------------------------------
  // From text to lines

  /** The lines of a text, each taken up to its newline; a last piece
      without one is a line too. */
  function SplitLines(text: string): seq<string>
    decreases |text|
  {
    if |text| == 0 then []
    else
      var i := FirstIndex(text, '\n');
      if i == |text| then [text] else [text[..i]] + SplitLines(text[i + 1..])
  }

  predicate NoNewlines(ls: seq<string>)
  {
    forall k :: 0 <= k < |ls| ==> Lacks(ls[k], '\n')
  }

  /** Splitting a text whose first line has no newline. */
  lemma SplitLinesCons(line: string, rest: string)
    requires Lacks(line, '\n')
    ensures SplitLines(line + "\n" + rest) == [line] + SplitLines(rest)
  {
    var t := line + "\n" + rest;
    FirstIndexAt(line, '\n', rest);
    assert t[..|line|] == line;
    assert t[|line| + 1..] == rest;
  }

  /** Lines without newlines are recovered from their text. */
  lemma {:induction false} SplitLinesRoundTrip(ls: seq<string>)
    requires NoNewlines(ls)
    ensures SplitLines(Lines(ls)) == ls
    decreases |ls|
  {
    if |ls| > 0 {
      SplitLinesCons(ls[0], Lines(ls[1..]));
      SplitLinesRoundTrip(ls[1..]);
      assert ls == [ls[0]] + ls[1..];
    }
  }

  lemma LacksConcat(a: string, b: string, c: char)
    requires Lacks(a, c) && Lacks(b, c)
    ensures Lacks(a + b, c)
  {
  }

  lemma NoNewlinesConcat(a: seq<string>, b: seq<string>)
    requires NoNewlines(a) && NoNewlines(b)
    ensures NoNewlines(a + b)
  {
  }

  /** A line made of three newline-free pieces has none. */
  lemma LacksNewline3(a: string, b: string, c: string)
    requires Lacks(a, '\n') && Lacks(b, '\n') && Lacks(c, '\n')
    ensures Lacks(a + b + c, '\n')
  {
    LacksConcat(a, b, '\n');
    LacksConcat(a + b, c, '\n');
  }

  /** No name or type of the field holds a newline. */
  predicate FieldOneLine(f: StructField)
  {
    Lacks(f.name, '\n') && Lacks(f.oldName, '\n') && Lacks(f.fieldType, '\n')
  }

  predicate StructOneLine(s: Struct)
  {
    Lacks(s.name, '\n') && forall i :: 0 <= i < |s.fields| ==> FieldOneLine(s.fields[i])
  }

  lemma PubLineOneLine(name: string, t: string)
    requires Lacks(name, '\n') && Lacks(t, '\n')
    ensures Lacks(PubLine(name, t), '\n')
  {
    assert Lacks(PubPrefix, '\n') && Lacks(": ", '\n') && Lacks(",", '\n');
    LacksNewline3(PubPrefix, name, ": ");
    LacksNewline3(PubPrefix + name + ": ", t, ",");
  }

  lemma FieldLinesOneLine(f: StructField)
    requires FieldOneLine(f)
    ensures NoNewlines(FieldLines(f))
  {
    assert Lacks(RenamePrefix, '\n') && Lacks(RenameSuffix, '\n') && Lacks(DefaultLine, '\n');
    LacksNewline3(RenamePrefix, f.oldName, RenameSuffix);
    assert Lacks("Box<", '\n') && Lacks(">", '\n') && Lacks("Option<", '\n');
    LacksNewline3("Box<", f.fieldType, ">");
    LacksNewline3("Option<", BoxedType(f), ">");
    PubLineOneLine(f.name, BoxedType(f));
    PubLineOneLine(f.name, "Option<" + BoxedType(f) + ">");
  }

  lemma {:induction false} FieldsLinesOneLine(fs: seq<StructField>)
    requires forall i :: 0 <= i < |fs| ==> FieldOneLine(fs[i])
    ensures NoNewlines(FieldsLines(fs))
    decreases |fs|
  {
    if |fs| > 0 {
      FieldLinesOneLine(fs[0]);
      FieldsLinesOneLine(fs[1..]);
      NoNewlinesConcat(FieldLines(fs[0]), FieldsLines(fs[1..]));
    }
  }

  lemma StructLinesOneLine(s: Struct)
    requires StructOneLine(s)
    ensures NoNewlines(StructLines(s))
  {
    var deny: seq<string> := if !s.additionalFields then [DenyLine] else [];
    assert Lacks(DenyLine, '\n') && Lacks("pub struct ", '\n') && Lacks(" {", '\n') && Lacks("}", '\n');
    LacksNewline3("pub struct ", s.name, " {");
    FieldsLinesOneLine(s.fields);
    NoNewlinesConcat(deny, [StructHeader(s.name)]);
    NoNewlinesConcat(deny + [StructHeader(s.name)], FieldsLines(s.fields));
    NoNewlinesConcat(deny + [StructHeader(s.name)] + FieldsLines(s.fields), ["}"]);
  }

  /** A struct's `Display` text, split at its newlines, reads back as its
      name, its fields in order and its additional_fields flag. */
  lemma ReadStructText(s: Struct)
    requires StructOneLine(s)
    requires forall i :: 0 <= i < |s.fields| ==> Plain(s.fields[i])
    ensures ReadStruct(SplitLines(ShowStruct(s))) == Some(StructView(s.name, Views(s.fields), s.additionalFields))
  {
    StructText(s);
    StructLinesOneLine(s);
    SplitLinesRoundTrip(StructLines(s));
    ReadStructRoundTrip(s);
  }

  /** No name or type of the variant holds a newline. */
  predicate VariantOneLine(v: EnumVariant)
  {
    match v
    case Unit(name, oldName) => Lacks(name, '\n') && Lacks(oldName, '\n')
    case Tuple(name, t) => Lacks(name, '\n') && Lacks(t, '\n')
  }

  predicate EnumOneLine(e: Enum)
  {
    Lacks(e.name, '\n') && forall i :: 0 <= i < |e.variants| ==> VariantOneLine(e.variants[i])
  }

  lemma VariantLinesOneLine(v: EnumVariant)
    requires VariantOneLine(v)
    ensures NoNewlines(VariantLines(v))
  {
    assert Lacks("  ", '\n') && Lacks(",", '\n') && Lacks("(", '\n') && Lacks("),", '\n');
    match v
    case Unit(name, oldName) =>
      assert Lacks(RenamePrefix, '\n') && Lacks(RenameSuffix, '\n');
      LacksNewline3(RenamePrefix, oldName, RenameSuffix);
      LacksNewline3("  ", name, ",");
    case Tuple(name, t) =>
      LacksNewline3("  ", name, "(");
      LacksNewline3("  " + name + "(", t, "),");
  }

  lemma {:induction false} VariantsLinesOneLine(vs: seq<EnumVariant>)
    requires forall i :: 0 <= i < |vs| ==> VariantOneLine(vs[i])
    ensures NoNewlines(VariantsLines(vs))
    decreases |vs|
  {
    if |vs| > 0 {
      VariantLinesOneLine(vs[0]);
      VariantsLinesOneLine(vs[1..]);
      NoNewlinesConcat(VariantLines(vs[0]), VariantsLines(vs[1..]));
    }
  }

  lemma EnumLinesOneLine(e: Enum)
    requires EnumOneLine(e)
    ensures NoNewlines(EnumLines(e))
  {
    assert Lacks("pub enum ", '\n') && Lacks(" {", '\n') && Lacks("}", '\n');
    LacksNewline3("pub enum ", e.name, " {");
    VariantsLinesOneLine(e.variants);
    NoNewlinesConcat([EnumHeader(e.name)], VariantsLines(e.variants));
    NoNewlinesConcat([EnumHeader(e.name)] + VariantsLines(e.variants), ["}"]);
  }

  /** An enum's `Display` text, split at its newlines, reads back as the
      same enum. */
  lemma ReadEnumText(e: Enum)
    requires EnumOneLine(e)
    requires forall i :: 0 <= i < |e.variants| ==> Ident(e.variants[i].name)
    ensures ReadEnum(SplitLines(ShowEnum(e))) == Some(e)
  {
    EnumText(e);
    EnumLinesOneLine(e);
    SplitLinesRoundTrip(EnumLines(e));
    ReadEnumRoundTrip(e);
  }

  lemma ShowOneField(f: StructField)
    ensures ShowFields([f]) == ShowField(f)
  {
    assert [f][1..] == [];
  }

  lemma ShowTwoFields(f: StructField, g: StructField)
    ensures ShowFields([f, g]) == ShowField(f) + ShowField(g)
  {
    assert [f, g][1..] == [g];
    ShowOneField(g);
  }

  /** A required, unboxed, unrenamed field prints as one `pub` line. */
  lemma RequiredFieldText(a: string, t: string)
    ensures ShowField(StructField(a, a, t, true, false, None)) == Lines([PubLine(a, t)])
  {
    assert FieldLines(StructField(a, a, t, true, false, None)) == [] + [PubLine(a, t)];
    assert [] + [PubLine(a, t)] == [PubLine(a, t)];
  }

  lemma LinesOfJoin(x: string, y: string)
    ensures Lines([x + "\n" + y]) == Lines([x]) + Lines([y])
  {
    assert [x][1..] == [] && [y][1..] == [] && [x + "\n" + y][1..] == [];
  }

  /** Two structs print alike when their fields do. */
  lemma SameFieldsText(n: string, af: bool, fs: seq<StructField>, gs: seq<StructField>)
    requires ShowFields(fs) == ShowFields(gs)
    ensures ShowStruct(Struct(n, fs, af)) == ShowStruct(Struct(n, gs, af))
  {
  }

  /** A newline in a field's type lets one field print as two. */
  lemma StructNewlineAmbiguous(n: string, af: bool, a: string, t: string, b: string, u: string)
    ensures var joined := StructField(a, a, t + "," + "\n" + PubPrefix + b + ": " + u, true, false, None);
      var first := StructField(a, a, t, true, false, None);
      var second := StructField(b, b, u, true, false, None);
      ShowStruct(Struct(n, [joined], af)) == ShowStruct(Struct(n, [first, second], af))
  {
    var joined := StructField(a, a, t + "," + "\n" + PubPrefix + b + ": " + u, true, false, None);
    var first := StructField(a, a, t, true, false, None);
    var second := StructField(b, b, u, true, false, None);
    var x := PubLine(a, t);
    var y := PubLine(b, u);
    assert PubLine(a, joined.fieldType) == x + "\n" + y;
    ShowOneField(joined);
    RequiredFieldText(a, joined.fieldType);
    ShowTwoFields(first, second);
    RequiredFieldText(a, t);
    RequiredFieldText(b, u);
    LinesOfJoin(x, y);
    SameFieldsText(n, af, [joined], [first, second]);
  }

  /** A newline in a tuple variant's type lets one variant print as two. */
  lemma EnumNewlineAmbiguous(n: string, x: string, t: string, y: string, u: string)
    ensures ShowEnum(Enum(n, [Tuple(x, t + ")," + "\n" + "  " + y + "(" + u)]))
      == ShowEnum(Enum(n, [Tuple(x, t), Tuple(y, u)]))
  {
    var joined := Tuple(x, t + ")," + "\n" + "  " + y + "(" + u);
    var p := TupleLine(x, t);
    var q := TupleLine(y, u);
    assert TupleLine(x, joined.typeName) == p + "\n" + q;
    assert ShowVariants([joined]) == Lines([p + "\n" + q]) by {
      assert [joined][1..] == [];
    }
    assert ShowVariants([Tuple(x, t), Tuple(y, u)]) == Lines([p]) + Lines([q]) by {
      assert [Tuple(x, t), Tuple(y, u)][1..] == [Tuple(y, u)];
      assert [Tuple(y, u)][1..] == [];
    }
    assert Lines([p]) + Lines([q]) == Lines([p + "\n" + q]) by {
      assert [p][1..] == [] && [q][1..] == [] && [p + "\n" + q][1..] == [];
    }
  }

  // ---------------------------------------------------------------------
  // Items

  predicate EndsWithNewline(s: string)
  {
    |s| > 0 && s[|s| - 1] == '\n'
  }

  lemma LinesEndWithNewline(ls: seq<string>)
    requires |ls| > 0
    ensures EndsWithNewline(Lines(ls))
  {
    var last := ls[|ls| - 1];
    LinesConcat(ls[..|ls| - 1], [last]);
    assert ls == ls[..|ls| - 1] + [last];
    assert Lines([last]) == last + "\n" + Lines([]);
  }

  /** Text ends the way its non-empty last part ends. */
  lemma EndsLikeLastPart(a: string, b: string)
    requires |b| > 0
    ensures EndsWithNewline(a + b) == EndsWithNewline(b)
  {
    assert (a + b)[|a + b| - 1] == b[|b| - 1];
  }

  lemma StructEndsWithNewline(s: Struct)
    ensures EndsWithNewline(ShowStruct(s))
  {
    StructText(s);
    LinesEndWithNewline(StructLines(s));
  }

  lemma EnumEndsWithNewline(e: Enum)
    ensures EndsWithNewline(ShowEnum(e))
  {
    EnumText(e);
    LinesEndWithNewline(EnumLines(e));
  }

  lemma StringValidatorEnding(field: string, c: StringValidator.Config)
    ensures !EndsWithNewline("String " + field + " " + DebugStringConfig(c))
  {
    EndsLikeLastPart("String " + field + " ", DebugStringConfig(c));
    EndsLikeLastPart("StringValidatorConfig { min_length: " + DebugCount(c.minLength)
      + ", max_length: " + DebugCount(c.maxLength), " }");
  }

  lemma NumericValidatorEnding(field: string, c: NumericValidator.Config, float: real -> string)
    ensures !EndsWithNewline("Numeric " + field + " " + DebugNumericConfig(c, float))
  {
    EndsLikeLastPart("Numeric " + field + " ", DebugNumericConfig(c, float));
    EndsLikeLastPart("NumericValidatorConfig { min: " + DebugBound(c.min, float)
      + ", exclusive_min: " + DebugBound(c.exclusiveMin, float)
      + ", max: " + DebugBound(c.max, float)
      + ", exclusive_max: " + DebugBound(c.exclusiveMax, float), " }");
  }

  /** Only the doc comment, the enum and the struct end their text with a
      newline; every other item is written without one. */
  lemma NewlineIff(item: RustItem, float: real -> string)
    ensures EndsWithNewline(ShowItem(item, float)) <==> item.DocComment? || item.EnumItem? || item.StructItem?
  {
    match item
    case DocComment(text) => LinesEndWithNewline(["/// " + text]);
    case EnumItem(e) => EnumEndsWithNewline(e);
    case StructItem(s) => StructEndsWithNewline(s);
    case DeriveCommon =>
    case DeriveNoSerde =>
    case SerdeUntagged =>
    case TypeAlias(alias, source) => EndsLikeLastPart("pub type " + alias + " = " + source, ";");
    case TupleStruct(name, t) => EndsLikeLastPart("pub struct " + name + " (" + t, ");");
    case UnitStruct(name) => EndsLikeLastPart("pub struct " + name, ";");
    case StringValidatorItem(field, c) => StringValidatorEnding(field, c);
    case NumericValidatorItem(field, c) => NumericValidatorEnding(field, c, float);
  }

  /** The alias and the aliased type of a `pub type` item. */
  function ReadAlias(text: string): Option<(string, string)>
  {
    match Between(text, "pub type ", ";")
    case None => None
    case Some(body) => SplitAtFirst(body, " = ")
  }

  lemma AliasRoundTrip(alias: string, source: string, float: real -> string)
    requires Lacks(alias, ' ')
    ensures ReadAlias(ShowItem(TypeAlias(alias, source), float)) == Some((alias, source))
  {
    var body := alias + " = " + source;
    assert ShowItem(TypeAlias(alias, source), float) == "pub type " + body + ";";
    BetweenRoundTrip("pub type ", body, ";");
    SplitAtFirstRoundTrip(alias, " = ", source);
  }

  /** The name and the wrapped type of a tuple struct item. */
  function ReadTupleStruct(text: string): Option<(string, string)>
  {
    match Between(text, "pub struct ", ");")
    case None => None
    case Some(body) => SplitAtFirst(body, " (")
  }

  lemma TupleStructRoundTrip(name: string, t: string, float: real -> string)
    requires Lacks(name, ' ')
    ensures ReadTupleStruct(ShowItem(TupleStruct(name, t), float)) == Some((name, t))
  {
    var body := name + " (" + t;
    assert ShowItem(TupleStruct(name, t), float) == "pub struct " + body + ");";
    BetweenRoundTrip("pub struct ", body, ");");
    SplitAtFirstRoundTrip(name, " (", t);
  }

  /** A unit struct names itself between `pub struct ` and `;`, and is
      never mistaken for a tuple struct. */
  lemma UnitStructRoundTrip(name: string, float: real -> string)
    requires Lacks(name, ')')
    ensures Between(ShowItem(UnitStruct(name), float), "pub struct ", ";") == Some(name)
    ensures ReadTupleStruct(ShowItem(UnitStruct(name), float)).None?
  {
    var text := ShowItem(UnitStruct(name), float);
    BetweenRoundTrip("pub struct ", name, ";");
    if |name| > 0 {
      assert text[|text| - 2] == name[|name| - 1];
    }
    BetweenMissSuffix(text, "pub struct ", ");", 1);
  }

  // ---------------------------------------------------------------------
  // Why the round trips carry premises: without them, two different
  // declarations render to the same text.

  /** A required field whose type is written `Option<T>` prints like an
      optional field of type `T`. */
  lemma OptionTypeAmbiguous(name: string, t: string)
    requires !StartsWith(t, "Vec")
    ensures var written := StructField(name, name, "Option<" + t + ">", true, false, None);
      var optional := StructField(name, name, t, false, false, None);
      View(written) != View(optional) && FieldLines(written) == FieldLines(optional)
  {
  }

  /** A required field whose type is written `Box<T>` prints like a boxed
      field of type `T`. */
  lemma BoxTypeAmbiguous(name: string, t: string)
    ensures var written := StructField(name, name, "Box<" + t + ">", true, false, None);
      var boxed := StructField(name, name, t, true, true, None);
      View(written) != View(boxed) && FieldLines(written) == FieldLines(boxed)
  {
  }

  /** A colon in a field's name moves the boundary between name and type. */
  lemma ColonNameAmbiguous(x: string, y: string, t: string)
    ensures var colon := StructField(x + ": " + y, x + ": " + y, t, true, false, None);
      var plain := StructField(x, x, y + ": " + t, true, false, None);
      View(colon) != View(plain) && FieldLines(colon) == FieldLines(plain)
  {
    assert PubLine(x + ": " + y, t) == PubPrefix + x + ": " + (y + ": " + t) + ",";
  }

  /** A parenthesis in a variant's name moves the boundary between name and
      type, or makes a unit variant print as a tuple variant. */
  lemma VariantTextAmbiguous(x: string, y: string, t: string)
    ensures VariantLines(Tuple(x + "(" + y, t)) == VariantLines(Tuple(x, y + "(" + t))
    ensures VariantLines(Unit(x + "(" + y + ")", x + "(" + y + ")")) == VariantLines(Tuple(x, y))
  {
    assert TupleLine(x + "(" + y, t) == "  " + x + "(" + (y + "(" + t) + "),";
    assert UnitLine(x + "(" + y + ")") == "  " + x + "(" + y + "),";
  }

  /** A ` = ` in an alias moves the boundary between alias and source. */
  lemma AliasTextAmbiguous(x: string, y: string, z: string, float: real -> string)
    ensures ShowItem(TypeAlias(x + " = " + y, z), float) == ShowItem(TypeAlias(x, y + " = " + z), float)
  {
    assert "pub type " + (x + " = " + y) + " = " + z == "pub type " + x + " = " + (y + " = " + z);
  }

  /** A ` (` in a tuple struct's name moves the boundary between name and
      wrapped type. */
  lemma TupleStructTextAmbiguous(x: string, y: string, z: string, float: real -> string)
    ensures ShowItem(TupleStruct(x + " (" + y, z), float) == ShowItem(TupleStruct(x, y + " (" + z), float)
  {
    assert "pub struct " + (x + " (" + y) + " (" + z == "pub struct " + x + " (" + (y + " (" + z);
  }

  /** A unit struct whose name ends in a parenthesised word prints as a
      tuple struct. */
  lemma UnitStructTextAmbiguous(x: string, y: string, float: real -> string)
    ensures ShowItem(UnitStruct(x + " (" + y + ")"), float) == ShowItem(TupleStruct(x, y), float)
  {
    assert "pub struct " + (x + " (" + y + ")") + ";" == "pub struct " + x + " (" + y + ");";
  }

  // ---------------------------------------------------------------------
  // String validator items

  /** The `Option<u32>` that `{:?}` printed, when it printed one. */
  function ReadCount(t: string): Option<Option<StringValidator.U32>>
  {
    if t == "None" then Some(None)
    else
      match Between(t, "Some(", ")")
      case None => None
      case Some(d) =>
        var v := DigitsValue(d);
        if 0 <= v < StringValidator.U32Modulus then Some(Some(v)) else None
  }

  const MinLengthPrefix: string := "StringValidatorConfig { min_length: "
  const MaxLengthSeparator: string := ", max_length: "

  /** The config that the derived `Debug` printed. */
  function ReadStringConfig(text: string): Option<StringValidator.Config>
  {
    match Between(text, MinLengthPrefix, " }")
    case None => None
    case Some(body) =>
      match SplitAtFirst(body, MaxLengthSeparator)
      case None => None
      case Some(parts) =>
        match (ReadCount(parts.0), ReadCount(parts.1))
        case (Some(lo), Some(hi)) => Some(StringValidator.Config(lo, hi))
        case _ => None
  }

  lemma ReadCountRoundTrip(n: Option<StringValidator.U32>)
    ensures ReadCount(DebugCount(n)) == Some(n)
  {
    match n
    case None =>
    case Some(v) =>
      var d := DecimalString(v);
      assert DebugCount(n) == "Some(" + d + ")";
      assert DebugCount(n)[0] != "None"[0];
      BetweenRoundTrip("Some(", d, ")");
      DecimalStringRoundTrip(v);
  }

  /** `{:?}` of an `Option<u32>` has no comma, so the config's two fields
      split apart at the first one. */
  lemma DebugCountLacksComma(n: Option<StringValidator.U32>)
    ensures Lacks(DebugCount(n), ',')
  {
    match n
    case None =>
    case Some(v) =>
      var d := DecimalString(v);
      var t := DebugCount(n);
      assert t == "Some(" + d + ")";
      forall k | 0 <= k < |t| ensures t[k] != ',' {
        if 5 <= k < 5 + |d| {
          assert t[k] == d[k - 5];
        }
      }
  }

  /** The `Debug` text of a string validator config gives the config back. */
  lemma ReadStringConfigRoundTrip(c: StringValidator.Config)
    ensures ReadStringConfig(DebugStringConfig(c)) == Some(c)
  {
    var lo := DebugCount(c.minLength);
    var hi := DebugCount(c.maxLength);
    var body := lo + MaxLengthSeparator + hi;
    assert DebugStringConfig(c) == MinLengthPrefix + body + " }";
    BetweenRoundTrip(MinLengthPrefix, body, " }");
    ReadCountRoundTrip(c.minLength);
    ReadCountRoundTrip(c.maxLength);
    DebugCountLacksComma(c.minLength);
    SplitAtFirstRoundTrip(lo, MaxLengthSeparator, hi);
  }

  /** Two string validator items for the same field print alike only when
      their bounds are the same. */
  lemma StringItemInjective(field: string, a: StringValidator.Config, b: StringValidator.Config, float: real -> string)
    requires ShowItem(StringValidatorItem(field, a), float) == ShowItem(StringValidatorItem(field, b), float)
    ensures a == b
  {
    var head := "String " + field + " ";
    assert ShowItem(StringValidatorItem(field, a), float) == head + DebugStringConfig(a);
    assert ShowItem(StringValidatorItem(field, b), float) == head + DebugStringConfig(b);
    assert DebugStringConfig(a) == (head + DebugStringConfig(a))[|head|..];
    assert DebugStringConfig(b) == (head + DebugStringConfig(b))[|head|..];
    ReadStringConfigRoundTrip(a);
    ReadStringConfigRoundTrip(b);
  }
}

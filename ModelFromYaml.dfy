/**
 * The note-type definition (`AnkiModelDefinition`): its template field-reference
 * scanner, the validators that accept or reject already-parsed definition data, and
 * the loader's classification of failures.
 */
module ModelFromYaml {
  import opened Wrappers
  import opened Strings

  // ---------------------------------------------------------------------------
  // Template field references: TEMPLATE_FIELD_RE = \{\{([#/^]?)([^}]+?)\}\}
  // ---------------------------------------------------------------------------

  /** The section marks the optional first group accepts. */
  predicate IsSectionMark(c: char)
  {
    c == '#' || c == '/' || c == '^'
  }

  /** A name group 2 can capture: at least one character, none of them `}`. */
  predicate RefName(n: string)
  {
    n != [] && forall k :: 0 <= k < |n| ==> n[k] != '}'
  }

  /** `{{name}}` or `{{<mark>name}}` starts at position `j` of `s`. */
  predicate RefOccursAt(s: string, n: string, j: int)
  {
    At(s, "{{" + n + "}}", j) ||
    (0 <= j && j + 2 < |s| && IsSectionMark(s[j + 2]) && At(s, "{{" + [s[j + 2]] + n + "}}", j))
  }

  /** `n` is referenced somewhere in `s`. */
  predicate Occurs(s: string, n: string)
  {
    exists j :: 0 <= j <= |s| && RefOccursAt(s, n, j)
  }

  /**
   * `([^}]+?)\}\}` tried at `p`: the lazy group stops at the first `}`, which must
   * be preceded by at least one character and followed by another `}`.
   */
  function NameFrom(s: string, p: nat): (r: Option<(string, nat)>)
    requires p <= |s|
    ensures r.Some? ==> RefName(r.value.0) && r.value.1 == p + |r.value.0| + 2 <= |s|
    ensures r.Some? ==> s[p..r.value.1] == r.value.0 + "}}"
  {
    FindCharSpec(s, '}', p);
    match FindChar(s, '}', p)
    case None => None
    case Some(e) =>
      if e > p && At(s, "}}", e) then
        assert s[p..e + 2] == s[p..e] + s[e..e + 2];
        Some((s[p..e], e + 2))
      else None
  }

  /**
   * The regex tried at position `i`. The optional mark is taken when a name can
   * follow it; otherwise the engine backtracks and the mark becomes the name's
   * first character (so `{{#}}` captures `#`).
   */
  function RefAt(s: string, i: nat): (r: Option<(string, nat)>)
    requires i <= |s|
    ensures r.Some? ==> RefName(r.value.0) && i + 4 <= r.value.1 <= |s| && RefOccursAt(s, r.value.0, i)
  {
    if !At(s, "{{", i) then None
    else if i + 2 < |s| && IsSectionMark(s[i + 2]) && NameFrom(s, i + 3).Some? then
      var r := NameFrom(s, i + 3);
      MarkedRefAt(s, i, r.value.0);
      r
    else
      var r := NameFrom(s, i + 2);
      if r.Some? then
        PlainRefAt(s, i, r.value.0);
        r
      else r
  }

  lemma PlainRefAt(s: string, i: nat, n: string)
    requires At(s, "{{", i) && At(s, n + "}}", i + 2)
    ensures At(s, "{{" + n + "}}", i)
  {
    AtConcat(s, "{{", n + "}}", i);
    ConcatAssoc("{{", n, "}}");
  }

  lemma MarkedRefAt(s: string, i: nat, n: string)
    requires At(s, "{{", i) && i + 2 < |s| && At(s, n + "}}", i + 3)
    ensures At(s, "{{" + [s[i + 2]] + n + "}}", i)
  {
    assert s[i + 2..i + 3] == [s[i + 2]];
    AtConcat(s, "{{", [s[i + 2]], i);
    AtConcat(s, "{{" + [s[i + 2]], n + "}}", i);
    ConcatAssoc("{{" + [s[i + 2]], n, "}}");
  }

  /** Group 2 of every match of `TEMPLATE_FIELD_RE.finditer(s[i..])`, in order. */
  function RefsFrom(s: string, i: nat): (r: seq<string>)
    requires i <= |s|
    ensures forall k :: 0 <= k < |r| ==> RefName(r[k]) && Occurs(s, r[k])
    decreases |s| - i
  {
    if i == |s| then []
    else match RefAt(s, i)
      case Some((n, e)) =>
        var rest := RefsFrom(s, e);
        assert RefOccursAt(s, n, i);
        assert forall k :: 1 <= k < |[n] + rest| ==> ([n] + rest)[k] == rest[k - 1];
        [n] + rest
      case None =>
        var rest := RefsFrom(s, i + 1);
        rest
  }

  function TemplateRefs(s: string): seq<string>
  {
    RefsFrom(s, 0)
  }

  /** A format string without `{{` references nothing. */
  lemma {:induction false} NoBracesNoRefs(s: string, i: nat)
    requires i <= |s|
    requires !Contains(s, "{{")
    ensures RefsFrom(s, i) == []
    decreases |s| - i
  {
    if i < |s| {
      assert !At(s, "{{", i);
      NoBracesNoRefs(s, i + 1);
    }
  }

  /**
   * A format string that is one reference: the name is captured exactly, with no
   * trimming (`{{ Q }}` gives ` Q `), and a leading mark is dropped unless it is
   * the whole name.
   */
  lemma SingleRef(n: string)
    requires RefName(n)
    ensures TemplateRefs("{{" + n + "}}") ==
              if |n| > 1 && IsSectionMark(n[0]) then [n[1..]] else [n]
  {
    var s := "{{" + n + "}}";
    assert At(s, "{{", 0);
    assert forall j :: 2 <= j < |s| - 2 ==> s[j] != '}';
    assert s[|s| - 2] == '}';
    assert At(s, "}}", |s| - 2);
    if |n| > 1 && IsSectionMark(n[0]) {
      FindCharFirst(s, '}', 3, |s| - 2);
      assert s[3..|s| - 2] == n[1..];
    } else {
      if 2 < |s| && IsSectionMark(s[2]) {
        FindCharFirst(s, '}', 3, 3);
      }
      FindCharFirst(s, '}', 2, |s| - 2);
      assert s[2..|s| - 2] == n;
    }
    assert RefsFrom(s, |s|) == [];
  }

  // ---------------------------------------------------------------------------
  // The definition and its validators
  // ---------------------------------------------------------------------------

  datatype Template = Template(name: string, qfmt: string, afmt: string)

  /** Python dict keys are distinct; the map keeps insertion order. */
  predicate DistinctKeys(m: seq<(string, string)>)
  {
    forall i, j :: 0 <= i < j < |m| ==> m[i].0 != m[j].0
  }

  /** `yaml_field_map`: an ordered dict from block key to field name. */
  type KeyMap = m: seq<(string, string)> | DistinctKeys(m)

  /** `yaml_field_map.get(key)`. */
  function Lookup(m: KeyMap, key: string): (r: Option<string>)
    ensures r.Some? <==> exists i :: 0 <= i < |m| && m[i].0 == key
    ensures r.Some? ==> exists i :: 0 <= i < |m| && m[i] == (key, r.value)
  {
    if m == [] then None
    else if m[0].0 == key then Some(m[0].1)
    else
      var r := Lookup(m[1..], key);
      assert forall i :: 1 <= i < |m| ==> m[i] == m[1..][i - 1];
      r
  }

  /** Every entry of the map is what looking up its key returns. */
  lemma LookupAt(m: KeyMap, i: nat)
    requires i < |m|
    ensures Lookup(m, m[i].0) == Some(m[i].1)
  {
    var r := Lookup(m, m[i].0);
    var j :| 0 <= j < |m| && m[j] == (m[i].0, r.value);
    assert j == i;
  }

  /** A key no entry has is not found. */
  lemma LookupAbsent(m: KeyMap, key: string)
    requires forall i :: 0 <= i < |m| ==> m[i].0 != key
    ensures Lookup(m, key) == None
  {
  }

  /** `set(yaml_field_map.values())`. */
  function MappedNames(m: KeyMap): set<string>
  {
    set i | 0 <= i < |m| :: m[i].1
  }

  /** The data a definition file parses to, before validation. */
  datatype RawDefinition = RawDefinition(
    id: int, name: string, fields: seq<string>, templates: seq<Template>,
    keyMap: Option<KeyMap>, css: string)

  /** A validated definition: the default key map, if any, has been filled in. */
  datatype Schema = Schema(
    id: int, name: string, fields: seq<string>, templates: seq<Template>,
    keyMap: KeyMap, css: string)

  /** The names the templates may use without declaring them. */
  const Builtins: set<string> := {"FrontSide", "Tags", "Type", "Deck", "Subdeck", "Card"}

  datatype ListField = FieldsList | TemplatesList
  datatype FieldError = NonPositiveId | EmptyList(which: ListField)
  datatype Side = Qfmt | Afmt

  datatype SchemaError =
    | FieldErrors(errors: seq<FieldError>)    // every failing field validator, in field order
    | UndefinedTemplateFields(template: string, side: Side, missing: set<string>)
    | NoDefaultMapping
    | UndefinedMappedFields(missing: set<string>)

  function FieldNames(fields: seq<string>): set<string>
  {
    set f | f in fields
  }

  /** Names a format string references that are neither built in nor declared. */
  function UndefinedRefs(fmt: string, declared: set<string>): set<string>
  {
    set n | n in TemplateRefs(fmt) && n !in Builtins && n !in declared
  }

  predicate TemplateOk(t: Template, declared: set<string>)
  {
    UndefinedRefs(t.qfmt, declared) == {} && UndefinedRefs(t.afmt, declared) == {}
  }

  /** `check_template_fields_exist`: the first template side using an undefined name. */
  function CheckTemplates(ts: seq<Template>, declared: set<string>): (r: Option<SchemaError>)
    ensures r.Some? ==> r.value.UndefinedTemplateFields?
  {
    if ts == [] then None
    else
      var t := ts[0];
      var q := UndefinedRefs(t.qfmt, declared);
      var a := UndefinedRefs(t.afmt, declared);
      if q != {} then Some(UndefinedTemplateFields(t.name, Qfmt, q))
      else if a != {} then Some(UndefinedTemplateFields(t.name, Afmt, a))
      else CheckTemplates(ts[1..], declared)
  }

  /** The check passes exactly when every template uses only declared or built-in names. */
  lemma {:induction false} CheckTemplatesPass(ts: seq<Template>, declared: set<string>)
    ensures CheckTemplates(ts, declared).None? <==> forall k :: 0 <= k < |ts| ==> TemplateOk(ts[k], declared)
  {
    if ts != [] && TemplateOk(ts[0], declared) {
      CheckTemplatesPass(ts[1..], declared);
      assert forall k :: 1 <= k < |ts| ==> ts[k] == ts[1..][k - 1];
    }
  }

  /**
   * A failure names the first template that uses an undefined name, and the side
   * checked first (`qfmt`) that does, with every undefined name of that side.
   */
  lemma {:induction false} CheckTemplatesFirst(ts: seq<Template>, declared: set<string>)
    ensures var r := CheckTemplates(ts, declared);
      r.Some? ==>
      && r.value.missing != {}
      && exists k :: 0 <= k < |ts| && ts[k].name == r.value.template &&
           (forall j :: 0 <= j < k ==> TemplateOk(ts[j], declared)) &&
           (if r.value.side == Qfmt then r.value.missing == UndefinedRefs(ts[k].qfmt, declared)
            else UndefinedRefs(ts[k].qfmt, declared) == {} &&
                 r.value.missing == UndefinedRefs(ts[k].afmt, declared))
  {
    if ts != [] && TemplateOk(ts[0], declared) {
      var r := CheckTemplates(ts[1..], declared);
      assert CheckTemplates(ts, declared) == r;
      CheckTemplatesFirst(ts[1..], declared);
      if r.Some? {
        var k :| 0 <= k < |ts[1..]| && ts[1..][k].name == r.value.template &&
           (forall j :: 0 <= j < k ==> TemplateOk(ts[1..][j], declared)) &&
           (if r.value.side == Qfmt then r.value.missing == UndefinedRefs(ts[1..][k].qfmt, declared)
            else UndefinedRefs(ts[1..][k].qfmt, declared) == {} &&
                 r.value.missing == UndefinedRefs(ts[1..][k].afmt, declared));
        assert ts[k + 1] == ts[1..][k];
        assert forall j :: 1 <= j < k + 1 ==> ts[j] == ts[1..][j - 1];
      }
    }
  }

  /** `next(f for f in names if f.lower() == target)`. */
  function FirstWithLower(names: seq<string>, target: string): (r: Option<string>)
    ensures r.Some? ==> r.value in names
  {
    if names == [] then None
    else if Lower(names[0]) == target then Some(names[0])
    else FirstWithLower(names[1..], target)
  }

  /** `names[k]` is the first name whose lower-cased form is the target. */
  predicate FirstLowerAt(names: seq<string>, target: string, k: int)
  {
    0 <= k < |names| && Lower(names[k]) == target && forall j :: 0 <= j < k ==> Lower(names[j]) != target
  }

  lemma FirstLowerAtShift(names: seq<string>, target: string, k: int)
    requires names != [] && Lower(names[0]) != target && FirstLowerAt(names[1..], target, k)
    ensures FirstLowerAt(names, target, k + 1)
  {
    assert forall j :: 1 <= j < k + 1 ==> names[j] == names[1..][j - 1];
  }

  /** The name found is the first whose lower-cased form is the target. */
  lemma {:induction false} FirstWithLowerFound(names: seq<string>, target: string)
    ensures var r := FirstWithLower(names, target);
      r.Some? ==> exists k :: FirstLowerAt(names, target, k) && names[k] == r.value
  {
    if names != [] {
      if Lower(names[0]) == target {
        assert FirstLowerAt(names, target, 0);
      } else {
        FirstWithLowerFound(names[1..], target);
        var r := FirstWithLower(names[1..], target);
        if r.Some? {
          var k :| FirstLowerAt(names[1..], target, k) && names[1..][k] == r.value;
          FirstLowerAtShift(names, target, k);
          assert names[k + 1] == r.value;
        }
      }
    }
  }

  /** Nothing is found exactly when no name lower-cases to the target. */
  lemma {:induction false} FirstWithLowerNone(names: seq<string>, target: string)
    ensures FirstWithLower(names, target).None? <==> forall k :: 0 <= k < |names| ==> Lower(names[k]) != target
  {
    if names != [] && Lower(names[0]) != target {
      FirstWithLowerNone(names[1..], target);
      assert forall k :: 1 <= k < |names| ==> names[k] == names[1..][k - 1];
    }
  }

  /** The map `set_default_yaml_field_map` synthesizes; None when it raises instead. */
  function DefaultKeyMap(fields: seq<string>): (r: Option<KeyMap>)
  {
    if |fields| < 2 then None
    else
      var base := [("q", fields[0]), ("a", fields[1])];
      match FirstWithLower(fields, "tags")
      case Some(t) => Some(base + [("tags", t)])
      case None => Some(base)
  }

  /** The synthesized map sends `q` and `a` to the first two fields and `tags` to the first field named so. */
  lemma DefaultKeyMapLookups(fields: seq<string>)
    requires |fields| >= 2
    ensures var m := DefaultKeyMap(fields).value;
      && Lookup(m, "q") == Some(fields[0])
      && Lookup(m, "a") == Some(fields[1])
      && Lookup(m, "tags") == FirstWithLower(fields, "tags")
  {
    var m := DefaultKeyMap(fields).value;
    LookupAt(m, 0);
    LookupAt(m, 1);
    match FirstWithLower(fields, "tags")
    case Some(t) =>
      LookupAt(m, 2);
    case None =>
      assert |m| == 2;
      LookupAbsent(m, "tags");
  }

  /** The synthesized map uses only the keys `q`, `a`, `tags`, and only declared fields. */
  lemma DefaultKeyMapNames(fields: seq<string>)
    requires |fields| >= 2
    ensures var m := DefaultKeyMap(fields).value;
      && (forall i :: 0 <= i < |m| ==> m[i].0 in {"q", "a", "tags"})
      && MappedNames(m) <= FieldNames(fields)
  {
    var m := DefaultKeyMap(fields).value;
    assert m[0] == ("q", fields[0]) && m[1] == ("a", fields[1]);
    match FirstWithLower(fields, "tags")
    case Some(t) =>
      assert m[2] == ("tags", t);
      assert forall k :: 0 <= k < |m| ==> m[k].1 in fields;
    case None =>
      assert |m| == 2;
      assert forall k :: 0 <= k < |m| ==> m[k].1 in fields;
  }

  lemma DefaultKeyMapSpec(fields: seq<string>)
    ensures DefaultKeyMap(fields).None? <==> |fields| < 2
    ensures DefaultKeyMap(fields).Some? ==>
      var m := DefaultKeyMap(fields).value;
      && Lookup(m, "q") == Some(fields[0])
      && Lookup(m, "a") == Some(fields[1])
      && Lookup(m, "tags") == FirstWithLower(fields, "tags")
      && (forall i :: 0 <= i < |m| ==> m[i].0 in {"q", "a", "tags"})
      && MappedNames(m) <= FieldNames(fields)
  {
    if |fields| >= 2 {
      DefaultKeyMapLookups(fields);
      DefaultKeyMapNames(fields);
    }
  }

  /** The field validators' errors, in the order the fields are declared. */
  function FieldErrorsOf(raw: RawDefinition): seq<FieldError>
  {
    (if raw.id <= 0 then [NonPositiveId] else []) +
    (if raw.fields == [] then [EmptyList(FieldsList)] else []) +
    (if raw.templates == [] then [EmptyList(TemplatesList)] else [])
  }

  /** The key map a validated definition ends up with, or None when none can be made. */
  function FinalKeyMap(raw: RawDefinition): Option<KeyMap>
  {
    if raw.keyMap.Some? then raw.keyMap else DefaultKeyMap(raw.fields)
  }

  /** Every invariant a validated definition satisfies. */
  predicate ValidSchema(s: Schema)
  {
    && s.id > 0
    && s.fields != []
    && s.templates != []
    && (forall k :: 0 <= k < |s.templates| ==> TemplateOk(s.templates[k], FieldNames(s.fields)))
    && MappedNames(s.keyMap) <= FieldNames(s.fields)
  }

  /**
   * `AnkiModelDefinition.model_validate`. The field validators run first and all
   * their errors are collected; only when none fails do the model validators run,
   * template check first, and the first to raise decides the error.
   */
  function Validate(raw: RawDefinition): (r: Result<Schema, SchemaError>)
    ensures r.Success? ==>
      && ValidSchema(r.value)
      && FinalKeyMap(raw).Some?
      && r.value == Schema(raw.id, raw.name, raw.fields, raw.templates, FinalKeyMap(raw).value, raw.css)
    ensures (r.Failure? && r.error.FieldErrors?) <==> (raw.id <= 0 || raw.fields == [] || raw.templates == [])
    ensures r.Failure? && r.error.FieldErrors? ==>
      && (NonPositiveId in r.error.errors <==> raw.id <= 0)
      && (EmptyList(FieldsList) in r.error.errors <==> raw.fields == [])
      && (EmptyList(TemplatesList) in r.error.errors <==> raw.templates == [])
    ensures (r.Failure? && r.error.UndefinedTemplateFields?) <==>
      && FieldErrorsOf(raw) == []
      && exists k :: 0 <= k < |raw.templates| && !TemplateOk(raw.templates[k], FieldNames(raw.fields))
    ensures (r.Failure? && r.error.NoDefaultMapping?) <==>
      && FieldErrorsOf(raw) == []
      && (forall k :: 0 <= k < |raw.templates| ==> TemplateOk(raw.templates[k], FieldNames(raw.fields)))
      && raw.keyMap.None? && |raw.fields| < 2
    ensures r.Failure? && r.error.UndefinedMappedFields? ==>
      && FinalKeyMap(raw).Some?
      && r.error.missing == MappedNames(FinalKeyMap(raw).value) - FieldNames(raw.fields)
      && r.error.missing != {}
  {
    var errs := FieldErrorsOf(raw);
    if errs != [] then Failure(FieldErrors(errs))
    else
      var declared := FieldNames(raw.fields);
      CheckTemplatesPass(raw.templates, declared);
      match CheckTemplates(raw.templates, declared)
      case Some(e) => Failure(e)
      case None =>
        match FinalKeyMap(raw)
        case None => Failure(NoDefaultMapping)
        case Some(m) =>
          var missing := MappedNames(m) - declared;
          if missing != {} then Failure(UndefinedMappedFields(missing))
          else
            assert forall n :: n in MappedNames(m) ==> n !in missing;
            Success(Schema(raw.id, raw.name, raw.fields, raw.templates, m, raw.css))
  }

  /** With no key map given, a validated definition carries the synthesized one. */
  lemma DefaultMapOnSuccess(raw: RawDefinition)
    requires raw.keyMap.None?
    requires Validate(raw).Success?
    ensures |raw.fields| >= 2
    ensures Lookup(Validate(raw).value.keyMap, "q") == Some(raw.fields[0])
    ensures Lookup(Validate(raw).value.keyMap, "a") == Some(raw.fields[1])
    ensures Lookup(Validate(raw).value.keyMap, "tags") == FirstWithLower(raw.fields, "tags")
  {
    DefaultKeyMapSpec(raw.fields);
  }

  /** An explicit key map is kept as given. */
  lemma ExplicitMapKept(raw: RawDefinition)
    requires raw.keyMap.Some?
    requires Validate(raw).Success?
    ensures Validate(raw).value.keyMap == raw.keyMap.value
  {
  }

  /** The synthesized map never trips the mapped-field check. */
  lemma DefaultMapAlwaysDeclared(raw: RawDefinition)
    requires raw.keyMap.None?
    ensures Validate(raw).Failure? ==> !Validate(raw).error.UndefinedMappedFields?
  {
    DefaultKeyMapSpec(raw.fields);
  }

  /** The data of a valid definition, with its key map explicit, validates to itself. */
  lemma ValidSchemaRoundTrip(s: Schema)
    requires ValidSchema(s)
    ensures Validate(RawDefinition(s.id, s.name, s.fields, s.templates, Some(s.keyMap), s.css)) == Success(s)
  {
    var raw := RawDefinition(s.id, s.name, s.fields, s.templates, Some(s.keyMap), s.css);
    assert FieldErrorsOf(raw) == [];
  }

  // ---------------------------------------------------------------------------
  // load_and_validate_model
  // ---------------------------------------------------------------------------

  /** What `yaml.safe_load` made of the file. */
  datatype YamlDocument =
    | YamlSyntaxError(detail: string)
    | Document(data: Option<RawDefinition>)   // None: data without the shape the definition requires

  /** The definition file: absent, or present with its parse result. */
  datatype ModelSource = Missing | Present(doc: YamlDocument)

  datatype LoadError =
    | FileNotFound                                              // FileNotFoundError
    | InvalidYaml(detail: string)                               // ValueError "Invalid YAML in model file ..."
    | InvalidModelDefinition(rejection: Option<SchemaError>)    // ValueError "Invalid model definition in ..."

  function LoadAndValidateModel(src: ModelSource): (r: Result<Schema, LoadError>)
    ensures src.Missing? <==> r == Failure(FileNotFound)
    ensures (r.Failure? && r.error.InvalidYaml?) <==> (src.Present? && src.doc.YamlSyntaxError?)
    ensures (r.Failure? && r.error.InvalidModelDefinition?) <==>
      (src.Present? && src.doc.Document? &&
       (src.doc.data.None? || Validate(src.doc.data.value).Failure?))
    ensures r.Failure? && r.error.InvalidModelDefinition? && r.error.rejection.Some? ==>
      src.doc.data.Some? && Validate(src.doc.data.value) == Failure(r.error.rejection.value)
    ensures r.Success? ==>
      && src.Present? && src.doc.Document? && src.doc.data.Some?
      && Validate(src.doc.data.value) == Success(r.value)
      && ValidSchema(r.value)
  {
    match src
    case Missing => Failure(FileNotFound)
    case Present(YamlSyntaxError(d)) => Failure(InvalidYaml(d))
    case Present(Document(None)) => Failure(InvalidModelDefinition(None))
    case Present(Document(Some(raw))) =>
      match Validate(raw)
      case Success(s) => Success(s)
      case Failure(e) => Failure(InvalidModelDefinition(Some(e)))
  }
}

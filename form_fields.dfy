/** Field extraction: how the uploader turns the controls of a form into the flat,
    ordered list of records `{isFile, name, value, fileName}` it later encodes.

    A control is a tagged union over the element kinds the uploader dispatches on
    (`"_" + nodeName.toLowerCase() + "Field"`). `Other` stands for every element
    with no such handler: a fieldset (skipped by name) and elements such as
    textarea, output or object, whose handler lookup yields `undefined`. */
module FormFields {
  import opened Wrappers
  import opened Text

  /** A file chosen in a file input: its name on the user's disk and its
      contents as `getAsBinary()` returns them. */
  datatype FileEntry = FileEntry(fileName: string, contents: string)

  /** An `<option>` of a select element. */
  datatype SelectOption = SelectOption(value: string, selected: bool, disabled: bool)

  datatype Control =
    | Button(name: string, value: string, disabled: bool)
    | Input(name: string, inputType: string, value: string, checked: bool,
            files: seq<FileEntry>, disabled: bool)
    | Select(name: string, multiple: bool, value: string,
             options: seq<SelectOption>, disabled: bool)
    | Other(nodeName: string, disabled: bool)

  /** The record handed to the encoder; `fileName` is `null` for a non-file field. */
  datatype Field = Field(isFile: bool, name: string, value: string, fileName: Option<string>)

  /** What a handler returns: its records, or the `Uploader.InvalidField` signal. */
  datatype Extraction = Extracted(fields: seq<Field>) | InvalidField

  /** What the `elements` getter ends with: the collected records, or the
      TypeError raised when the looked-up `handler` does not exist. */
  datatype Outcome = Fields(fields: seq<Field>) | TypeError(handler: string)

  /** The invariant the encoder relies on: a record carries a file name exactly
      when it stands for a file. */
  predicate WellFormed(f: Field) {
    f.isFile <==> f.fileName.Some?
  }

  /** The DOM `nodeName` of a control (upper case for HTML elements). */
  function NodeName(c: Control): string {
    match c
    case Button(_, _, _) => "BUTTON"
    case Input(_, _, _, _, _, _) => "INPUT"
    case Select(_, _, _, _, _) => "SELECT"
    case Other(n, _) => n
  }

  /** `nodeName.toLowerCase()`, the key the handler is looked up by. */
  function NodeKind(c: Control): string {
    Lower(NodeName(c))
  }

  // ---------------------------------------------------------------- _filter

  /** `_filter`, as written: the upper-cased node name is compared with the
      lower-case literal "fieldset", and disabled controls are dropped. */
  predicate Participates(c: Control) {
    Upper(NodeName(c)) != "fieldset" && !c.disabled
  }

  /** The node-name test of `_filter` never excludes anything: only disabled
      controls are filtered out (fieldsets are skipped later, by the getter). */
  lemma FilterExcludesOnlyDisabled(c: Control)
    ensures Participates(c) <==> !c.disabled
  {
    if NodeName(c) != [] {
      UpperHasNoLowercase(NodeName(c), 0);
    }
  }

  /** `elements.filter(this._filter)`. */
  function Participating(cs: seq<Control>): seq<Control>
  {
    if cs == [] then []
    else (if Participates(cs[0]) then [cs[0]] else []) + Participating(cs[1..])
  }

  lemma {:induction false} ParticipatingAppend(a: seq<Control>, b: seq<Control>)
    ensures Participating(a + b) == Participating(a) + Participating(b)
    decreases |a|
  {
    if a != [] {
      assert (a + b)[1..] == a[1..] + b;
      ParticipatingAppend(a[1..], b);
    } else {
      assert a + b == b;
    }
  }

  // ---------------------------------------------------------------- handlers

  /** `_buttonField`: a button contributes its value only when the value is
      non-empty (truthy). */
  function ButtonField(b: Control): (r: Extraction)
    requires b.Button?
    ensures r.Extracted? <==> b.value != ""
    ensures r.Extracted? ==> r.fields == [Field(false, b.name, b.value, None)]
  {
    if b.value != "" then Extracted([Field(false, b.name, b.value, None)])
    else InvalidField
  }

  predicate IsCheckable(inputType: string) {
    var t := Upper(inputType);
    t == "CHECKBOX" || t == "RADIO"
  }

  predicate IsTextLike(inputType: string) {
    var t := Upper(inputType);
    t == "TEXT" || t == "SUBMIT" || t == "PASSWORD"
  }

  predicate IsFileInput(inputType: string) {
    Upper(inputType) == "FILE"
  }

  /** `files.map(...)` in the file branch of `_inputField`. */
  function FileFields(name: string, files: seq<FileEntry>): (r: seq<Field>)
    ensures |r| == |files|
    ensures forall k :: 0 <= k < |r| ==>
      r[k] == Field(true, name, files[k].contents, Some(files[k].fileName))
  {
    if files == [] then []
    else [Field(true, name, files[0].contents, Some(files[0].fileName))]
         + FileFields(name, files[1..])
  }

  /** `_inputField`: dispatch on the upper-cased `type` attribute. */
  function InputField(c: Control): (r: Extraction)
    requires c.Input?
    ensures r.InvalidField? <==>
      (IsCheckable(c.inputType) && !c.checked)
      || (IsFileInput(c.inputType) && |c.files| == 0)
      || !(IsCheckable(c.inputType) || IsTextLike(c.inputType) || IsFileInput(c.inputType))
    ensures r.Extracted? && !IsFileInput(c.inputType) ==>
      r.fields == [Field(false, c.name, c.value, None)]
    ensures r.Extracted? && IsFileInput(c.inputType) ==>
      |r.fields| == |c.files| > 0
      && forall k :: 0 <= k < |c.files| ==>
           r.fields[k] == Field(true, c.name, c.files[k].contents, Some(c.files[k].fileName))
  {
    var t := Upper(c.inputType);
    if t == "CHECKBOX" || t == "RADIO" then
      if c.checked then Extracted([Field(false, c.name, c.value, None)]) else InvalidField
    else if t == "TEXT" || t == "SUBMIT" || t == "PASSWORD" then
      Extracted([Field(false, c.name, c.value, None)])
    else if t == "FILE" then
      if |c.files| > 0 then Extracted(FileFields(c.name, c.files)) else InvalidField
    else
      InvalidField
  }

  /** The type attribute is compared after upper-casing, so its letter case
      never matters. */
  lemma InputTypeCaseInsensitive(c: Control)
    requires c.Input?
    ensures InputField(c.(inputType := Upper(c.inputType))) == InputField(c)
  {
    UpperIdempotent(c.inputType);
  }

  /** The options of a multiple select that are submitted: selected and not
      disabled, in option order. */
  function Submitted(options: seq<SelectOption>): seq<SelectOption>
  {
    if options == [] then []
    else (if options[0].selected && !options[0].disabled then [options[0]] else [])
         + Submitted(options[1..])
  }

  lemma {:induction false} SubmittedAppend(a: seq<SelectOption>, b: seq<SelectOption>)
    ensures Submitted(a + b) == Submitted(a) + Submitted(b)
    decreases |a|
  {
    if a != [] {
      assert (a + b)[1..] == a[1..] + b;
      SubmittedAppend(a[1..], b);
    } else {
      assert a + b == b;
    }
  }

  /** An option is submitted exactly when it is one of the options, selected
      and not disabled; there are never more submitted options than options. */
  lemma {:induction false} SubmittedMembers(options: seq<SelectOption>, o: SelectOption)
    ensures o in Submitted(options) <==> o in options && o.selected && !o.disabled
    ensures |Submitted(options)| <= |options|
    decreases |options|
  {
    if options != [] {
      SubmittedMembers(options[1..], o);
      assert options == [options[0]] + options[1..];
    }
  }

  /** One non-file record per submitted option, named after the select. */
  function OptionFields(name: string, options: seq<SelectOption>): seq<Field>
  {
    seq(|options|, k requires 0 <= k < |options| => Field(false, name, options[k].value, None))
  }

  /** What `_selectField` returns. */
  function SelectFields(s: Control): seq<Field>
    requires s.Select?
  {
    if s.multiple then OptionFields(s.name, Submitted(s.options))
    else [Field(false, s.name, s.value, None)]
  }

  /** `_selectField`: a single select yields its `value`; a multiple select
      pushes one record per selected, enabled option, possibly none. */
  method SelectField(s: Control) returns (fields: seq<Field>)
    requires s.Select?
    ensures fields == SelectFields(s)
  {
    fields := [];
    if s.multiple {
      var options := s.options;
      for i := 0 to |options|
        invariant fields == OptionFields(s.name, Submitted(options[..i]))
      {
        var option := options[i];
        if option.selected && !option.disabled {
          fields := fields + [Field(false, s.name, option.value, None)];
        }
        assert options[..i + 1] == options[..i] + [option];
        SubmittedAppend(options[..i], [option]);
      }
      assert options[..|options|] == options;
    } else {
      fields := fields + [Field(false, s.name, s.value, None)];
    }
  }

  /** The handler a control is dispatched to; only `Other` has none. */
  function Extract(c: Control): Extraction
    requires !c.Other?
  {
    match c
    case Button(_, _, _) => ButtonField(c)
    case Input(_, _, _, _, _, _) => InputField(c)
    case Select(_, _, _, _, _) => Extracted(SelectFields(c))
  }

  /** Every record a handler produces is well formed and carries the control's name. */
  lemma ExtractWellFormed(c: Control)
    requires !c.Other?
    ensures Extract(c).Extracted? ==>
      forall f :: f in Extract(c).fields ==> WellFormed(f) && f.name == c.name
  {
    if c.Input? && Extract(c).Extracted? && IsFileInput(c.inputType) {
      var fs := Extract(c).fields;
      forall f | f in fs
        ensures WellFormed(f) && f.name == c.name
      {
        var k :| 0 <= k < |fs| && fs[k] == f;
      }
    }
  }

  // ------------------------------------------------------------- aggregate

  /** `fields.concat(...)` in front of whatever the rest of the pass yields. */
  function Prepend(fs: seq<Field>, o: Outcome): Outcome
  {
    match o
    case Fields(rest) => Fields(fs + rest)
    case TypeError(_) => o
  }

  lemma PrependPrepend(a: seq<Field>, b: seq<Field>, o: Outcome)
    ensures Prepend(a, Prepend(b, o)) == Prepend(a + b, o)
  {
    if o.Fields? {
      assert a + (b + o.fields) == (a + b) + o.fields;
    }
  }

  /** Running one pass after another: an abort in the first stops everything. */
  function Then(first: Outcome, second: Outcome): Outcome
  {
    match first
    case Fields(fs) => Prepend(fs, second)
    case TypeError(_) => first
  }

  /** The `forEach` of the `elements` getter over the filtered controls. */
  function Collect(cs: seq<Control>): Outcome
  {
    if cs == [] then Fields([])
    else if NodeKind(cs[0]) == "fieldset" then Collect(cs[1..])
    else if cs[0].Other? then TypeError("_" + NodeKind(cs[0]) + "Field")
    else match Extract(cs[0])
      case InvalidField => Collect(cs[1..])
      case Extracted(fs) => Prepend(fs, Collect(cs[1..]))
  }

  /** The value of the `elements` getter for a form with these controls. */
  function AllFields(form: seq<Control>): Outcome
  {
    Collect(Participating(form))
  }

  /** What the control at position `i` adds to the records after it. */
  lemma CollectAt(cs: seq<Control>, i: int)
    requires 0 <= i < |cs|
    ensures NodeKind(cs[i]) == "fieldset" ==> Collect(cs[i..]) == Collect(cs[i + 1..])
    ensures NodeKind(cs[i]) != "fieldset" && cs[i].Other? ==>
      Collect(cs[i..]) == TypeError("_" + NodeKind(cs[i]) + "Field")
    ensures NodeKind(cs[i]) != "fieldset" && !cs[i].Other? ==>
      Collect(cs[i..]) == Prepend(if Extract(cs[i]).Extracted? then Extract(cs[i]).fields else [],
                                  Collect(cs[i + 1..]))
  {
    assert cs[i..][0] == cs[i] && cs[i..][1..] == cs[i + 1..];
    if NodeKind(cs[i]) != "fieldset" && !cs[i].Other? && Extract(cs[i]).InvalidField? {
      var r := Collect(cs[i + 1..]);
      if r.Fields? {
        assert [] + r.fields == r.fields;
      }
    }
  }

  /** The `elements` getter: filter, then concatenate each control's records,
      dropping a control that signals InvalidField; a control without a
      handler raises a TypeError that the `InvalidField` catch lets through. */
  method Elements(form: seq<Control>) returns (r: Outcome)
    ensures r == AllFields(form)
  {
    var fields: seq<Field> := [];
    var elements := Participating(form);
    var i := 0;
    while i < |elements|
      invariant 0 <= i <= |elements|
      invariant Collect(elements) == Prepend(fields, Collect(elements[i..]))
    {
      var element := elements[i];
      var kind := Lower(NodeName(element));
      CollectAt(elements, i);
      ghost var rest := Collect(elements[i + 1..]);
      if kind != "fieldset" {
        var contribution: seq<Field>;
        match element {
          case Other(_, _) =>
            return TypeError("_" + kind + "Field");
          case Button(_, _, _) =>
            var e := ButtonField(element);
            contribution := if e.Extracted? then e.fields else [];
          case Input(_, _, _, _, _, _) =>
            var e := InputField(element);
            contribution := if e.Extracted? then e.fields else [];
          case Select(_, _, _, _, _) =>
            contribution := SelectField(element);
        }
        PrependPrepend(fields, contribution, rest);
        fields := fields + contribution;
      }
      i := i + 1;
    }
    assert elements[i..] == [];
    r := Fields(fields);
  }

  // ------------------------------------------------------ aggregate lemmas

  lemma ThenPrepend(fs: seq<Field>, x: Outcome, y: Outcome)
    ensures Then(Prepend(fs, x), y) == Prepend(fs, Then(x, y))
  {
    if x.Fields? {
      PrependPrepend(fs, x.fields, y);
    }
  }

  lemma {:induction false} CollectAppend(a: seq<Control>, b: seq<Control>)
    ensures Collect(a + b) == Then(Collect(a), Collect(b))
    decreases |a|
  {
    if a == [] {
      assert a + b == b;
      if Collect(b).Fields? {
        assert [] + Collect(b).fields == Collect(b).fields;
      }
    } else {
      assert (a + b)[0] == a[0] && (a + b)[1..] == a[1..] + b;
      CollectAppend(a[1..], b);
      if NodeKind(a[0]) != "fieldset" && !a[0].Other? && Extract(a[0]).Extracted? {
        ThenPrepend(Extract(a[0]).fields, Collect(a[1..]), Collect(b));
      }
    }
  }

  /** The pass over a form is the pass over its first controls followed by the
      pass over the rest: records keep the controls' order, and an abort in
      the first part stops the pass. */
  lemma AllFieldsAppend(a: seq<Control>, b: seq<Control>)
    ensures AllFields(a + b) == Then(AllFields(a), AllFields(b))
  {
    ParticipatingAppend(a, b);
    CollectAppend(Participating(a), Participating(b));
  }

  /** What a single control contributes to the pass. */
  lemma SingleControl(c: Control)
    ensures c.disabled || NodeKind(c) == "fieldset" ==> AllFields([c]) == Fields([])
    ensures !c.disabled && NodeKind(c) != "fieldset" && c.Other? ==>
      AllFields([c]) == TypeError("_" + NodeKind(c) + "Field")
    ensures !c.disabled && !c.Other? ==>
      AllFields([c]) == Fields(if Extract(c).Extracted? then Extract(c).fields else [])
  {
    FilterExcludesOnlyDisabled(c);
    assert [c][1..] == [];
    assert Participating([c]) == (if c.disabled then [] else [c]) + Participating([]);
    if !c.disabled {
      assert Participating([c]) == [c];
      assert Collect([c][1..]) == Fields([]);
      if !c.Other? {
        assert |NodeKind(c)| == |NodeName(c)| < 8;
        if Extract(c).Extracted? {
          assert Extract(c).fields + [] == Extract(c).fields;
        }
      }
    }
  }

  /** A control that is disabled, a fieldset, or signals InvalidField
      contributes nothing and leaves every other control's records as they are. */
  lemma Skipped(a: seq<Control>, c: Control, b: seq<Control>)
    requires c.disabled || NodeKind(c) == "fieldset" || (!c.Other? && Extract(c).InvalidField?)
    ensures AllFields(a + [c] + b) == AllFields(a + b)
  {
    AllFieldsAppend(a + [c], b);
    AllFieldsAppend(a, [c]);
    AllFieldsAppend(a, b);
    SingleControl(c);
    if AllFields(a).Fields? {
      assert AllFields(a).fields + [] == AllFields(a).fields;
    }
  }

  /** A control whose handler succeeds puts its records, in their own order,
      between those of the controls before it and those of the controls after it. */
  lemma Kept(a: seq<Control>, c: Control, b: seq<Control>)
    requires !c.disabled && !c.Other? && Extract(c).Extracted?
    ensures AllFields(a + [c] + b) == Then(AllFields(a), Prepend(Extract(c).fields, AllFields(b)))
  {
    AllFieldsAppend(a + [c], b);
    AllFieldsAppend(a, [c]);
    SingleControl(c);
    if AllFields(a).Fields? {
      PrependPrepend(AllFields(a).fields, Extract(c).fields, AllFields(b));
    }
  }

  /** A participating control with no handler: the only thing that aborts the pass. */
  predicate Aborts(c: Control) {
    !c.disabled && c.Other? && NodeKind(c) != "fieldset"
  }

  /** The pass fails exactly when some enabled control has no handler; an
      InvalidField signal never makes it fail. */
  lemma {:induction false} AbortIff(cs: seq<Control>)
    ensures AllFields(cs).TypeError? <==> exists i :: 0 <= i < |cs| && Aborts(cs[i])
    decreases |cs|
  {
    if cs != [] {
      assert cs == [cs[0]] + cs[1..];
      AllFieldsAppend([cs[0]], cs[1..]);
      SingleControl(cs[0]);
      AbortIff(cs[1..]);
      if exists i :: 0 <= i < |cs| && Aborts(cs[i]) {
        var i :| 0 <= i < |cs| && Aborts(cs[i]);
        if i > 0 {
          assert Aborts(cs[1..][i - 1]);
        }
      }
      if exists i :: 0 <= i < |cs| - 1 && Aborts(cs[1..][i]) {
        var i :| 0 <= i < |cs| - 1 && Aborts(cs[1..][i]);
        assert Aborts(cs[i + 1]);
      }
    }
  }

  /** Every record the pass yields is well formed: `isFile` exactly when a
      file name is present. */
  lemma {:induction false} AllFieldsWellFormed(cs: seq<Control>)
    ensures AllFields(cs).Fields? ==> forall f :: f in AllFields(cs).fields ==> WellFormed(f)
    decreases |cs|
  {
    if cs != [] {
      assert cs == [cs[0]] + cs[1..];
      AllFieldsAppend([cs[0]], cs[1..]);
      SingleControl(cs[0]);
      AllFieldsWellFormed(cs[1..]);
      if !cs[0].Other? {
        ExtractWellFormed(cs[0]);
      }
    }
  }

  /** A form with an unchecked checkbox between a text input and a single
      select yields the other two records, in form order, and no error. */
  lemma InvalidControlBetweenValidOnes()
    ensures AllFields([Input("user", "text", "alice", false, [], false),
                       Input("remember", "checkbox", "yes", false, [], false),
                       Select("lang", false, "en", [], false)])
         == Fields([Field(false, "user", "alice", None), Field(false, "lang", "en", None)])
  {
    var user := Input("user", "text", "alice", false, [], false);
    var remember := Input("remember", "checkbox", "yes", false, [], false);
    var lang := Select("lang", false, "en", [], false);
    assert Upper("text") == "TEXT";
    assert Upper("checkbox") == "CHECKBOX";
    assert [user, remember, lang] == [user] + [remember] + [lang];
    Skipped([user], remember, [lang]);
    AllFieldsAppend([user], [lang]);
    SingleControl(user);
    SingleControl(lang);
  }
}

/**
 Submitted elicitation forms against the schema the agent advertised. Numbers are reals, integers
 64-bit; of an error message the kind and the field are kept.
 */
module ElicitationForms {
  import opened Collections

  datatype Value =
    | Text(text: string)
    | Number(number: real)
    | Integer(integer: int)
    | Boolean(bit: bool)
    | TextList(items: seq<string>)

  /** `choices` and `oneOf` are the two single-select lists, `allowed` the multi-select one; `Other` is a
      property type this build does not know. */
  datatype Property =
    | TextField(choices: Option<seq<string>>, oneOf: Option<seq<string>>, minLength: Option<nat>,
                maxLength: Option<nat>, textDefault: Option<string>)
    | NumberField(minimum: Option<real>, maximum: Option<real>, numberDefault: Option<real>)
    | IntegerField(least: Option<int>, greatest: Option<int>, integerDefault: Option<int>)
    | BooleanField(bitDefault: Option<bool>)
    | ListField(minItems: Option<nat>, maxItems: Option<nat>, allowed: Option<seq<string>>,
                listDefault: Option<seq<string>>)
    | Other

  datatype Schema = Schema(properties: map<string, Property>, required: set<string>)

  datatype FormError = MissingField(name: string) | InvalidValue(name: string) | UnknownField(name: string)

  const MIN_INTEGER: int := -0x8000_0000_0000_0000
  const MAX_INTEGER: int := 0x7FFF_FFFF_FFFF_FFFF

  predicate AtLeast(bound: Option<int>, n: int) {
    bound.None? || bound.value <= n
  }

  predicate AtMost(bound: Option<int>, n: int) {
    bound.None? || n <= bound.value
  }

  predicate InRange(minimum: Option<real>, maximum: Option<real>, n: real) {
    (minimum.None? || minimum.value <= n) && (maximum.None? || n <= maximum.value)
  }

  predicate LengthOk(least: Option<nat>, greatest: Option<nat>, n: nat) {
    (least.None? || least.value <= n) && (greatest.None? || n <= greatest.value)
  }

  predicate IsChoice(choices: Option<seq<string>>, text: string) {
    choices.None? || text in choices.value
  }

  /** A whole number in the range of the cast; the upper end of the range is one past the largest
      integer, and the cast saturates. */
  predicate CastsToInteger(f: real) {
    f.Floor as real == f && MIN_INTEGER as real <= f <= (MAX_INTEGER + 1) as real
  }

  function Cast(f: real): int {
    if f.Floor > MAX_INTEGER then MAX_INTEGER else f.Floor
  }

  /** The value to send back, when the submitted one fits its property. */
  function CheckValue(p: Property, v: Value): Option<Value> {
    match p
    case TextField(choices, oneOf, minLength, maxLength, _) =>
      if v.Text? && IsChoice(choices, v.text) && IsChoice(oneOf, v.text)
         && LengthOk(minLength, maxLength, |v.text|)
      then Some(v) else None
    case NumberField(minimum, maximum, _) =>
      if v.Number? && InRange(minimum, maximum, v.number) then Some(v)
      else if v.Integer? && InRange(minimum, maximum, v.integer as real) then Some(Number(v.integer as real))
      else None
    case IntegerField(least, greatest, _) =>
      if v.Integer? && AtLeast(least, v.integer) && AtMost(greatest, v.integer) then Some(v)
      else if v.Number? && CastsToInteger(v.number) && AtLeast(least, Cast(v.number))
              && AtMost(greatest, Cast(v.number))
      then Some(Integer(Cast(v.number)))
      else None
    case BooleanField(_) => if v.Boolean? then Some(v) else None
    case ListField(minItems, maxItems, allowed, _) =>
      if v.TextList? && LengthOk(minItems, maxItems, |v.items|)
         && (allowed.None? || forall item :: item in v.items ==> item in allowed.value)
      then Some(v) else None
    case Other => None
  }

  function DefaultOf(p: Property): Option<Value> {
    match p
    case TextField(_, _, _, _, d) => if d.Some? then Some(Text(d.value)) else None
    case NumberField(_, _, d) => if d.Some? then Some(Number(d.value)) else None
    case IntegerField(_, _, d) => if d.Some? then Some(Integer(d.value)) else None
    case BooleanField(d) => if d.Some? then Some(Boolean(d.value)) else None
    case ListField(_, _, _, d) => if d.Some? then Some(TextList(d.value)) else None
    case Other => None
  }

  /** Which values each kind of property takes, by its bounds, lengths and choices. */
  lemma AcceptedExactly(p: Property, v: Value)
    ensures p.TextField? ==> (CheckValue(p, v).Some? <==>
              && v.Text?
              && (p.choices.Some? ==> v.text in p.choices.value) && (p.oneOf.Some? ==> v.text in p.oneOf.value)
              && (p.minLength.Some? ==> |v.text| >= p.minLength.value)
              && (p.maxLength.Some? ==> |v.text| <= p.maxLength.value))
    ensures p.NumberField? ==> (CheckValue(p, v).Some? <==>
              && (v.Number? || v.Integer?)
              && var n := if v.Number? then v.number else v.integer as real;
              && (p.minimum.Some? ==> n >= p.minimum.value) && (p.maximum.Some? ==> n <= p.maximum.value))
    ensures p.IntegerField? ==> (CheckValue(p, v).Some? <==>
              exists n: int :: WholeNumber(v, n)
                && (p.least.Some? ==> n >= p.least.value) && (p.greatest.Some? ==> n <= p.greatest.value))
    ensures p.BooleanField? ==> (CheckValue(p, v).Some? <==> v.Boolean?)
    ensures p.ListField? ==> (CheckValue(p, v).Some? <==>
              && v.TextList?
              && (p.minItems.Some? ==> |v.items| >= p.minItems.value)
              && (p.maxItems.Some? ==> |v.items| <= p.maxItems.value)
              && (p.allowed.Some? ==> forall item :: item in v.items ==> item in p.allowed.value))
    ensures p.Other? ==> CheckValue(p, v).None?
  {
    if v.Integer? {
      assert WholeNumber(v, v.integer) && forall n: int :: WholeNumber(v, n) ==> n == v.integer;
    } else if v.Number? {
      forall n: int
        ensures WholeNumber(v, n) <==> CastsToInteger(v.number) && n == Cast(v.number)
      {
        WholeNumberCasts(v.number, n);
      }
      assert CastsToInteger(v.number) ==> WholeNumber(v, Cast(v.number));
      hide CastsToInteger, WholeNumber, Cast;
    }
  }

  lemma WholeNumberCasts(f: real, n: int)
    ensures WholeNumber(Number(f), n) <==> CastsToInteger(f) && n == Cast(f)
  {
    assert (n as real).Floor == n;
  }

  /** `n` is the integer a submitted value stands for: itself, or a whole real within the 64-bit range, whose
      upper end reaches one too far and falls back to the largest integer. */
  predicate WholeNumber(v: Value, n: int) {
    || v == Integer(n)
    || (v.Number? && -0x8000_0000_0000_0000 <= n <= 0x7FFF_FFFF_FFFF_FFFF
        && (v.number == n as real
            || (v.number == 0x8000_0000_0000_0000 as real && n == 0x7FFF_FFFF_FFFF_FFFF)))
  }

  /** An accepted value is sent as it was submitted, but for numbers, which take the property's kind. */
  lemma AcceptedAsSubmitted(p: Property, v: Value)
    requires CheckValue(p, v).Some?
    ensures p.NumberField? ==>
              CheckValue(p, v) == Some(Number(if v.Number? then v.number else v.integer as real))
    ensures p.IntegerField? ==>
              CheckValue(p, v).value.Integer? && WholeNumber(v, CheckValue(p, v).value.integer)
    ensures !p.NumberField? && !p.IntegerField? ==> CheckValue(p, v) == Some(v)
  {
  }

  /** An omitted field's default is the declared one, of the property's kind. */
  lemma DefaultMeaning(p: Property, v: Value)
    ensures DefaultOf(p) == Some(v) <==>
              || (p.TextField? && p.textDefault.Some? && v == Text(p.textDefault.value))
              || (p.NumberField? && p.numberDefault.Some? && v == Number(p.numberDefault.value))
              || (p.IntegerField? && p.integerDefault.Some? && v == Integer(p.integerDefault.value))
              || (p.BooleanField? && p.bitDefault.Some? && v == Boolean(p.bitDefault.value))
              || (p.ListField? && p.listDefault.Some? && v == TextList(p.listDefault.value))
  {
  }

  /** A checked value passes its check unchanged. */
  lemma CheckingTwice(p: Property, v: Value)
    requires CheckValue(p, v).Some?
    ensures CheckValue(p, CheckValue(p, v).value) == CheckValue(p, v)
  {
  }

  /** What one property contributes: a checked value, a default, nothing, or a refusal. */
  function Field(schema: Schema, content: map<string, Value>, name: string): Result<Option<Value>, FormError>
    requires name in schema.properties
  {
    var p := schema.properties[name];
    if name in content then
      var checked := CheckValue(p, content[name]);
      if checked.Some? then Ok(checked) else Err(InvalidValue(name))
    else if name in schema.required then Err(MissingField(name))
    else Ok(DefaultOf(p))
  }

  /** Every field is acceptable and every submitted name declared. A required name the schema does not
      declare asks for nothing. */
  predicate Acceptable(schema: Schema, content: map<string, Value>) {
    && (forall name :: name in content ==>
          name in schema.properties && CheckValue(schema.properties[name], content[name]).Some?)
    && forall name :: name in schema.required && name in schema.properties ==> name in content
  }

  function Filled(schema: Schema, content: map<string, Value>): map<string, Value>
    requires Acceptable(schema, content)
  {
    map name | name in schema.properties && Field(schema, content, name).value.Some?
      :: Field(schema, content, name).value.value
  }

  /** What an error says is so; a name is called unknown only when every declared field is in order. */
  predicate Blames(error: FormError, schema: Schema, content: map<string, Value>) {
    match error
    case MissingField(name) => name in schema.properties && name in schema.required && name !in content
    case InvalidValue(name) =>
      name in schema.properties && name in content && CheckValue(schema.properties[name], content[name]).None?
    case UnknownField(name) =>
      name in content && name !in schema.properties
      && forall declared :: declared in schema.properties ==> Field(schema, content, declared).Ok?
  }

  /** The form's loop over properties, then over submitted names. */
  method ValidateElicitationContent(schema: Schema, content: map<string, Value>)
    returns (result: Result<map<string, Value>, FormError>)
    ensures result.Ok? <==> Acceptable(schema, content)
    ensures result.Ok? <==>
              && (forall name :: name in content ==>
                    name in schema.properties && CheckValue(schema.properties[name], content[name]).Some?)
              && (forall name :: name in schema.required && name in schema.properties ==> name in content)
    ensures result.Ok? ==> forall name :: name in content ==>
              name in result.value && CheckValue(schema.properties[name], content[name]) == Some(result.value[name])
    ensures result.Ok? ==> forall name :: name !in content ==>
              (name in result.value <==> name in schema.properties && DefaultOf(schema.properties[name]).Some?)
              && (name in result.value ==> DefaultOf(schema.properties[name]) == Some(result.value[name]))
    ensures result.Ok? ==> result.value == Filled(schema, content)
    ensures result.Err? ==> Blames(result.error, schema, content)
  {
    hide CheckValue, DefaultOf;
    var validated: map<string, Value> := map[];
    var left := schema.properties.Keys;
    while left != {}
      invariant left <= schema.properties.Keys
      invariant forall name :: name in schema.properties && name !in left ==> Field(schema, content, name).Ok?
      invariant validated ==
        map name | name in schema.properties && name !in left && Field(schema, content, name).Ok?
                   && Field(schema, content, name).value.Some?
          :: Field(schema, content, name).value.value
      decreases left
    {
      var name :| name in left;
      var property := schema.properties[name];
      if name !in content {
        if name in schema.required {
          return Err(MissingField(name));
        }
        if DefaultOf(property).Some? {
          validated := validated[name := DefaultOf(property).value];
        }
      } else {
        var checked := CheckValue(property, content[name]);
        if checked.None? {
          return Err(InvalidValue(name));
        }
        validated := validated[name := checked.value];
      }
      left := left - {name};
    }
    if name :| name in content.Keys && name !in schema.properties {
      return Err(UnknownField(name));
    }
    assert Acceptable(schema, content) by {
      assert forall name :: name in schema.properties ==> Field(schema, content, name).Ok?;
    }
    return Ok(validated);
  }

  /** The default that an omitted field fell back to passes its own property's check unchanged. */
  predicate DefaultFits(schema: Schema, name: string)
    requires name in schema.properties
  {
    DefaultOf(schema.properties[name]).Some? ==>
      CheckValue(schema.properties[name], DefaultOf(schema.properties[name]).value)
        == DefaultOf(schema.properties[name])
  }

  /** Validating the answer again accepts it unchanged exactly when every default that was filled in
      satisfies its own property: defaults themselves are never checked. */
  lemma ValidatedIsFixed(schema: Schema, content: map<string, Value>)
    requires Acceptable(schema, content)
    ensures var filled := Filled(schema, content);
            (Acceptable(schema, filled) && Filled(schema, filled) == filled) <==>
              forall name :: name in schema.properties && name !in content ==> DefaultFits(schema, name)
  {
    var filled := Filled(schema, content);
    forall name | name in content
      ensures name in filled && CheckValue(schema.properties[name], filled[name]) == Some(filled[name])
    {
      CheckingTwice(schema.properties[name], content[name]);
    }
    hide CheckValue, DefaultOf;
    forall name | name in schema.properties && name !in content
      ensures name in filled <==> DefaultOf(schema.properties[name]).Some?
      ensures name in filled ==> filled[name] == DefaultOf(schema.properties[name]).value
    {
    }
    if forall name :: name in schema.properties && name !in content ==> DefaultFits(schema, name) {
      forall name | name in filled
        ensures CheckValue(schema.properties[name], filled[name]) == Some(filled[name])
      {
        if name !in content { assert DefaultFits(schema, name); }
      }
      assert Acceptable(schema, filled);
      forall name | name in schema.properties
        ensures Field(schema, filled, name) == Ok(if name in filled then Some(filled[name]) else None)
      {
      }
      assert Filled(schema, filled) == filled;
    }
    if Acceptable(schema, filled) && Filled(schema, filled) == filled {
      forall name | name in schema.properties && name !in content
        ensures DefaultFits(schema, name)
      {
        if name in filled {
          assert Filled(schema, filled)[name] == CheckValue(schema.properties[name], filled[name]).value;
        }
      }
    }
  }

  /** A default outside its own bounds is sent, and refused when submitted. */
  lemma UncheckedDefault()
    ensures var schema := Schema(map["n" := IntegerField(Some(1), None, Some(0))], {});
            Acceptable(schema, map[]) && Filled(schema, map[]) == map["n" := Integer(0)]
              && !Acceptable(schema, Filled(schema, map[]))
  {
    var schema := Schema(map["n" := IntegerField(Some(1), None, Some(0))], {});
    assert Field(schema, map[], "n") == Ok(Some(Integer(0)));
    assert "n" in Filled(schema, map[]);
  }
}

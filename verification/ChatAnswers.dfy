/**
 * What the chat parser answers to any text at all: which values it reads from which sections, and which error
 * it returns. And what a rendered turn looks like.
 */
module ChatAnswers {
  import opened Prelude
  import opened Text
  import opened ChatAdapter
  import ChatRoundTrip

  // ---------------------------------------------------------------------------
  // One value
  // ---------------------------------------------------------------------------

  /** The text, but for white space around it, stands for this value. */
  predicate IsReadAs(codec: Codec, ty: FieldType, text: string, v: Value) {
    match ty
    case StringType => v == Str(Trim(text))
    case BoolType =>
      (v == Bool(true) && Lower(Trim(text)) == "true") || (v == Bool(false) && Lower(Trim(text)) == "false")
    case EnumType(values) => v == Str(Trim(text)) && Trim(text) in values
    case ListType(_) => codec.parse(Trim(text)) == Some(v)
    case OptionalType(inner) => if IsAbsent(text) then v == Null else IsReadAs(codec, inner, text, v)
  }

  predicate IsAbsent(text: string) {
    Trim(text) == "" || Lower(Trim(text)) == "null"
  }

  /** What is read has the type; of a list only that it is what the JSON library made of the text. */
  lemma {:induction false} ReadIsTyped(codec: Codec, ty: FieldType, text: string, v: Value)
    requires IsReadAs(codec, ty, text, v)
    ensures WellTyped(ty, v) || HoldsList(ty)
  {
    hide Trim, Lower;
    if ty.OptionalType? && v != Null {
      ReadIsTyped(codec, ty.inner, text, v);
    }
  }

  predicate HoldsList(ty: FieldType) {
    ty.ListType? || (ty.OptionalType? && HoldsList(ty.inner))
  }

  /** A text is read as at most one value, and is refused as of a bad type if it stands for none. */
  lemma {:induction false} CoerceAnswers(codec: Codec, ty: FieldType, text: string, name: string)
    ensures forall v :: Coerce(codec, ty, text, name) == Ok(v) <==> IsReadAs(codec, ty, text, v)
    ensures Coerce(codec, ty, text, name).Err? ==> Coerce(codec, ty, text, name) == Err(BadType(name))
  {
    hide Trim, Lower;
    if ty.OptionalType? {
      CoerceAnswers(codec, ty.inner, Trim(text), name);
      forall v
        ensures IsReadAs(codec, ty.inner, Trim(text), v) <==> IsReadAs(codec, ty.inner, text, v)
      {
        ReadsTrimmed(codec, ty.inner, text, v);
      }
    }
  }

  lemma {:induction false} ReadsTrimmed(codec: Codec, ty: FieldType, text: string, v: Value)
    ensures IsReadAs(codec, ty, Trim(text), v) <==> IsReadAs(codec, ty, text, v)
  {
    assert Trim(Trim(text)) == Trim(text);
    hide Trim, Lower;
    if ty.OptionalType? {
      ReadsTrimmed(codec, ty.inner, text, v);
    }
  }

  // ---------------------------------------------------------------------------
  // All fields
  // ---------------------------------------------------------------------------

  /** An earlier field has the same name, and takes its text. */
  predicate Repeats(fields: seq<Field>, i: nat)
    requires i < |fields|
  {
    exists j :: 0 <= j < i && fields[j].name == fields[i].name
  }

  predicate IsThere(fields: seq<Field>, texts: map<string, string>, i: nat)
    requires i < |fields|
  {
    fields[i].name in texts && !Repeats(fields, i)
  }

  /** The field has a text, and it stands for a value. */
  ghost predicate IsGood(codec: Codec, fields: seq<Field>, texts: map<string, string>, i: nat)
    requires i < |fields|
  {
    IsThere(fields, texts, i) && exists v :: IsReadAs(codec, fields[i].ty, texts[fields[i].name], v)
  }

  ghost predicate FirstBad(codec: Codec, fields: seq<Field>, texts: map<string, string>, i: nat) {
    && i < |fields| && !IsGood(codec, fields, texts, i)
    && forall j :: 0 <= j < i ==> IsGood(codec, fields, texts, j)
  }

  function BadFieldError(fields: seq<Field>, texts: map<string, string>, i: nat): ParseError
    requires i < |fields|
  {
    if IsThere(fields, texts, i) then BadType(fields[i].name) else MissingField(fields[i].name)
  }

  function Names(fields: seq<Field>): set<string> {
    set i | 0 <= i < |fields| :: fields[i].name
  }

  /** The fields behind the first are as good among themselves. */
  lemma {:induction false} GoodBehind(codec: Codec, fields: seq<Field>, texts: map<string, string>, i: nat)
    requires i + 1 < |fields|
    ensures
      var left := texts - {fields[0].name};
      && (IsGood(codec, fields[1..], left, i) <==> IsGood(codec, fields, texts, i + 1))
      && (IsThere(fields[1..], left, i) <==> IsThere(fields, texts, i + 1))
  {
    hide IsReadAs;
    var rest := fields[1..];
    assert rest[i] == fields[i + 1];
    if j :| 0 <= j < i + 1 && fields[j].name == fields[i + 1].name {
      assert j > 0 ==> rest[j - 1].name == rest[i].name;
    }
    if j :| 0 <= j < i && rest[j].name == rest[i].name {
      assert fields[j + 1].name == fields[i + 1].name;
    }
    assert fields[0].name == fields[i + 1].name ==> Repeats(fields, i + 1);
    if IsThere(fields, texts, i + 1) {
      assert (texts - {fields[0].name})[rest[i].name] == texts[fields[i + 1].name];
    }
  }

  /** All fields are read, or the first bad one is the error. */
  lemma {:induction false} FieldsAnswer(codec: Codec, fields: seq<Field>, texts: map<string, string>)
    returns (bad: nat)
    ensures CoerceAll(codec, fields, texts).Ok? ==>
      (forall i :: 0 <= i < |fields| ==> IsGood(codec, fields, texts, i))
    ensures CoerceAll(codec, fields, texts).Err? ==> FirstBad(codec, fields, texts, bad)
    ensures CoerceAll(codec, fields, texts).Err? ==>
      CoerceAll(codec, fields, texts).error == BadFieldError(fields, texts, bad)
  {
    bad := 0;
    if fields != [] {
      var rest, left := fields[1..], texts - {fields[0].name};
      if fields[0].name in texts {
        CoerceAnswers(codec, fields[0].ty, texts[fields[0].name], fields[0].name);
      }
      hide IsReadAs, Coerce;
      assert IsThere(fields, texts, 0) <==> fields[0].name in texts;
      if IsGood(codec, fields, texts, 0) {
        hide IsGood, IsThere;
        bad := FieldsAnswer(codec, rest, left);
        forall i | 0 < i < |fields|
          ensures IsGood(codec, rest, left, i - 1) <==> IsGood(codec, fields, texts, i)
          ensures IsThere(rest, left, i - 1) <==> IsThere(fields, texts, i)
        {
          GoodBehind(codec, fields, texts, i - 1);
        }
        if CoerceAll(codec, rest, left).Err? {
          assert fields[bad + 1] == rest[bad];
          bad := bad + 1;
        }
      }
    }
  }

  lemma {:induction false} KeysAreNames(
      codec: Codec, fields: seq<Field>, texts: map<string, string>, m: map<string, Value>)
    requires CoerceAll(codec, fields, texts) == Ok(m)
    ensures m.Keys == Names(fields)
  {
    hide Coerce;
    if fields != [] {
      var rest, left := fields[1..], texts - {fields[0].name};
      KeysAreNames(codec, rest, left, CoerceAll(codec, rest, left).value);
      assert Names(fields) == {fields[0].name} + Names(rest) by {
        assert forall i :: 0 <= i < |rest| ==> rest[i] == fields[i + 1];
        assert fields[0].name in Names(fields);
        forall name | name in Names(fields)
          ensures name == fields[0].name || name in Names(rest)
        {
          var i :| 0 <= i < |fields| && fields[i].name == name;
          assert i > 0 ==> rest[i - 1].name == name;
        }
        forall name | name in Names(rest)
          ensures name in Names(fields)
        {
          var i :| 0 <= i < |rest| && rest[i].name == name;
          assert fields[i + 1].name == name;
        }
      }
    }
  }

  // ---------------------------------------------------------------------------
  // Sections
  // ---------------------------------------------------------------------------

  /** The `k`-th section is the last one of this name. */
  predicate IsLastOf(ds: seq<Delimiter>, name: string, k: int) {
    0 <= k < |ds| && ds[k].name == name && forall j :: k < j < |ds| ==> ds[j].name != name
  }

  /** Some section has this name; what stands behind the terminator is not one. */
  ghost predicate HasSection(ds: seq<Delimiter>, name: string) {
    name != "completed" && exists k :: IsLastOf(ds, name, k)
  }

  /** What stands between a delimiter and the next, or the end. */
  function TextBehind(s: string, ds: seq<Delimiter>, k: int): string
    requires InOrder(s, ds, 0) && 0 <= k < |ds|
  {
    s[ds[k].end..if k + 1 < |ds| then ds[k + 1].start else |s|]
  }

  lemma {:induction false} CollectedIsLast(s: string, ds: seq<Delimiter>, i: nat, name: string)
    requires InOrder(s, ds, 0) && i <= |ds|
    ensures name in Collected(s, ds, i) <==> name != "completed" && exists k :: i <= k && IsLastOf(ds, name, k)
    ensures forall k :: i <= k && IsLastOf(ds, name, k) && name != "completed" ==>
      name in Collected(s, ds, i) && Collected(s, ds, i)[name] == Trim(TextBehind(s, ds, k))
    decreases |ds| - i
  {
    hide Trim;
    if i < |ds| {
      CollectedIsLast(s, ds, i + 1, name);
      if name in Collected(s, ds, i) && name !in Collected(s, ds, i + 1) {
        LastFrom(ds, name, i);
      }
      forall k | i <= k && IsLastOf(ds, name, k) && name != "completed"
        ensures name in Collected(s, ds, i) && Collected(s, ds, i)[name] == Trim(TextBehind(s, ds, k))
      {
        if k == i {
          assert forall m :: i + 1 <= m ==> !IsLastOf(ds, name, m);
        }
      }
    }
  }

  /** If none is the last behind it, this is. */
  lemma {:induction false} LastFrom(ds: seq<Delimiter>, name: string, i: nat)
    requires i < |ds| && ds[i].name == name
    ensures exists k :: i <= k && IsLastOf(ds, name, k)
    decreases |ds| - i
  {
    if j :| i < j < |ds| && ds[j].name == name {
      LastFrom(ds, name, j);
    } else {
      assert IsLastOf(ds, name, i);
    }
  }

  // ---------------------------------------------------------------------------
  // The answer
  // ---------------------------------------------------------------------------

  ghost predicate HasTerminator(ds: seq<Delimiter>) {
    exists k :: 0 <= k < |ds| && ds[k].name == "completed"
  }

  /** The last section of this field's name stands for the value. */
  ghost predicate IsReadFrom(codec: Codec, field: Field, s: string, ds: seq<Delimiter>, v: Value)
    requires InOrder(s, ds, 0)
  {
    exists k :: IsLastOf(ds, field.name, k) && IsReadAs(codec, field.ty, TextBehind(s, ds, k), v)
  }

  /** The field has a section of its own. */
  ghost predicate IsSent(fields: seq<Field>, ds: seq<Delimiter>, i: nat)
    requires i < |fields|
  {
    HasSection(ds, fields[i].name) && !Repeats(fields, i)
  }

  ghost predicate IsFine(codec: Codec, fields: seq<Field>, s: string, ds: seq<Delimiter>, i: nat)
    requires InOrder(s, ds, 0) && i < |fields|
  {
    IsSent(fields, ds, i) && exists v :: IsReadFrom(codec, fields[i], s, ds, v)
  }

  /** The values of all fields are those of their sections. */
  ghost predicate IsAllRead(
    codec: Codec, fields: seq<Field>, s: string, ds: seq<Delimiter>, m: map<string, Value>)
    requires InOrder(s, ds, 0)
  {
    && m.Keys == Names(fields)
    && forall i :: 0 <= i < |fields| ==>
         IsSent(fields, ds, i) && fields[i].name in m && IsReadFrom(codec, fields[i], s, ds, m[fields[i].name])
  }

  /** The error names the first field that is not fine, and says whether it was not sent or not readable. */
  ghost predicate IsFirstFault(codec: Codec, fields: seq<Field>, s: string, ds: seq<Delimiter>, error: ParseError)
    requires InOrder(s, ds, 0)
  {
    exists i :: 0 <= i < |fields| && !IsFine(codec, fields, s, ds, i)
      && (forall j :: 0 <= j < i ==> IsFine(codec, fields, s, ds, j))
      && error == if IsSent(fields, ds, i) then BadType(fields[i].name) else MissingField(fields[i].name)
  }

  /** The collected texts say of a field what its sections say. */
  lemma {:induction false} TextsAreSections(codec: Codec, fields: seq<Field>, s: string, i: nat)
    requires InOrder(s, Delimiters(s, 0), 0) && i < |fields|
    ensures
      var ds := Delimiters(s, 0);
      var texts := Collected(s, ds, 0);
      && (IsThere(fields, texts, i) <==> IsSent(fields, ds, i))
      && (IsGood(codec, fields, texts, i) <==> IsFine(codec, fields, s, ds, i))
      && (IsThere(fields, texts, i) ==> forall v ::
            IsReadAs(codec, fields[i].ty, texts[fields[i].name], v) <==> IsReadFrom(codec, fields[i], s, ds, v))
  {
    hide Delimiters, IsReadAs, Trim, Repeats, TextBehind, Collected;
    var ds, name := Delimiters(s, 0), fields[i].name;
    var texts := Collected(s, ds, 0);
    CollectedIsLast(s, ds, 0, name);
    assert HasSection(ds, name) <==> name in texts;
    if HasSection(ds, name) {
      var k :| IsLastOf(ds, name, k);
      forall v
        ensures IsReadAs(codec, fields[i].ty, texts[name], v) <==> IsReadFrom(codec, fields[i], s, ds, v)
      {
        ReadsTrimmed(codec, fields[i].ty, TextBehind(s, ds, k), v);
        assert forall m :: IsLastOf(ds, name, m) ==> m == k;
      }
      hide IsReadFrom, IsLastOf;
      assert IsThere(fields, texts, i) <==> IsSent(fields, ds, i);
    }
  }

  /**
   * For every text and every fields: no delimiter is found, or none is the terminator, or every field has a last
   * section that stands for a value of its type and the object holds just these, or the first field that has no
   * section left, or one that stands for nothing, is the error.
   */
  lemma {:induction false} ParseAnswers(codec: Codec, fields: seq<Field>, s: string)
    ensures InOrder(s, Delimiters(s, 0), 0)
    ensures Parsed(codec, fields, s) == Err(NoFields) <==> Delimiters(s, 0) == []
    ensures Parsed(codec, fields, s) == Err(NoTerminator) <==>
      Delimiters(s, 0) != [] && !HasTerminator(Delimiters(s, 0))
    ensures Parsed(codec, fields, s).Ok? ==>
      IsAllRead(codec, fields, s, Delimiters(s, 0), Parsed(codec, fields, s).value)
    ensures Parsed(codec, fields, s).Err? && HasTerminator(Delimiters(s, 0)) ==>
      IsFirstFault(codec, fields, s, Delimiters(s, 0), Parsed(codec, fields, s).error)
    ensures Parsed(codec, fields, s).Ok? ==> HasTerminator(Delimiters(s, 0))
  {
    DelimitersInOrder(s, 0);
    hide Delimiters, InOrder, Coerce, CoerceAll, Collected, IsGood, IsFine, IsSent, IsThere, IsReadFrom, IsReadAs;
    var ds := Delimiters(s, 0);
    if HasTerminator(ds) {
      var texts := Collected(s, ds, 0);
      var bad := FieldsAnswer(codec, fields, texts);
      forall i | 0 <= i < |fields|
        ensures IsThere(fields, texts, i) <==> IsSent(fields, ds, i)
        ensures IsGood(codec, fields, texts, i) <==> IsFine(codec, fields, s, ds, i)
      {
        TextsAreSections(codec, fields, s, i);
      }
      var r := CoerceAll(codec, fields, texts);
      if r.Ok? {
        AllIsRead(codec, fields, s, r.value);
      } else {
        assert FirstBad(codec, fields, texts, bad);
      }
    }
  }

  lemma {:induction false} AllIsRead(codec: Codec, fields: seq<Field>, s: string, m: map<string, Value>)
    requires InOrder(s, Delimiters(s, 0), 0) && CoerceAll(codec, fields, Collected(s, Delimiters(s, 0), 0)) == Ok(m)
    ensures IsAllRead(codec, fields, s, Delimiters(s, 0), m)
  {
    hide Delimiters, InOrder, Coerce, CoerceAll, Collected, IsFine, IsSent, IsReadFrom, IsReadAs;
    var ds := Delimiters(s, 0);
    var texts := Collected(s, ds, 0);
    KeysAreNames(codec, fields, texts, m);
    var bad := FieldsAnswer(codec, fields, texts);
    assert ChatAdapter.Distinct(fields) by {
      forall i, j | 0 <= i < j < |fields|
        ensures fields[i].name != fields[j].name
      {
        assert IsGood(codec, fields, texts, j);
      }
    }
    forall i | 0 <= i < |fields|
      ensures IsSent(fields, ds, i) && fields[i].name in m && IsReadFrom(codec, fields[i], s, ds, m[fields[i].name])
    {
      assert IsGood(codec, fields, texts, i);
      ChatRoundTrip.CoercedFrom(codec, fields, texts, m, i);
      CoerceAnswers(codec, fields[i].ty, texts[fields[i].name], fields[i].name);
      TextsAreSections(codec, fields, s, i);
    }
  }

  // ---------------------------------------------------------------------------
  // The rendered turn
  // ---------------------------------------------------------------------------

  /** How a section and the terminator look. */
  lemma SectionLooks(name: string, text: string)
    ensures Section(name, text) == "[[ ## " + (name + (" ## ]]\n" + (text + "\n\n")))
    ensures Header(COMPLETED) + "\n" == "[[ ## completed ## ]]\n"
  {
    var tail := "\n" + (text + "\n\n");
    assert " ## ]]\n" + (text + "\n\n") == " ## ]]" + tail;
    assert Header(name) + tail == "[[ ## " + (name + (" ## ]]" + tail));
  }

  /** How each value is printed; a field without a value is printed as null. */
  lemma ValueLooks(codec: Codec, outputs: map<string, Value>, name: string)
    ensures OutputText(codec, outputs, name) ==
      if name !in outputs || outputs[name].Null? then "null"
      else
        match outputs[name]
        case Bool(true) => "true"
        case Bool(false) => "false"
        case Number(digits) => digits
        case Str(text) => text
        case v => codec.print_(v)
  {
  }
}

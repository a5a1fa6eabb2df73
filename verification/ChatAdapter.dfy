/**
 * The chat wire format: sections headed `[[ ## name ## ]]`, ended by `[[ ## completed ## ]]`.
 * `RenderAssistantTurn` prints the output fields, `Parse` reads them back by a linear scan.
 *
 * Positions count characters; the program counts bytes, which makes no difference because the
 * delimiters are ASCII. JSON text of arrays and objects goes through an assumed `Codec`.
 */
module ChatAdapter {
  import opened Prelude
  import opened Text

  // ---------------------------------------------------------------------------
  // Signatures and values
  // ---------------------------------------------------------------------------

  datatype FieldType =
    | StringType
    | BoolType
    | EnumType(values: seq<string>)
    | ListType(inner: FieldType)
    | OptionalType(inner: FieldType)

  datatype Field = Field(name: string, ty: FieldType)

  datatype Value =
    | Null
    | Bool(b: bool)
    | Number(digits: string)
    | Str(s: string)
    | Array(items: seq<Value>)
    | Object(members: map<string, Value>)

  /** The JSON library: how it prints arrays and objects, and what it reads. */
  datatype Codec = Codec(print_: Value -> string, parse: string -> Option<Value>)

  datatype ParseError = NoFields | NoTerminator | MissingField(name: string) | BadType(name: string)

  const OPENER := "[[ ## "
  const CLOSER := " ## ]]"
  const COMPLETED := "completed"

  // ---------------------------------------------------------------------------
  // Printing
  // ---------------------------------------------------------------------------

  function StringifyValue(codec: Codec, v: Value): string {
    match v
    case Null => "null"
    case Bool(b) => if b then "true" else "false"
    case Number(digits) => digits
    case Str(s) => s
    case Array(_) => codec.print_(v)
    case Object(_) => codec.print_(v)
  }

  function Header(name: string): string {
    OPENER + name + CLOSER
  }

  function OutputText(codec: Codec, outputs: map<string, Value>, name: string): string {
    StringifyValue(codec, if name in outputs then outputs[name] else Null)
  }

  function Body(text: string): string {
    "\n" + (text + "\n\n")
  }

  function Section(name: string, text: string): string {
    Header(name) + Body(text)
  }

  function Rendered(codec: Codec, fields: seq<Field>, outputs: map<string, Value>): string {
    if fields == [] then Header(COMPLETED) + "\n"
    else
      Section(fields[0].name, OutputText(codec, outputs, fields[0].name)) + Rendered(codec, fields[1..], outputs)
  }

  method RenderAssistantTurn(codec: Codec, fields: seq<Field>, outputs: map<string, Value>) returns (s: string)
    ensures s == Rendered(codec, fields, outputs)
  {
    s := "";
    for i := 0 to |fields|
      invariant s + Rendered(codec, fields[i..], outputs) == Rendered(codec, fields, outputs)
    {
      assert fields[i..][0] == fields[i] && fields[i..][1..] == fields[i + 1..];
      ghost var before, rest := s, Rendered(codec, fields[i + 1..], outputs);
      var name := fields[i].name;
      var raw := if name in outputs then outputs[name] else Null;
      s := s + Section(name, StringifyValue(codec, raw));
      assert s + rest == before + (Section(name, StringifyValue(codec, raw)) + rest);
    }
    assert fields[|fields|..] == [];
    s := s + (Header(COMPLETED) + "\n");
  }

  // ---------------------------------------------------------------------------
  // Scanning
  // ---------------------------------------------------------------------------

  /** `piece` stands in `s` at `pos`. */
  predicate At(s: string, pos: nat, piece: string) {
    pos + |piece| <= |s| && s[pos..pos + |piece|] == piece
  }

  /** `find_subslice` from `start` on: the leftmost occurrence. */
  function FindFrom(s: string, start: nat, piece: string): (found: Option<nat>)
    requires start <= |s|
    ensures found.Some? ==> start <= found.value && At(s, found.value, piece)
    ensures found.Some? ==> forall k: nat :: start <= k < found.value ==> !At(s, k, piece)
    ensures found.None? ==> forall k: nat :: start <= k ==> !At(s, k, piece)
    decreases |s| - start
  {
    if At(s, start, piece) then Some(start)
    else if start == |s| then None
    else FindFrom(s, start + 1, piece)
  }

  /** A header in the text: its trimmed name and the span it takes. */
  datatype Delimiter = Delimiter(name: string, start: nat, end: nat)

  /** The delimiters that a scan from `i` finds. */
  function Delimiters(s: string, i: nat): (found: seq<Delimiter>)
    requires i <= |s|
    decreases |s| - i
  {
    if i + 5 >= |s| then []
    else
      var close := if At(s, i, OPENER) then FindFrom(s, i + 6, CLOSER) else None;
      if close.None? then Delimiters(s, i + 1)
      else
        [Delimiter(Trim(s[i + 6..close.value]), i, close.value + 6)] + Delimiters(s, close.value + 6)
  }

  /** One step of the scan: an opener with a closer after it. */
  lemma {:induction false} FoundNext(s: string, i: nat, close: nat)
    requires At(s, i, OPENER) && i + 6 <= |s| && FindFrom(s, i + 6, CLOSER) == Some(close)
    ensures i + 6 <= close <= close + 6 <= |s|
    ensures Delimiters(s, i) == [Delimiter(Trim(s[i + 6..close]), i, close + 6)] + Delimiters(s, close + 6)
  {
    hide FindFrom, Trim;
  }

  /** One step of the scan: no header that is closed starts here. */
  lemma {:induction false} FoundNoneHere(s: string, i: nat)
    requires i + 6 <= |s| && (At(s, i, OPENER) ==> FindFrom(s, i + 6, CLOSER).None?)
    ensures Delimiters(s, i) == Delimiters(s, i + 1)
  {
    hide FindFrom, Trim, At;
  }

  lemma FoundNoneAfter(s: string, i: nat)
    requires i <= |s| <= i + 5
    ensures Delimiters(s, i) == []
  {
  }

  method FindDelimiters(s: string) returns (out: seq<Delimiter>)
    ensures out == Delimiters(s, 0)
  {
    hide Delimiters, FindFrom, Trim, At;
    out := [];
    var i := 0;
    while i + 5 < |s|
      invariant i <= |s|
      invariant out + Delimiters(s, i) == Delimiters(s, 0)
      decreases |s| - i
    {
      if At(s, i, OPENER) {
        var close := FindFrom(s, i + 6, CLOSER);
        if close.Some? {
          FoundNext(s, i, close.value);
          var delimiter := Delimiter(Trim(s[i + 6..close.value]), i, close.value + 6);
          ghost var rest := Delimiters(s, close.value + 6);
          assert out + ([delimiter] + rest) == (out + [delimiter]) + rest;
          out := out + [delimiter];
          i := close.value + 6;
          continue;
        }
      }
      FoundNoneHere(s, i);
      i := i + 1;
    }
    FoundNoneAfter(s, i);
  }

  // ---------------------------------------------------------------------------
  // Parsing
  // ---------------------------------------------------------------------------

  function Coerce(codec: Codec, ty: FieldType, raw: string, name: string): Result<Value, ParseError> {
    var trimmed := Trim(raw);
    match ty
    case StringType => Ok(Str(trimmed))
    case BoolType =>
      if Lower(trimmed) == "true" then Ok(Bool(true))
      else if Lower(trimmed) == "false" then Ok(Bool(false))
      else Err(BadType(name))
    case EnumType(values) => if trimmed in values then Ok(Str(trimmed)) else Err(BadType(name))
    case ListType(_) =>
      var parsed := codec.parse(trimmed);
      if parsed.Some? then Ok(parsed.value) else Err(BadType(name))
    case OptionalType(inner) =>
      if trimmed == "" || Lower(trimmed) == "null" then Ok(Null) else Coerce(codec, inner, trimmed, name)
  }

  /** Where the content after delimiter `i` ends. */
  function ContentEnd(s: string, delimiters: seq<Delimiter>, i: nat): nat {
    if i + 1 < |delimiters| then delimiters[i + 1].start else |s|
  }

  ghost predicate InOrder(s: string, delimiters: seq<Delimiter>, from: nat) {
    && (forall k :: 0 <= k < |delimiters| ==> from <= delimiters[k].start < delimiters[k].end <= |s|)
    && (forall k :: 0 < k < |delimiters| ==> delimiters[k - 1].end <= delimiters[k].start)
  }

  function Content(s: string, delimiters: seq<Delimiter>, i: nat): string
    requires InOrder(s, delimiters, 0) && i < |delimiters|
  {
    Trim(s[delimiters[i].end..ContentEnd(s, delimiters, i)])
  }

  /** Content by name from delimiter `i` on; a later section of the same name replaces an earlier one. */
  function Collected(s: string, delimiters: seq<Delimiter>, i: nat): map<string, string>
    requires InOrder(s, delimiters, 0) && i <= |delimiters|
    decreases |delimiters| - i
  {
    if i == |delimiters| then map[]
    else
      (if delimiters[i].name == COMPLETED then map[] else map[delimiters[i].name := Content(s, delimiters, i)])
      + Collected(s, delimiters, i + 1)
  }

  function CoerceAll(codec: Codec, fields: seq<Field>, texts: map<string, string>)
    : Result<map<string, Value>, ParseError>
  {
    if fields == [] then Ok(map[])
    else
      var name := fields[0].name;
      if name !in texts then Err(MissingField(name))
      else
        var value := Coerce(codec, fields[0].ty, texts[name], name);
        if value.Err? then Err(value.error)
        else
          var rest := CoerceAll(codec, fields[1..], texts - {name});
          if rest.Err? then rest else Ok(map[name := value.value] + rest.value)
  }

  ghost function Parsed(codec: Codec, fields: seq<Field>, s: string): Result<map<string, Value>, ParseError> {
    var delimiters := Delimiters(s, 0);
    DelimitersInOrder(s, 0);
    if delimiters == [] then Err(NoFields)
    else if forall k :: 0 <= k < |delimiters| ==> delimiters[k].name != COMPLETED then Err(NoTerminator)
    else CoerceAll(codec, fields, Collected(s, delimiters, 0))
  }

  lemma InsertThenRest(texts: map<string, string>, name: string, text: string, rest: map<string, string>)
    ensures texts[name := text] + rest == texts + (map[name := text] + rest)
  {
  }

  method CollectTexts(response: string, delimiters: seq<Delimiter>) returns (texts: map<string, string>)
    requires InOrder(response, delimiters, 0)
    ensures texts == Collected(response, delimiters, 0)
  {
    hide Trim;
    texts := map[];
    for i := 0 to |delimiters|
      invariant texts + Collected(response, delimiters, i) == Collected(response, delimiters, 0)
    {
      if delimiters[i].name != COMPLETED {
        var contentEnd := if i + 1 < |delimiters| then delimiters[i + 1].start else |response|;
        var content := Trim(response[delimiters[i].end..contentEnd]);
        InsertThenRest(texts, delimiters[i].name, content, Collected(response, delimiters, i + 1));
        texts := texts[delimiters[i].name := content];
      }
    }
  }

  method CoerceFields(codec: Codec, fields: seq<Field>, texts: map<string, string>)
    returns (r: Result<map<string, Value>, ParseError>)
    ensures r == CoerceAll(codec, fields, texts)
  {
    var obj: map<string, Value> := map[];
    var left := texts;
    assert fields[0..] == fields;
    ghost var all := CoerceAll(codec, fields, texts);
    assert all.Ok? ==> obj + all.value == all.value;
    for i := 0 to |fields|
      invariant CoerceAll(codec, fields, texts) ==
        var rest := CoerceAll(codec, fields[i..], left);
        if rest.Err? then rest else Ok(obj + rest.value)
    {
      assert fields[i..][0] == fields[i] && fields[i..][1..] == fields[i + 1..];
      var name := fields[i].name;
      if name !in left {
        return Err(MissingField(name));
      }
      var value := Coerce(codec, fields[i].ty, left[name], name);
      if value.Err? {
        return Err(value.error);
      }
      ghost var before := obj;
      left := left - {name};
      obj := obj[name := value.value];
      ghost var rest := CoerceAll(codec, fields[i + 1..], left);
      if rest.Ok? {
        assert before + (map[name := value.value] + rest.value) == obj + rest.value;
      }
    }
    assert fields[|fields|..] == [];
    assert obj + map[] == obj;
    r := Ok(obj);
  }

  method Parse(codec: Codec, fields: seq<Field>, response: string) returns (r: Result<map<string, Value>, ParseError>)
    ensures r == Parsed(codec, fields, response)
  {
    var delimiters := FindDelimiters(response);
    DelimitersInOrder(response, 0);
    if delimiters == [] {
      return Err(NoFields);
    }
    if !exists k :: 0 <= k < |delimiters| && delimiters[k].name == COMPLETED {
      return Err(NoTerminator);
    }
    var texts := CollectTexts(response, delimiters);
    r := CoerceFields(codec, fields, texts);
  }

  // ---------------------------------------------------------------------------
  // What the scan finds, for any text at all
  // ---------------------------------------------------------------------------

  lemma {:induction false} DelimitersInOrder(s: string, i: nat)
    requires i <= |s|
    ensures InOrder(s, Delimiters(s, i), i)
    decreases |s| - i
  {
    hide FindFrom, Trim;
    if i + 5 < |s| {
      var close := if At(s, i, OPENER) then FindFrom(s, i + 6, CLOSER) else None;
      if close.None? {
        DelimitersInOrder(s, i + 1);
      } else {
        DelimitersInOrder(s, close.value + 6);
      }
    }
  }

  /** A delimiter is an opener, the text up to the first closer after it, and that closer. */
  ghost predicate IsDelimiter(s: string, d: Delimiter) {
    && At(s, d.start, OPENER) && d.start + 12 <= d.end <= |s| && At(s, d.end - 6, CLOSER)
    && (forall k: nat :: d.start + 6 <= k < d.end - 6 ==> !At(s, k, CLOSER))
    && d.name == Trim(s[d.start + 6..d.end - 6])
  }

  lemma {:induction false} FoundAreDelimiters(s: string, i: nat)
    requires i <= |s|
    ensures forall k :: 0 <= k < |Delimiters(s, i)| ==> IsDelimiter(s, Delimiters(s, i)[k])
    decreases |s| - i
  {
    hide FindFrom, Trim;
    if i + 5 < |s| {
      var close := if At(s, i, OPENER) then FindFrom(s, i + 6, CLOSER) else None;
      if close.None? {
        FoundAreDelimiters(s, i + 1);
      } else {
        FoundAreDelimiters(s, close.value + 6);
      }
    }
  }

  /** The position lies within the `k`-th delimiter. */
  predicate Covers(ds: seq<Delimiter>, k: nat, p: nat) {
    k < |ds| && ds[k].start <= p < ds[k].end
  }

  lemma CoversCons(first: Delimiter, rest: seq<Delimiter>, k: nat, p: nat)
    ensures first.start <= p < first.end ==> Covers([first] + rest, 0, p)
    ensures Covers(rest, k, p) ==> Covers([first] + rest, k + 1, p)
  {
  }

  /** One step of the scan: past a header, or one character on if none that is closed starts here. */
  lemma {:induction false} ScanStep(s: string, i: nat) returns (first: Option<Delimiter>)
    requires i + 6 <= |s|
    ensures first.Some? ==>
      && first.value.start == i < first.value.end <= |s|
      && Delimiters(s, i) == [first.value] + Delimiters(s, first.value.end)
    ensures first.None? ==> Delimiters(s, i) == Delimiters(s, i + 1)
    ensures first.None? && At(s, i, OPENER) ==> forall c: nat :: i + 6 <= c ==> !At(s, c, CLOSER)
  {
    hide Delimiters, FindFrom, Trim, At;
    var close := if At(s, i, OPENER) then FindFrom(s, i + 6, CLOSER) else None;
    if close.None? {
      first := None;
      FoundNoneHere(s, i);
    } else {
      FoundNext(s, i, close.value);
      first := Some(Delimiter(Trim(s[i + 6..close.value]), i, close.value + 6));
    }
  }

  /** An opener with a closer after it is found, or lies inside a delimiter that is. */
  lemma {:induction false} OpenersAreCovered(s: string, i: nat, p: nat, c: nat) returns (k: nat)
    requires i <= p && At(s, p, OPENER) && p + 6 <= c && At(s, c, CLOSER)
    ensures Covers(Delimiters(s, i), k, p)
    decreases |s| - i
  {
    hide Delimiters, Covers;
    var first := ScanStep(s, i);
    if first.None? {
      k := OpenersAreCovered(s, i + 1, p, c);
    } else {
      var rest := Delimiters(s, first.value.end);
      if p < first.value.end {
        k := 0;
        CoversCons(first.value, rest, 0, p);
      } else {
        k := OpenersAreCovered(s, first.value.end, p, c);
        CoversCons(first.value, rest, k, p);
        k := k + 1;
      }
    }
  }

  // ---------------------------------------------------------------------------
  // What the scan finds in a rendered turn
  // ---------------------------------------------------------------------------

  predicate IsIdentifier(name: string) {
    name != "" && forall i :: 0 <= i < |name| ==>
      'a' <= name[i] <= 'z' || 'A' <= name[i] <= 'Z' || '0' <= name[i] <= '9' || name[i] == '_'
  }

  ghost predicate HasOpener(text: string) {
    exists k: nat :: At(text, k, OPENER)
  }

  ghost predicate Distinct(fields: seq<Field>) {
    forall i, j :: 0 <= i < j < |fields| ==> fields[i].name != fields[j].name
  }

  /** Distinct identifiers, none of them the terminator's. */
  ghost predicate IsSignature(fields: seq<Field>) {
    && Distinct(fields)
    && forall i :: 0 <= i < |fields| ==> IsIdentifier(fields[i].name) && fields[i].name != COMPLETED
  }

  lemma CharsAt(s: string, pos: nat, piece: string)
    requires At(s, pos, piece)
    ensures forall k :: 0 <= k < |piece| ==> s[pos + k] == piece[k]
  {
    forall k | 0 <= k < |piece|
      ensures s[pos + k] == piece[k]
    {
      assert s[pos..pos + |piece|][k] == piece[k];
    }
  }

  lemma CharAt(s: string, pos: nat, piece: string, k: nat)
    requires At(s, pos, piece) && k < |piece|
    ensures s[pos + k] == piece[k]
  {
    CharsAt(s, pos, piece);
  }

  lemma AtPart(s: string, pos: nat, piece: string, from: nat, part: string)
    requires At(s, pos, piece) && At(piece, from, part)
    ensures At(s, pos + from, part)
  {
    CharsAt(s, pos, piece);
    CharsAt(piece, from, part);
    assert s[pos + from..pos + from + |part|] == part;
  }

  lemma AtWithin(s: string, pos: nat, piece: string, k: nat, part: string)
    requires At(s, pos, piece) && pos <= k && k + |part| <= pos + |piece| && At(s, k, part)
    ensures At(piece, k - pos, part)
  {
    CharsAt(s, pos, piece);
    CharsAt(s, k, part);
    assert piece[k - pos..k - pos + |part|] == part;
  }

  lemma IdentifierIsTrimmed(name: string)
    requires IsIdentifier(name)
    ensures Trim(name) == name
  {
  }

  lemma HeaderParts(name: string)
    ensures |Header(name)| == |name| + 12
    ensures At(Header(name), 0, OPENER) && At(Header(name), 6, name) && At(Header(name), 6 + |name|, CLOSER)
  {
  }

  /** The first closer after a header's opener is the header's own: its name has no space. */
  lemma HeaderCloses(s: string, i: nat, name: string)
    requires IsIdentifier(name) && At(s, i, Header(name))
    ensures At(s, i, OPENER) && At(s, i + 6, name)
    ensures FindFrom(s, i + 6, CLOSER) == Some(i + 6 + |name|)
  {
    var header, close := Header(name), i + 6 + |name|;
    HeaderParts(name);
    hide FindFrom, Header;
    AtPart(s, i, header, 0, OPENER);
    AtPart(s, i, header, 6, name);
    AtPart(s, i, header, 6 + |name|, CLOSER);
    CharsAt(s, i + 6, name);
    forall k: nat | i + 6 <= k < close
      ensures !At(s, k, CLOSER)
    {
      assert s[i + 6 + (k - i - 6)] == name[k - i - 6];
      if At(s, k, CLOSER) {
        CharAt(s, k, CLOSER, 0);
      }
    }
  }

  /** Standing at a header, the scan finds it, whatever follows. */
  lemma {:induction false} ScanHeader(s: string, i: nat, name: string)
    requires IsIdentifier(name) && At(s, i, Header(name))
    ensures Delimiters(s, i) ==
      [Delimiter(name, i, i + |Header(name)|)] + Delimiters(s, i + |Header(name)|)
  {
    hide FindFrom, Trim, Header, IsIdentifier, Delimiters;
    HeaderParts(name);
    HeaderCloses(s, i, name);
    IdentifierIsTrimmed(name);
    FoundNext(s, i, i + 6 + |name|);
  }

  /** Text without openers is skipped. */
  lemma {:induction false} SkipText(s: string, i: nat, j: nat)
    requires i <= j <= |s| && forall k: nat :: i <= k < j ==> !At(s, k, OPENER)
    ensures Delimiters(s, i) == Delimiters(s, j)
    decreases j - i
  {
    if i < j {
      SkipText(s, i + 1, j);
    }
  }

  /** Between a header and the next one an opener stands in the text. */
  lemma OpenerIsInText(s: string, pos: nat, text: string, k: nat)
    requires At(s, pos, Body(text)) && pos <= k < pos + |text| + 3 && At(s, k, OPENER)
    ensures pos < k && At(text, k - pos - 1, OPENER)
  {
    var piece := Body(text);
    CharsAt(s, pos, piece);
    assert At(piece, 1, text);
    AtPart(s, pos, piece, 1, text);
    var end := pos + 1 + |text|;
    assert s[pos + 0] == '\n' && s[pos + (1 + |text|)] == '\n' && s[pos + (2 + |text|)] == '\n';
    CharAt(s, k, OPENER, 0);
    if pos < k && k + 6 <= end {
      AtWithin(s, pos + 1, text, k, OPENER);
    } else if pos < k < end {
      CharAt(s, k, OPENER, end - k);
    }
  }

  lemma NoOpenerBetween(s: string, pos: nat, text: string)
    requires At(s, pos, Body(text)) && !HasOpener(text)
    ensures forall k: nat :: pos <= k < pos + |text| + 3 ==> !At(s, k, OPENER)
  {
    hide At, Body;
    forall k: nat | pos <= k < pos + |text| + 3
      ensures !At(s, k, OPENER)
    {
      if At(s, k, OPENER) {
        OpenerIsInText(s, pos, text, k);
      }
    }
  }

  /** The delimiters of a rendered turn that starts at `pos`. */
  function Expected(codec: Codec, fields: seq<Field>, outputs: map<string, Value>, pos: nat): (ds: seq<Delimiter>)
    ensures |ds| == |fields| + 1 && ds[0].start == pos
  {
    if fields == [] then [Delimiter(COMPLETED, pos, pos + |Header(COMPLETED)|)]
    else
      var name := fields[0].name;
      var section := Section(name, OutputText(codec, outputs, name));
      [Delimiter(name, pos, pos + |Header(name)|)] + Expected(codec, fields[1..], outputs, pos + |section|)
  }

  ghost predicate NoOpeners(codec: Codec, fields: seq<Field>, outputs: map<string, Value>) {
    forall i :: 0 <= i < |fields| ==> !HasOpener(OutputText(codec, outputs, fields[i].name))
  }

  lemma TwoPieces(s: string, pos: nat, a: string, b: string, rest: string)
    requires pos <= |s| && s[pos..] == a + b + rest
    ensures At(s, pos, a) && At(s, pos + |a|, b)
    ensures pos + |a| + |b| <= |s| && s[pos + |a| + |b|..] == rest
  {
    var tail := s[pos..];
    assert forall k :: 0 <= k < |tail| ==> s[pos + k] == tail[k];
    assert forall k :: 0 <= k < |a| ==> tail[k] == a[k];
    assert forall k :: 0 <= k < |b| ==> tail[|a| + k] == b[k];
    assert forall k :: 0 <= k < |rest| ==> tail[|a| + |b| + k] == rest[k];
  }

  /** Where the first section's pieces stand. */
  lemma SectionPieces(s: string, pos: nat, name: string, text: string, rest: string)
    requires pos <= |s| && s[pos..] == Section(name, text) + rest
    ensures At(s, pos, Header(name)) && At(s, pos + |Header(name)|, Body(text))
    ensures pos + |Section(name, text)| <= |s| && s[pos + |Section(name, text)|..] == rest
    ensures |Section(name, text)| == |Header(name)| + |text| + 3
  {
    assert |Body(text)| == |text| + 3;
    hide Header, Body, At;
    TwoPieces(s, pos, Header(name), Body(text), rest);
  }

  lemma ScanTerminator(s: string, pos: nat)
    requires pos <= |s| && s[pos..] == Header(COMPLETED) + "\n"
    ensures Delimiters(s, pos) == [Delimiter(COMPLETED, pos, pos + |Header(COMPLETED)|)]
  {
    var header := Header(COMPLETED);
    hide Header;
    assert s[pos..][..|header|] == header;
    ScanHeader(s, pos, COMPLETED);
    assert Delimiters(s, pos + |header|) == [];
  }

  lemma SkipBody(s: string, pos: nat, text: string)
    requires At(s, pos, Body(text)) && !HasOpener(text)
    ensures pos + |text| + 3 <= |s| && Delimiters(s, pos) == Delimiters(s, pos + |text| + 3)
  {
    assert |Body(text)| == |text| + 3;
    NoOpenerBetween(s, pos, text);
    SkipText(s, pos, pos + |text| + 3);
  }

  lemma ScanSection(s: string, pos: nat, name: string, text: string)
    requires At(s, pos, Header(name)) && At(s, pos + |Header(name)|, Body(text))
    requires IsIdentifier(name) && !HasOpener(text)
    ensures pos + |Header(name)| + |text| + 3 <= |s|
    ensures Delimiters(s, pos) ==
      [Delimiter(name, pos, pos + |Header(name)|)] + Delimiters(s, pos + |Header(name)| + |text| + 3)
  {
    hide Header, Body, Delimiters, At, HasOpener, IsIdentifier;
    var h := pos + |Header(name)|;
    SkipBody(s, h, text);
    ScanHeader(s, pos, name);
  }

  lemma {:induction false} ScanRendered(
      codec: Codec, fields: seq<Field>, outputs: map<string, Value>, s: string, pos: nat)
    requires pos <= |s| && s[pos..] == Rendered(codec, fields, outputs)
    requires IsSignature(fields) && NoOpeners(codec, fields, outputs)
    ensures Delimiters(s, pos) == Expected(codec, fields, outputs, pos)
  {
    hide Header, Section, Delimiters, OutputText, HasOpener, IsIdentifier;
    if fields == [] {
      ScanTerminator(s, pos);
    } else {
      var name := fields[0].name;
      var text := OutputText(codec, outputs, name);
      SectionPieces(s, pos, name, text, Rendered(codec, fields[1..], outputs));
      ScanSection(s, pos, name, text);
      ScanRendered(codec, fields[1..], outputs, s, pos + |Section(name, text)|);
    }
  }

  function Texts(codec: Codec, fields: seq<Field>, outputs: map<string, Value>): map<string, string> {
    if fields == [] then map[]
    else
      map[fields[0].name := Trim(OutputText(codec, outputs, fields[0].name))] + Texts(codec, fields[1..], outputs)
  }

  lemma SectionContent(s: string, pos: nat, name: string, text: string, rest: string)
    requires pos <= |s| && s[pos..] == Section(name, text) + rest
    ensures pos + |Header(name)| <= pos + |Section(name, text)| <= |s|
    ensures s[pos + |Section(name, text)|..] == rest
    ensures Trim(s[pos + |Header(name)|..pos + |Section(name, text)|]) == Trim(text)
  {
    SectionPieces(s, pos, name, text, rest);
    hide Header, Section, Trim, IsTrimmed;
    TrimSurrounded("\n", text, "\n\n");
  }

  lemma {:induction false} CollectRendered(
      codec: Codec, fields: seq<Field>, outputs: map<string, Value>, s: string, pos: nat, ds: seq<Delimiter>, i: nat)
    requires pos <= |s| && s[pos..] == Rendered(codec, fields, outputs)
    requires InOrder(s, ds, 0) && i <= |ds| && ds[i..] == Expected(codec, fields, outputs, pos)
    requires IsSignature(fields)
    ensures Collected(s, ds, i) == Texts(codec, fields, outputs)
    decreases |fields|
  {
    hide Header, Section, OutputText, Trim, IsIdentifier, IsTrimmed;
    assert ds[i] == ds[i..][0];
    if fields == [] {
      assert |ds| == i + 1;
      assert Collected(s, ds, i + 1) == map[];
    } else {
      var name := fields[0].name;
      var text := OutputText(codec, outputs, name);
      SectionContent(s, pos, name, text, Rendered(codec, fields[1..], outputs));
      assert ds[i + 1] == ds[i..][1];
      assert ds[i..][1..] == ds[i + 1..];
      CollectRendered(codec, fields[1..], outputs, s, pos + |Section(name, text)|, ds, i + 1);
    }
  }

  // ---------------------------------------------------------------------------
  // Reading values back
  // ---------------------------------------------------------------------------

  /** The value is one of the declared type. */
  predicate WellTyped(ty: FieldType, v: Value) {
    match ty
    case StringType => v.Str?
    case BoolType => v.Bool?
    case EnumType(values) => v.Str? && v.s in values
    case ListType(_) => v.Array?
    case OptionalType(inner) => v.Null? || WellTyped(inner, v)
  }

  /** A present optional value does not print as what stands for an absent one. */
  predicate NotNullish(codec: Codec, ty: FieldType, v: Value) {
    ty.OptionalType? && !v.Null? ==>
      && StringifyValue(codec, v) != "" && Lower(StringifyValue(codec, v)) != "null"
      && NotNullish(codec, ty.inner, v)
  }

  /** The codec reads back what it prints for this value. */
  predicate CodecKeeps(codec: Codec, v: Value) {
    v.Array? ==> codec.parse(codec.print_(v)) == Some(v)
  }

  /** The text survives the wire: trimmed, without an opener, and not taken for an absent value. */
  ghost predicate Survives(codec: Codec, ty: FieldType, v: Value) {
    IsTrimmed(StringifyValue(codec, v)) && !HasOpener(StringifyValue(codec, v)) && NotNullish(codec, ty, v)
  }

  lemma {:induction false} CoerceInverts(codec: Codec, ty: FieldType, v: Value, name: string)
    requires WellTyped(ty, v) && CodecKeeps(codec, v)
    requires IsTrimmed(StringifyValue(codec, v)) && NotNullish(codec, ty, v)
    ensures Coerce(codec, ty, StringifyValue(codec, v), name) == Ok(v)
  {
    assert Lower("null") == "null" && Lower("true") == "true" && Lower("false") == "false";
    if ty.OptionalType? && !v.Null? {
      CoerceInverts(codec, ty.inner, v, name);
    }
  }

  /** `outputs` is an object of the signature. */
  ghost predicate IsObject(fields: seq<Field>, outputs: map<string, Value>) {
    && (forall i :: 0 <= i < |fields| ==> fields[i].name in outputs)
    && (forall name :: name in outputs ==> exists i :: 0 <= i < |fields| && fields[i].name == name)
    && (forall i :: 0 <= i < |fields| ==>
          fields[i].name in outputs && WellTyped(fields[i].ty, outputs[fields[i].name]))
  }

  function Picked(fields: seq<Field>, outputs: map<string, Value>): map<string, Value>
    requires forall i :: 0 <= i < |fields| ==> fields[i].name in outputs
  {
    if fields == [] then map[]
    else map[fields[0].name := outputs[fields[0].name]] + Picked(fields[1..], outputs)
  }

  lemma {:induction false} PickedIsAll(fields: seq<Field>, outputs: map<string, Value>)
    requires forall i :: 0 <= i < |fields| ==> fields[i].name in outputs
    ensures forall name :: name in Picked(fields, outputs) <==> exists i :: 0 <= i < |fields| && fields[i].name == name
    ensures forall name :: name in Picked(fields, outputs) ==>
      name in outputs && Picked(fields, outputs)[name] == outputs[name]
  {
    if fields != [] {
      PickedIsAll(fields[1..], outputs);
      forall name | exists i :: 0 <= i < |fields| && fields[i].name == name
        ensures name in Picked(fields, outputs)
      {
        var i :| 0 <= i < |fields| && fields[i].name == name;
        assert i > 0 ==> fields[1..][i - 1].name == name;
      }
      forall name | name in Picked(fields, outputs)
        ensures exists i :: 0 <= i < |fields| && fields[i].name == name
      {
        if name != fields[0].name {
          var i :| 0 <= i < |fields[1..]| && fields[1..][i].name == name;
          assert fields[i + 1].name == name;
        }
      }
    }
  }

  lemma {:induction false} TextsNameFields(
      codec: Codec, fields: seq<Field>, outputs: map<string, Value>, name: string)
    requires name in Texts(codec, fields, outputs)
    ensures exists i :: 0 <= i < |fields| && fields[i].name == name
  {
    hide OutputText, Trim;
    if name != fields[0].name {
      TextsNameFields(codec, fields[1..], outputs, name);
      var i :| 0 <= i < |fields[1..]| && fields[1..][i].name == name;
      assert fields[i + 1].name == name;
    }
  }

  lemma {:induction false} TextsHold(codec: Codec, fields: seq<Field>, outputs: map<string, Value>)
    requires Distinct(fields)
    ensures forall i :: 0 <= i < |fields| ==>
      fields[i].name in Texts(codec, fields, outputs)
      && Texts(codec, fields, outputs)[fields[i].name] == Trim(OutputText(codec, outputs, fields[i].name))
  {
    hide OutputText, Trim, IsTrimmed;
    if fields != [] {
      var rest := fields[1..];
      TextsHold(codec, rest, outputs);
      if fields[0].name in Texts(codec, rest, outputs) {
        TextsNameFields(codec, rest, outputs, fields[0].name);
      }
      forall i | 0 <= i < |fields|
        ensures fields[i].name in Texts(codec, fields, outputs)
        ensures Texts(codec, fields, outputs)[fields[i].name] == Trim(OutputText(codec, outputs, fields[i].name))
      {
        assert i > 0 ==> fields[i] == rest[i - 1];
      }
    }
  }

  lemma {:induction false} CoerceAllInverts(
      codec: Codec, fields: seq<Field>, outputs: map<string, Value>, texts: map<string, string>)
    requires Distinct(fields)
    requires forall i :: 0 <= i < |fields| ==> fields[i].name in outputs && fields[i].name in texts
    requires forall i :: 0 <= i < |fields| ==>
      Coerce(codec, fields[i].ty, texts[fields[i].name], fields[i].name) == Ok(outputs[fields[i].name])
    ensures CoerceAll(codec, fields, texts) == Ok(Picked(fields, outputs))
  {
    hide Coerce;
    if fields != [] {
      var rest, left := fields[1..], texts - {fields[0].name};
      forall i | 0 <= i < |rest|
        ensures rest[i].name in outputs && rest[i].name in left
        ensures Coerce(codec, rest[i].ty, left[rest[i].name], rest[i].name) == Ok(outputs[rest[i].name])
      {
        assert rest[i] == fields[i + 1];
      }
      CoerceAllInverts(codec, rest, outputs, left);
    }
  }

  lemma {:induction false} LastIsCompleted(codec: Codec, fields: seq<Field>, outputs: map<string, Value>, pos: nat)
    ensures Expected(codec, fields, outputs, pos)[|fields|].name == COMPLETED
  {
    if fields != [] {
      var section := Section(fields[0].name, OutputText(codec, outputs, fields[0].name));
      LastIsCompleted(codec, fields[1..], outputs, pos + |section|);
    }
  }

  /** The scan of a rendered turn and the texts it collects. */
  lemma ParseRendered(codec: Codec, fields: seq<Field>, outputs: map<string, Value>)
    requires IsSignature(fields)
    requires NoOpeners(codec, fields, outputs)
    ensures Parsed(codec, fields, Rendered(codec, fields, outputs)) ==
      CoerceAll(codec, fields, Texts(codec, fields, outputs))
  {
    hide Rendered, Delimiters, CoerceAll, Collected, Texts, OutputText, IsSignature;
    var s := Rendered(codec, fields, outputs);
    assert s[0..] == s;
    ScanRendered(codec, fields, outputs, s, 0);
    var ds := Delimiters(s, 0);
    DelimitersInOrder(s, 0);
    assert ds[0..] == ds;
    CollectRendered(codec, fields, outputs, s, 0, ds, 0);
    LastIsCompleted(codec, fields, outputs, 0);
  }

  lemma PickedIsObject(fields: seq<Field>, outputs: map<string, Value>)
    requires IsObject(fields, outputs)
    ensures Picked(fields, outputs) == outputs
  {
    hide WellTyped, Picked;
    PickedIsAll(fields, outputs);
  }

  /** Parsing a rendered turn gives the object back, for every text that survives the wire. */
  lemma RoundTrip(codec: Codec, fields: seq<Field>, outputs: map<string, Value>)
    requires IsSignature(fields) && IsObject(fields, outputs)
    requires forall i :: 0 <= i < |fields| ==>
      Survives(codec, fields[i].ty, outputs[fields[i].name]) && CodecKeeps(codec, outputs[fields[i].name])
    ensures Parsed(codec, fields, Rendered(codec, fields, outputs)) == Ok(outputs)
  {
    hide Rendered, Coerce, CoerceAll, Texts, StringifyValue, IsTrimmed, HasOpener, Parsed, IsIdentifier;
    hide CodecKeeps, NotNullish, WellTyped;
    ParseRendered(codec, fields, outputs);
    TextsHold(codec, fields, outputs);
    var texts := Texts(codec, fields, outputs);
    forall i | 0 <= i < |fields|
      ensures Coerce(codec, fields[i].ty, texts[fields[i].name], fields[i].name) == Ok(outputs[fields[i].name])
    {
      CoerceInverts(codec, fields[i].ty, outputs[fields[i].name], fields[i].name);
    }
    CoerceAllInverts(codec, fields, outputs, texts);
    PickedIsObject(fields, outputs);
  }
}

/**
 * When a chat turn comes back as it was: exactly when every string is trimmed and holds no opener,
 * every list is read back from its trimmed text, and no present optional text is blank or reads
 * `null`. A string with an opener never comes back, whatever the other sections hold.
 */
module ChatRoundTrip {
  import opened Prelude
  import opened Text
  import opened ChatAdapter

  // ---------------------------------------------------------------------------
  // What a successful parse read
  // ---------------------------------------------------------------------------

  lemma {:induction false} CoercedFrom(
      codec: Codec, fields: seq<Field>, texts: map<string, string>, m: map<string, Value>, i: nat)
    requires Distinct(fields) && i < |fields| && CoerceAll(codec, fields, texts) == Ok(m)
    ensures fields[i].name in texts && fields[i].name in m
    ensures Coerce(codec, fields[i].ty, texts[fields[i].name], fields[i].name) == Ok(m[fields[i].name])
  {
    hide Coerce;
    var rest, left := fields[1..], texts - {fields[0].name};
    var tail := CoerceAll(codec, rest, left);
    if i == 0 {
      if fields[0].name in tail.value {
        OnlyFieldsAreSet(codec, rest, left, tail.value, fields[0].name);
      }
    } else {
      assert rest[i - 1] == fields[i];
      CoercedFrom(codec, rest, left, tail.value, i - 1);
    }
  }

  lemma {:induction false} OnlyFieldsAreSet(
      codec: Codec, fields: seq<Field>, texts: map<string, string>, m: map<string, Value>, name: string)
    requires CoerceAll(codec, fields, texts) == Ok(m) && name in m
    ensures name in texts
  {
    hide Coerce;
    if fields != [] && name != fields[0].name {
      var left := texts - {fields[0].name};
      OnlyFieldsAreSet(codec, fields[1..], left, CoerceAll(codec, fields[1..], left).value, name);
    }
  }

  lemma {:induction false} CollectedFrom(s: string, ds: seq<Delimiter>, i: nat, name: string) returns (k: nat)
    requires InOrder(s, ds, 0) && i <= |ds| && name in Collected(s, ds, i)
    ensures i <= k < |ds| && ds[k].name == name && Collected(s, ds, i)[name] == Content(s, ds, k)
    decreases |ds| - i
  {
    hide Trim;
    if name in Collected(s, ds, i + 1) {
      k := CollectedFrom(s, ds, i + 1, name);
    } else {
      k := i;
    }
  }

  /** A string that was read is the raw text. */
  lemma {:induction false} ReadStringIsRaw(codec: Codec, ty: FieldType, raw: string, text: string, name: string)
    requires WellTyped(ty, Str(text)) && IsTrimmed(raw) && Coerce(codec, ty, raw, name) == Ok(Str(text))
    ensures raw == text
  {
    if ty.OptionalType? {
      ReadStringIsRaw(codec, ty.inner, raw, text, name);
    }
  }

  lemma {:induction false} TrimIsSlice(s: string) returns (from: nat)
    ensures from + |Trim(s)| <= |s| && Trim(s) == s[from..from + |Trim(s)|]
    decreases |s|
  {
    hide IsWhite;
    if s != "" && IsWhite(s[0]) {
      from := TrimIsSlice(s[1..]);
      assert s[1..][from..from + |Trim(s)|] == s[from + 1..from + 1 + |Trim(s)|];
      from := from + 1;
    } else if s != "" && IsWhite(s[|s| - 1]) {
      from := TrimIsSlice(s[..|s| - 1]);
    } else {
      from := 0;
    }
  }

  // ---------------------------------------------------------------------------
  // Contents hold no opener
  // ---------------------------------------------------------------------------

  lemma {:induction false} OrderIsTransitive(s: string, ds: seq<Delimiter>, i: nat, k: nat)
    requires InOrder(s, ds, 0) && i < k < |ds|
    ensures ds[i].end <= ds[k].start
    decreases k - i
  {
    if i + 1 < k {
      OrderIsTransitive(s, ds, i, k - 1);
    }
  }

  /** Where a closer still follows, the space between two delimiters holds no opener. */
  lemma GapHasNoOpener(s: string, k: nat, p: nat, c: nat)
    requires InOrder(s, Delimiters(s, 0), 0) && k < |Delimiters(s, 0)|
    requires Delimiters(s, 0)[k].end <= p && p + 6 <= ContentEnd(s, Delimiters(s, 0), k)
    requires p + 6 <= c && At(s, c, CLOSER)
    ensures !At(s, p, OPENER)
  {
    if At(s, p, OPENER) {
      var ds := Delimiters(s, 0);
      var m := OpenersAreCovered(s, 0, p, c);
      hide Delimiters, At;
      if m < k {
        OrderIsTransitive(s, ds, m, k);
      } else if m > k + 1 {
        OrderIsTransitive(s, ds, k + 1, m);
      }
    }
  }

  function Ending(): string {
    Header(COMPLETED) + "\n"
  }

  lemma {:induction false} EndsWithTerminator(codec: Codec, fields: seq<Field>, outputs: map<string, Value>)
    ensures var s := Rendered(codec, fields, outputs); |s| >= |Ending()| && s[|s| - |Ending()|..] == Ending()
  {
    hide Header, Section, OutputText;
    if fields != [] {
      EndsWithTerminator(codec, fields[1..], outputs);
      var s, rest := Rendered(codec, fields, outputs), Rendered(codec, fields[1..], outputs);
      var section := Section(fields[0].name, OutputText(codec, outputs, fields[0].name));
      assert s == section + rest;
      assert s[|s| - |Ending()|..] == rest[|rest| - |Ending()|..];
    }
  }

  /** In a text that ends with the terminator, a closer follows every opener. */
  lemma CloserFollows(s: string, p: nat) returns (c: nat)
    requires |s| >= |Ending()| && s[|s| - |Ending()|..] == Ending()
    requires At(s, p, OPENER)
    ensures p + 6 <= c && At(s, c, CLOSER)
  {
    var start, ending := |s| - |Ending()|, Ending();
    assert |ending| == 22;
    c := start + 15;
    assert forall k :: 0 <= k < 22 ==> s[start + k] == ending[k];
    assert s[c..c + 6] == CLOSER;
    CharAt(s, p, OPENER, 0);
    assert forall k :: 6 <= k < 22 ==> ending[k] != '[';
  }

  lemma ContentHasNoOpener(s: string, k: nat)
    requires |s| >= |Ending()| && s[|s| - |Ending()|..] == Ending()
    requires InOrder(s, Delimiters(s, 0), 0) && k < |Delimiters(s, 0)|
    ensures !HasOpener(Content(s, Delimiters(s, 0), k))
  {
    hide Header, Trim, Delimiters;
    var ds := Delimiters(s, 0);
    var start, end := ds[k].end, ContentEnd(s, ds, k);
    assert end <= |s| && start <= end;
    var gap := s[start..end];
    var content := Content(s, ds, k);
    var from := TrimIsSlice(gap);
    forall q: nat
      ensures !At(content, q, OPENER)
    {
      if At(content, q, OPENER) {
        var p := start + from + q;
        AtPart(gap, from, content, q, OPENER);
        AtPart(s, start, gap, from + q, OPENER);
        var c := CloserFollows(s, p);
        GapHasNoOpener(s, k, p, c);
      }
    }
  }

  // ---------------------------------------------------------------------------
  // The condition
  // ---------------------------------------------------------------------------

  /** The text, once trimmed, is read as the value that it was printed from. */
  predicate ReadsBack(codec: Codec, ty: FieldType, v: Value) {
    var text := Trim(StringifyValue(codec, v));
    && (v.Str? ==> text == v.s)
    && (v.Array? ==> codec.parse(text) == Some(v))
    && (ty.OptionalType? && !v.Null? ==> text != "" && Lower(text) != "null")
  }

  lemma {:induction false} CoercesBackIff(codec: Codec, ty: FieldType, v: Value, name: string)
    requires WellTyped(ty, v)
    ensures Coerce(codec, ty, Trim(StringifyValue(codec, v)), name) == Ok(v) <==> ReadsBack(codec, ty, v)
  {
    hide Trim;
    PlainWords();
    if ty.OptionalType? && !v.Null? {
      CoercesBackIff(codec, ty.inner, v, name);
    }
  }

  lemma PlainWords()
    ensures Trim("null") == "null" && Trim("true") == "true" && Trim("false") == "false"
    ensures Lower("null") == "null" && Lower("true") == "true" && Lower("false") == "false"
  {
  }

  /** What came back, and is not a list, was printed without an opener. */
  lemma WhatComesBackHasNoOpener(codec: Codec, fields: seq<Field>, outputs: map<string, Value>, i: nat)
    requires IsSignature(fields) && IsObject(fields, outputs)
    requires i < |fields| && !outputs[fields[i].name].Array?
    requires Parsed(codec, fields, Rendered(codec, fields, outputs)) == Ok(outputs)
    ensures !HasOpener(StringifyValue(codec, outputs[fields[i].name]))
  {
    hide Rendered, Delimiters, Coerce, CoerceAll, Collected, HasOpener, IsIdentifier, Trim;
    var s := Rendered(codec, fields, outputs);
    var ds := Delimiters(s, 0);
    DelimitersInOrder(s, 0);
    var name, v := fields[i].name, outputs[fields[i].name];
    CoercedFrom(codec, fields, Collected(s, ds, 0), outputs, i);
    var k := CollectedFrom(s, ds, 0, name);
    EndsWithTerminator(codec, fields, outputs);
    ContentHasNoOpener(s, k);
    if v.Str? {
      ReadStringIsRaw(codec, fields[i].ty, Content(s, ds, k), v.s, name);
    } else {
      hide WellTyped;
      NullOrBool(fields[i].ty, v);
      ShortHasNoOpener(StringifyValue(codec, v));
    }
  }

  lemma ShortHasNoOpener(text: string)
    requires |text| < 6
    ensures !HasOpener(text)
  {
  }

  lemma {:induction false} NullOrBool(ty: FieldType, v: Value)
    requires WellTyped(ty, v) && !v.Str? && !v.Array?
    ensures v.Null? || v.Bool?
  {
    if ty.OptionalType? && !v.Null? {
      NullOrBool(ty.inner, v);
    }
  }

  // ---------------------------------------------------------------------------
  // Lists whose text holds an opener
  // ---------------------------------------------------------------------------

  /** No text shorter than the one printed is read as this value. */
  ghost predicate PrintsShortest(codec: Codec, v: Value) {
    forall text :: codec.parse(text) == Some(v) ==> |text| >= |codec.print_(v)|
  }

  lemma NoOpenerInHeader(s: string, pos: nat, name: string, p: nat)
    requires At(s, pos, Header(name)) && IsIdentifier(name) && pos < p < pos + |Header(name)|
    ensures !At(s, p, OPENER)
  {
    var header := Header(name);
    CharsAt(s, pos, header);
    assert s[pos + (p - pos)] == header[p - pos] && s[pos + 2] == header[2];
    if At(s, p, OPENER) {
      CharsAt(s, p, OPENER);
    }
  }

  /** Every opener of a rendered turn starts a section or stands in the text of one. */
  lemma {:induction false} OpenerStands(
      codec: Codec, fields: seq<Field>, outputs: map<string, Value>, s: string, pos: nat, p: nat)
    returns (j: nat, start: nat)
    requires pos <= |s| && s[pos..] == Rendered(codec, fields, outputs) && IsSignature(fields)
    requires pos <= p && At(s, p, OPENER)
    ensures j <= |fields| && start <= p && start <= |s| && s[start..] == Rendered(codec, fields[j..], outputs)
    ensures p == start || (j < |fields| && InText(codec, outputs, fields[j].name, start, p))
  {
    hide Header, Section, OutputText, IsIdentifier, At, Body;
    if p == pos {
      j, start := 0, pos;
    } else if fields == [] {
      OnlyTerminator(s, pos, p);
    } else {
      var name, rest := fields[0].name, Rendered(codec, fields[1..], outputs);
      var text := OutputText(codec, outputs, name);
      SectionPieces(s, pos, name, text, rest);
      var next := pos + |Section(name, text)|;
      if next <= p {
        j, start := OpenerStands(codec, fields[1..], outputs, s, next, p);
        assert fields[1..][j..] == fields[j + 1..];
        j := j + 1;
      } else {
        j, start := 0, pos;
        if p < pos + |Header(name)| {
          NoOpenerInHeader(s, pos, name, p);
        } else {
          OpenerIsInText(s, pos + |Header(name)|, text, p);
        }
      }
    }
  }

  /** Position `p` starts an opener in the text of the section at `start`. */
  ghost predicate InText(codec: Codec, outputs: map<string, Value>, name: string, start: nat, p: nat) {
    var q := p - start - |Header(name)| - 1;
    q >= 0 && At(OutputText(codec, outputs, name), q, OPENER)
  }

  lemma OnlyTerminator(s: string, pos: nat, p: nat)
    requires pos <= |s| && s[pos..] == Header(COMPLETED) + "\n" && pos < p
    ensures !At(s, p, OPENER)
  {
    var header := Header(COMPLETED);
    assert |s| == pos + |header| + 1 && s[pos..][..|header|] == header;
    hide Header;
    if p < pos + |header| {
      NoOpenerInHeader(s, pos, COMPLETED, p);
    }
  }

  lemma RenderedOpens(codec: Codec, fields: seq<Field>, outputs: map<string, Value>, s: string, pos: nat)
    requires pos <= |s| && s[pos..] == Rendered(codec, fields, outputs)
    ensures At(s, pos, OPENER)
  {
    hide OutputText;
    var tail := s[pos..];
    assert |tail| >= 6 && tail[..6] == OPENER;
  }

  lemma {:induction false} TrimKeeps(raw: string, i: nat)
    requires i < |raw| && !IsWhite(raw[i])
    ensures raw[i] in Trim(raw)
    decreases |raw|
  {
    hide IsWhite;
    if IsWhite(raw[0]) {
      TrimKeeps(raw[1..], i - 1);
    } else if IsWhite(raw[|raw| - 1]) {
      TrimKeeps(raw[..|raw| - 1], i);
    }
  }

  /** A delimiter of a proper name ends before the next bracket opens. */
  lemma NameEndsBefore(s: string, d: Delimiter, p: nat)
    requires IsDelimiter(s, d) && IsIdentifier(d.name) && d.start + 6 <= p < |s| && s[p] == '['
    ensures d.end <= p
  {
    if p < d.end - 6 {
      TrimKeeps(s[d.start + 6..d.end - 6], p - d.start - 6);
    } else if p < d.end {
      CharAt(s, d.end - 6, CLOSER, p - (d.end - 6));
    }
  }

  /** A delimiter that stands where a header does is that header. */
  lemma HeaderIsDelimiter(s: string, d: Delimiter, name: string)
    requires IsDelimiter(s, d) && IsIdentifier(name) && At(s, d.start, Header(name))
    ensures d.name == name && d.end == d.start + |Header(name)|
  {
    HeaderParts(name);
    HeaderCloses(s, d.start, name);
    IdentifierIsTrimmed(name);
    hide FindFrom, Trim, Header, IsIdentifier, At;
    assert s[d.start + 6..d.end - 6] == name by { CharsAt(s, d.start + 6, name); }
  }

  /** An opener behind a delimiter ends its content. */
  lemma CutAtOpener(s: string, k: nat, p: nat, c: nat)
    requires InOrder(s, Delimiters(s, 0), 0) && k < |Delimiters(s, 0)|
    requires Delimiters(s, 0)[k].end <= p && At(s, p, OPENER) && p + 6 <= c && At(s, c, CLOSER)
    ensures
      var end, content := Delimiters(s, 0)[k].end, Content(s, Delimiters(s, 0), k);
      && |content| <= p + 5 - end
      && (IsWhite(s[end]) ==> content == "" || |content| <= p + 4 - end)
  {
    hide Delimiters, At, IsWhite;
    var ds := Delimiters(s, 0);
    if p + 6 <= ContentEnd(s, ds, k) {
      GapHasNoOpener(s, k, p, c);
    }
    var gap := s[ds[k].end..ContentEnd(s, ds, k)];
    assert gap != "" ==> gap[0] == s[ds[k].end];
  }

  /** The rendered turn has this delimiter. */
  ghost predicate IsTurn(codec: Codec, fields: seq<Field>, outputs: map<string, Value>, s: string, k: nat) {
    && s == Rendered(codec, fields, outputs) && IsSignature(fields)
    && k < |Delimiters(s, 0)| && InOrder(s, Delimiters(s, 0), 0) && IsDelimiter(s, Delimiters(s, 0)[k])
    && |s| >= |Ending()| && s[|s| - |Ending()|..] == Ending()
  }

  /** From `start` on stand the sections of the fields from `j` on. */
  ghost predicate SectionsFrom(
    codec: Codec, fields: seq<Field>, outputs: map<string, Value>, s: string, start: nat, j: nat)
  {
    start <= |s| && j <= |fields| && s[start..] == Rendered(codec, fields[j..], outputs)
  }

  /** Its section has a header, a body, and the next section behind it. */
  lemma SectionStands(
    codec: Codec, fields: seq<Field>, outputs: map<string, Value>, s: string, start: nat, j: nat)
    requires SectionsFrom(codec, fields, outputs, s, start, j) && j < |fields|
    ensures
      var name, text := fields[j].name, OutputText(codec, outputs, fields[j].name);
      var end := start + |Header(name)|;
      && At(s, start, Header(name)) && end + |text| + 3 <= |s| && At(s, end, Body(text))
      && s[end] == '\n' && At(s, end + 1, text)
      && At(s, end + |text| + 3, OPENER)
  {
    var name, text := fields[j].name, OutputText(codec, outputs, fields[j].name);
    assert fields[j..][0] == fields[j] && fields[j..][1..] == fields[j + 1..];
    SectionPieces(s, start, name, text, Rendered(codec, fields[j + 1..], outputs));
    hide Header, Section, OutputText;
    var end := start + |Header(name)|;
    CharAt(s, end, Body(text), 0);
    assert At(Body(text), 1, text);
    AtPart(s, end, Body(text), 1, text);
    RenderedOpens(codec, fields[j + 1..], outputs, s, end + |text| + 3);
  }

  /** A delimiter at the start of a section bears its name. */
  lemma NameOfSection(codec: Codec, fields: seq<Field>, outputs: map<string, Value>, s: string, k: nat, j: nat)
    requires IsTurn(codec, fields, outputs, s, k)
    requires SectionsFrom(codec, fields, outputs, s, Delimiters(s, 0)[k].start, j)
    ensures
      var d, name := Delimiters(s, 0)[k], if j < |fields| then fields[j].name else COMPLETED;
      d.name == name && d.end == d.start + |Header(name)|
  {
    hide Header, Section, OutputText, Delimiters, IsDelimiter, At;
    var d := Delimiters(s, 0)[k];
    if j < |fields| {
      SectionStands(codec, fields, outputs, s, d.start, j);
      HeaderIsDelimiter(s, d, fields[j].name);
    } else {
      assert fields[j..] == [];
      StartsWithTerminator(s, d.start);
      HeaderIsDelimiter(s, d, COMPLETED);
    }
  }

  lemma StartsWithTerminator(s: string, pos: nat)
    requires pos <= |s| && s[pos..] == Header(COMPLETED) + "\n"
    ensures At(s, pos, Header(COMPLETED))
  {
    var header := Header(COMPLETED);
    assert s[pos..][..|header|] == header;
  }

  lemma OpenerInOwnText(codec: Codec, fields: seq<Field>, outputs: map<string, Value>, s: string, start: nat, j: nat)
    returns (p: nat)
    requires SectionsFrom(codec, fields, outputs, s, start, j) && j < |fields|
    requires HasOpener(OutputText(codec, outputs, fields[j].name))
    ensures
      var end, text := start + |Header(fields[j].name)|, OutputText(codec, outputs, fields[j].name);
      end < |s| && s[end] == '\n' && end < p && p + 6 <= end + 1 + |text| && At(s, p, OPENER)
  {
    var end, text := start + |Header(fields[j].name)|, OutputText(codec, outputs, fields[j].name);
    var q: nat :| At(text, q, OPENER);
    hide Header, OutputText, HasOpener, Body, Rendered;
    SectionStands(codec, fields, outputs, s, start, j);
    p := end + 1 + q;
    AtPart(s, end + 1, text, q, OPENER);
  }

  /** Behind its own header, the text of the field is cut at its opener. */
  lemma CutInOwnText(codec: Codec, fields: seq<Field>, outputs: map<string, Value>, s: string, k: nat, j: nat)
    requires IsTurn(codec, fields, outputs, s, k) && j < |fields|
    requires SectionsFrom(codec, fields, outputs, s, Delimiters(s, 0)[k].start, j)
    requires HasOpener(OutputText(codec, outputs, fields[j].name))
    ensures |Content(s, Delimiters(s, 0), k)| < |OutputText(codec, outputs, fields[j].name)|
  {
    hide Header, OutputText, Delimiters, IsDelimiter, HasOpener, Content, IsSignature, Rendered, InOrder, At;
    hide SectionsFrom;
    NameOfSection(codec, fields, outputs, s, k, j);
    var p := OpenerInOwnText(codec, fields, outputs, s, Delimiters(s, 0)[k].start, j);
    var c := CloserFollows(s, p);
    CutAtOpener(s, k, p, c);
    WhiteNewline();
  }

  lemma WhiteNewline()
    ensures IsWhite('\n')
  {
  }

  /** The next section begins behind a delimiter inside a text. */
  lemma NextIsBehind(
    codec: Codec, fields: seq<Field>, outputs: map<string, Value>, s: string, d: Delimiter, start: nat, j: nat)
    returns (next: nat)
    requires SectionsFrom(codec, fields, outputs, s, start, j) && j < |fields|
    requires IsDelimiter(s, d) && IsIdentifier(d.name)
    requires InText(codec, outputs, fields[j].name, start, d.start)
    ensures HasOpener(OutputText(codec, outputs, fields[j].name))
    ensures d.start + 12 <= d.end <= next && At(s, next, OPENER)
    ensures next <= d.start + |OutputText(codec, outputs, fields[j].name)| + 2
  {
    SectionStands(codec, fields, outputs, s, start, j);
    hide Header, OutputText, IsIdentifier, Rendered, Body;
    next := start + |Header(fields[j].name)| + |OutputText(codec, outputs, fields[j].name)| + 3;
    CharAt(s, next, OPENER, 0);
    NameEndsBefore(s, d, next);
  }

  /** Behind a delimiter inside a text, what is left of it is shorter. */
  lemma CutInOtherText(
    codec: Codec, fields: seq<Field>, outputs: map<string, Value>, s: string, k: nat, start: nat, j: nat)
    requires IsTurn(codec, fields, outputs, s, k) && j < |fields| && IsIdentifier(Delimiters(s, 0)[k].name)
    requires SectionsFrom(codec, fields, outputs, s, start, j)
    requires InText(codec, outputs, fields[j].name, start, Delimiters(s, 0)[k].start)
    ensures HasOpener(OutputText(codec, outputs, fields[j].name))
    ensures |Content(s, Delimiters(s, 0), k)| < |OutputText(codec, outputs, fields[j].name)|
  {
    hide Header, OutputText, Delimiters, IsDelimiter, HasOpener, Content, IsSignature, Rendered, InOrder, At;
    hide IsIdentifier, SectionsFrom, InText;
    var next := NextIsBehind(codec, fields, outputs, s, Delimiters(s, 0)[k], start, j);
    var c := CloserFollows(s, next);
    CutAtOpener(s, k, next, c);
  }

  /** The content behind a delimiter of this name is shorter than some text that holds an opener. */
  lemma {:induction false} ContentIsShort(
      codec: Codec, fields: seq<Field>, outputs: map<string, Value>, s: string, k: nat, i: nat)
    returns (j: nat)
    requires IsTurn(codec, fields, outputs, s, k) && i < |fields| && Delimiters(s, 0)[k].name == fields[i].name
    requires HasOpener(OutputText(codec, outputs, fields[i].name))
    ensures j < |fields| && HasOpener(OutputText(codec, outputs, fields[j].name))
    ensures |Content(s, Delimiters(s, 0), k)| < |OutputText(codec, outputs, fields[j].name)|
  {
    var d := Delimiters(s, 0)[k];
    assert At(s, d.start, OPENER) && s[0..] == s;
    hide Rendered, Delimiters, OutputText, IsIdentifier, Content, HasOpener, InText, IsDelimiter, At;
    var start: nat;
    j, start := OpenerStands(codec, fields, outputs, s, 0, d.start);
    if d.start == start {
      NameOfSection(codec, fields, outputs, s, k, j);
      assert j == i;
      CutInOwnText(codec, fields, outputs, s, k, j);
    } else {
      CutInOtherText(codec, fields, outputs, s, k, start, j);
    }
  }

  /** No text with an opener among the fields is longer. */
  ghost predicate IsLongest(codec: Codec, fields: seq<Field>, outputs: map<string, Value>, i: nat) {
    && i < |fields|
    && forall j :: 0 <= j < |fields| && HasOpener(OutputText(codec, outputs, fields[j].name)) ==>
         |OutputText(codec, outputs, fields[j].name)| <= |OutputText(codec, outputs, fields[i].name)|
  }

  lemma {:induction false} LongestWithOpener(
      codec: Codec, fields: seq<Field>, outputs: map<string, Value>, i: nat)
    returns (longest: nat)
    requires i < |fields| && HasOpener(OutputText(codec, outputs, fields[i].name))
    ensures longest < |fields| && HasOpener(OutputText(codec, outputs, fields[longest].name))
    ensures IsLongest(codec, fields, outputs, longest)
    decreases |fields|
  {
    hide HasOpener, OutputText;
    var last := |fields| - 1;
    longest := last;
    if j :| 0 <= j < last && HasOpener(OutputText(codec, outputs, fields[j].name)) {
      assert fields[..last][j] == fields[j];
      var before := LongestWithOpener(codec, fields[..last], outputs, j);
      if !HasOpener(OutputText(codec, outputs, fields[last].name))
        || |OutputText(codec, outputs, fields[last].name)| <= |OutputText(codec, outputs, fields[before].name)| {
        longest := before;
      }
      assert forall m :: 0 <= m < last ==> fields[..last][m] == fields[m];
    }
  }

  /** A list that was read was parsed from the raw text. */
  lemma {:induction false} ReadListIsParsed(codec: Codec, ty: FieldType, raw: string, v: Value, name: string)
    requires WellTyped(ty, v) && v.Array? && IsTrimmed(raw) && Coerce(codec, ty, raw, name) == Ok(v)
    ensures codec.parse(raw) == Some(v)
  {
    if ty.OptionalType? {
      ReadListIsParsed(codec, ty.inner, raw, v, name);
    }
  }

  /** Where a field's value was read from. */
  lemma {:induction false} ReadFrom(codec: Codec, fields: seq<Field>, outputs: map<string, Value>, i: nat)
    returns (s: string, k: nat)
    requires IsSignature(fields) && i < |fields|
    requires Parsed(codec, fields, Rendered(codec, fields, outputs)) == Ok(outputs)
    ensures IsTurn(codec, fields, outputs, s, k) && Delimiters(s, 0)[k].name == fields[i].name
    ensures fields[i].name in outputs
    ensures Coerce(codec, fields[i].ty, Content(s, Delimiters(s, 0), k), fields[i].name) == Ok(outputs[fields[i].name])
  {
    s := Rendered(codec, fields, outputs);
    EndsWithTerminator(codec, fields, outputs);
    hide Rendered, Delimiters, Coerce, CoerceAll, Collected, IsIdentifier, Trim, IsDelimiter, Content;
    var ds := Delimiters(s, 0);
    DelimitersInOrder(s, 0);
    FoundAreDelimiters(s, 0);
    CoercedFrom(codec, fields, Collected(s, ds, 0), outputs, i);
    k := CollectedFrom(s, ds, 0, fields[i].name);
  }

  /** A list whose text is the longest with an opener is lost, unless something shorter is read as it. */
  lemma {:induction false} LongestIsLost(codec: Codec, fields: seq<Field>, outputs: map<string, Value>, i: nat)
    requires IsSignature(fields) && IsObject(fields, outputs) && i < |fields|
    requires outputs[fields[i].name].Array? && PrintsShortest(codec, outputs[fields[i].name])
    requires HasOpener(OutputText(codec, outputs, fields[i].name)) && IsLongest(codec, fields, outputs, i)
    ensures Parsed(codec, fields, Rendered(codec, fields, outputs)) != Ok(outputs)
  {
    hide Rendered, Delimiters, Coerce, Parsed, HasOpener, IsIdentifier, WellTyped, Trim;
    if Parsed(codec, fields, Rendered(codec, fields, outputs)) == Ok(outputs) {
      var s, k := ReadFrom(codec, fields, outputs, i);
      var j := ContentIsShort(codec, fields, outputs, s, k, i);
      var text, v := Content(s, Delimiters(s, 0), k), outputs[fields[i].name];
      ReadListIsParsed(codec, fields[i].ty, text, v, fields[i].name);
    }
  }

  /** If all lists with openers are printed as short as can be, nothing that came back holds an opener. */
  lemma {:induction false} NothingWithOpenerComesBack(
      codec: Codec, fields: seq<Field>, outputs: map<string, Value>, i: nat)
    requires IsSignature(fields) && IsObject(fields, outputs) && i < |fields|
    requires forall j :: 0 <= j < |fields| ==> PrintsTightly(codec, outputs[fields[j].name])
    requires Parsed(codec, fields, Rendered(codec, fields, outputs)) == Ok(outputs)
    ensures !HasOpener(OutputText(codec, outputs, fields[i].name))
  {
    hide Rendered, Parsed, HasOpener, IsSignature, WellTyped, PrintsShortest, IsLongest;
    if HasOpener(OutputText(codec, outputs, fields[i].name)) {
      var longest := LongestWithOpener(codec, fields, outputs, i);
      if outputs[fields[longest].name].Array? {
        assert PrintsTightly(codec, outputs[fields[longest].name]);
        LongestIsLost(codec, fields, outputs, longest);
      } else {
        WhatComesBackHasNoOpener(codec, fields, outputs, longest);
      }
    }
  }

  /** A list that prints without an opener, or as short as can be. Other values are no matter. */
  ghost predicate PrintsTightly(codec: Codec, v: Value) {
    v.Array? ==> !HasOpener(StringifyValue(codec, v)) || PrintsShortest(codec, v)
  }

  /** What each field must meet to come back. */
  ghost predicate ComesBack(codec: Codec, fields: seq<Field>, outputs: map<string, Value>, i: nat)
    requires i < |fields| && fields[i].name in outputs
  {
    && !HasOpener(StringifyValue(codec, outputs[fields[i].name]))
    && ReadsBack(codec, fields[i].ty, outputs[fields[i].name])
  }

  lemma WithoutOpeners(codec: Codec, fields: seq<Field>, outputs: map<string, Value>)
    requires IsSignature(fields) && IsObject(fields, outputs)
    requires forall i :: 0 <= i < |fields| ==> !HasOpener(StringifyValue(codec, outputs[fields[i].name]))
    ensures Parsed(codec, fields, Rendered(codec, fields, outputs)) == Ok(outputs)
      <==> forall i :: 0 <= i < |fields| ==> ReadsBack(codec, fields[i].ty, outputs[fields[i].name])
  {
    hide Rendered, Coerce, CoerceAll, Texts, StringifyValue, HasOpener, Parsed, IsIdentifier, Trim;
    hide ReadsBack, WellTyped;
    ParseRendered(codec, fields, outputs);
    TextsHold(codec, fields, outputs);
    var texts := Texts(codec, fields, outputs);
    forall i | 0 <= i < |fields|
      ensures Coerce(codec, fields[i].ty, texts[fields[i].name], fields[i].name) == Ok(outputs[fields[i].name])
        <==> ReadsBack(codec, fields[i].ty, outputs[fields[i].name])
    {
      CoercesBackIff(codec, fields[i].ty, outputs[fields[i].name], fields[i].name);
    }
    if CoerceAll(codec, fields, texts) == Ok(outputs) {
      forall i | 0 <= i < |fields|
        ensures ReadsBack(codec, fields[i].ty, outputs[fields[i].name])
      {
        CoercedFrom(codec, fields, texts, outputs, i);
      }
    }
    if forall i :: 0 <= i < |fields| ==> ReadsBack(codec, fields[i].ty, outputs[fields[i].name]) {
      CoerceAllInverts(codec, fields, outputs, texts);
      PickedIsObject(fields, outputs);
    }
  }

  /**
   * For every signature and every well-typed object of which each list prints without an opener or as short
   * as can be: parsing the rendered turn gives exactly the object back iff every field comes back.
   */
  lemma RoundTripIff(codec: Codec, fields: seq<Field>, outputs: map<string, Value>)
    requires IsSignature(fields) && IsObject(fields, outputs)
    requires forall i :: 0 <= i < |fields| ==> PrintsTightly(codec, outputs[fields[i].name])
    ensures Parsed(codec, fields, Rendered(codec, fields, outputs)) == Ok(outputs)
        <==> forall i :: 0 <= i < |fields| ==> ComesBack(codec, fields, outputs, i)
  {
    hide Rendered, Parsed, WellTyped, IsIdentifier, HasOpener, ReadsBack, StringifyValue, PrintsTightly;
    if Parsed(codec, fields, Rendered(codec, fields, outputs)) == Ok(outputs) {
      forall i | 0 <= i < |fields|
        ensures !HasOpener(StringifyValue(codec, outputs[fields[i].name]))
      {
        NothingWithOpenerComesBack(codec, fields, outputs, i);
      }
      WithoutOpeners(codec, fields, outputs);
    } else if forall i :: 0 <= i < |fields| ==> ComesBack(codec, fields, outputs, i) {
      forall i | 0 <= i < |fields|
        ensures !HasOpener(StringifyValue(codec, outputs[fields[i].name]))
        ensures ReadsBack(codec, fields[i].ty, outputs[fields[i].name])
      {
        assert ComesBack(codec, fields, outputs, i);
      }
      WithoutOpeners(codec, fields, outputs);
    }
  }
}

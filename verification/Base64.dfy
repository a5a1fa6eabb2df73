/**
 * The bundle decoder: base64 over a 32-bit accumulator that is never masked. It takes the
 * alphabets of sections 4 and 5 of RFC 4648 alike, and skips `=`, CR, LF and spaces anywhere.
 */
module Base64 {
  import opened Prelude
  import opened Bits
  import opened Accumulator

  const PLUS: Byte := 43
  const SLASH: Byte := 47
  const MINUS: Byte := 45
  const UNDERSCORE: Byte := 95
  const EQUALS: Byte := 61

  /** What one byte of the text stands for. */
  datatype Meaning = Sextet(value: nat) | Skip | Invalid

  function Classify(c: Byte): (meaning: Meaning)
    ensures meaning.Sextet? ==> meaning.value < 64
  {
    if 65 <= c <= 90 then Sextet(c - 65)
    else if 97 <= c <= 122 then Sextet(c - 97 + 26)
    else if 48 <= c <= 57 then Sextet(c - 48 + 52)
    else if c == PLUS || c == MINUS then Sextet(62)
    else if c == SLASH || c == UNDERSCORE then Sextet(63)
    else if c == EQUALS || c == 10 || c == 13 || c == 32 then Skip
    else Invalid
  }

  /** The sextets of the text, up to its first invalid byte. */
  function Sextets(text: seq<Byte>): (result: Result<seq<nat>, Byte>)
    ensures result.Ok? ==> forall i :: 0 <= i < |result.value| ==> result.value[i] < 64
  {
    if text == [] then Ok([])
    else
      var before := Sextets(text[..|text| - 1]);
      var c := text[|text| - 1];
      if before.Err? then before
      else
        match Classify(c)
        case Sextet(value) => Ok(before.value + [value])
        case Skip => before
        case Invalid => Err(c)
  }

  /** The whole bytes of the sextets' bits; an incomplete last byte is dropped. */
  function Decoded(text: seq<Byte>): Result<seq<nat>, Byte> {
    match Sextets(text)
    case Err(c) => Err(c)
    case Ok(values) => Ok(Groups(Flatten(values, 6), 8))
  }

  // ---------------------------------------------------------------------------
  // The decoder
  // ---------------------------------------------------------------------------

  /** The loop has emitted whole bytes of the sextets so far and still holds `bits` bits. */
  ghost predicate Emitted(values: seq<nat>, out: seq<nat>, done: seq<bool>, tail: seq<bool>, buf: nat, bits: nat) {
    && Flatten(values, 6) == done + tail
    && |tail| == bits
    && |done| == 8 * |Groups(done, 8)|
    && Holds(buf, tail)
    && out == Groups(done, 8)
  }

  lemma NothingEmitted()
    ensures Emitted([], [], [], [], 0, 0)
  {
  }

  lemma TakeSextet(
      values: seq<nat>, out: seq<nat>, done: seq<bool>, tail: seq<bool>, buf: nat, bits: nat, value: nat)
    requires Emitted(values, out, done, tail, buf, bits) && bits < 8 && value < 64
    ensures Emitted(values + [value], out, done, tail + ToBits(value, 6), buf * Pow2(6) % Pow2(32) + value, bits + 6)
  {
    hide Flatten, Groups, Val, ToBits, Pow2;
    FlattenOfNext(values, value, 6);
    SmallPowers();
    ValOfToBits(value, 6);
    Push(buf, tail, ToBits(value, 6), 32);
    assert done + (tail + ToBits(value, 6)) == done + tail + ToBits(value, 6);
  }

  lemma EmitByte(values: seq<nat>, out: seq<nat>, done: seq<bool>, tail: seq<bool>, buf: nat, bits: nat)
    requires Emitted(values, out, done, tail, buf, bits) && bits >= 8
    ensures Emitted(values, out + [buf / Pow2(bits - 8) % 256], done + tail[..8], tail[8..], buf, bits - 8)
  {
    var group, rest := tail[..8], tail[8..];
    assert tail == group + rest;
    Pop(buf, group, rest);
    SmallPowers();
    GroupsOfNext(done, |Groups(done, 8)|, group, [], 8);
    assert done + group + [] == done + group;
    assert done + tail == (done + group) + rest;
  }

  lemma OnlyWholeBytes(values: seq<nat>, out: seq<nat>, done: seq<bool>, tail: seq<bool>, buf: nat, bits: nat)
    requires Emitted(values, out, done, tail, buf, bits) && bits < 8
    ensures out == Groups(Flatten(values, 6), 8)
  {
    FlattenOfGroups(done, 8);
    assert Flatten(Groups(done, 8), 8) == done;
    GroupsOfFlatten(Groups(done, 8), tail, 8);
  }

  lemma {:induction false} FirstInvalidIsFinal(text: seq<Byte>, n: nat)
    requires n <= |text| && Sextets(text[..n]).Err?
    ensures Sextets(text) == Sextets(text[..n])
    decreases |text| - n
  {
    if n == |text| {
      assert text[..n] == text;
    } else {
      assert text[..n + 1][..n] == text[..n];
      FirstInvalidIsFinal(text, n + 1);
    }
  }

  method DecodeB64(text: seq<Byte>) returns (result: Result<seq<nat>, Byte>)
    ensures result == Decoded(text)
  {
    hide Flatten, Groups, Val, ToBits, Pow2;
    var out: seq<nat> := [];
    var buf: nat := 0;
    var bits: nat := 0;
    ghost var values: seq<nat>, done: seq<bool>, tail: seq<bool> := [], [], [];
    NothingEmitted();
    assert text[..0] == [];
    for i := 0 to |text|
      invariant Sextets(text[..i]) == Ok(values)
      invariant bits < 8 && Emitted(values, out, done, tail, buf, bits)
    {
      assert text[..i + 1][..i] == text[..i];
      match Classify(text[i]) {
        case Skip =>
        case Invalid =>
          FirstInvalidIsFinal(text, i + 1);
          return Err(text[i]);
        case Sextet(value) =>
          TakeSextet(values, out, done, tail, buf, bits, value);
          buf := buf * Pow2(6) % Pow2(32) + value;
          bits := bits + 6;
          values, tail := values + [value], tail + ToBits(value, 6);
          if bits >= 8 {
            EmitByte(values, out, done, tail, buf, bits);
            bits := bits - 8;
            out := out + [buf / Pow2(bits) % 256];
            done, tail := done + tail[..8], tail[8..];
          }
      }
    }
    assert text[..|text|] == text;
    OnlyWholeBytes(values, out, done, tail, buf, bits);
    result := Ok(out);
  }

  // ---------------------------------------------------------------------------
  // Inverse of the RFC 4648 encoders
  // ---------------------------------------------------------------------------

  /** The alphabets of section 4 (`+`, `/`) and, if `urlSafe`, section 5 (`-`, `_`) of RFC 4648. */
  function Symbol(value: nat, urlSafe: bool): (symbol: Byte)
    requires value < 64
    ensures Classify(symbol) == Sextet(value)
  {
    if value < 26 then 65 + value
    else if value < 52 then 97 + (value - 26)
    else if value < 62 then 48 + (value - 52)
    else if value == 62 then (if urlSafe then MINUS else PLUS)
    else if urlSafe then UNDERSCORE else SLASH
  }

  /** These are the alphabets of tables 1 and 2 of RFC 4648: upper case, lower case, digits and two signs. */
  lemma AlphabetAnswers(value: nat, urlSafe: bool)
    requires value < 64
    ensures
      var c := Symbol(value, urlSafe);
      && (value < 26 ==> c - value == 'A' as int)
      && (26 <= value < 52 ==> c - (value - 26) == 'a' as int)
      && (52 <= value < 62 ==> c - (value - 52) == '0' as int)
      && (value == 62 ==> c == (if urlSafe then '-' else '+') as int)
      && (value == 63 ==> c == (if urlSafe then '_' else '/') as int)
  {
  }

  /** Besides the symbols only padding, line ends and spaces are let pass. */
  lemma ClassifyAnswers(c: Byte)
    ensures Classify(c).Skip? <==> c == '=' as int || c == '\n' as int || c == '\r' as int || c == ' ' as int
    ensures Classify(c).Invalid? ==> forall v, urlSafe :: 0 <= v < 64 ==> Symbol(v, urlSafe) != c
    ensures Classify(c).Sextet? ==>
      Symbol(Classify(c).value, false) == c || Symbol(Classify(c).value, true) == c
  {
  }

  function Symbols(values: seq<nat>, urlSafe: bool): (symbols: seq<Byte>)
    requires forall i :: 0 <= i < |values| ==> values[i] < 64
    ensures |symbols| == |values|
  {
    if values == [] then []
    else Symbols(values[..|values| - 1], urlSafe) + [Symbol(values[|values| - 1], urlSafe)]
  }

  /** The groups of six bits of `bytes`, the last one filled up with zeros. */
  function Sixes(bytes: seq<Byte>): (values: seq<nat>)
    ensures forall i :: 0 <= i < |values| ==> values[i] < 64
  {
    SmallPowers();
    Groups(Padded(Flatten(bytes, 8), 6), 6)
  }

  /** RFC 4648 encoding with its padding: `=` up to a multiple of four symbols. */
  function Encode(bytes: seq<Byte>, urlSafe: bool): seq<Byte> {
    var symbols := Symbols(Sixes(bytes), urlSafe);
    symbols + seq((4 - |symbols| % 4) % 4, _ => EQUALS)
  }

  /** The text without the bytes that the decoder skips. */
  function Stripped(text: seq<Byte>): seq<Byte> {
    if text == [] then []
    else
      var before, c := Stripped(text[..|text| - 1]), text[|text| - 1];
      if Classify(c).Skip? then before else before + [c]
  }

  /** What is skipped does not matter, wherever it stands. */
  lemma {:induction false} OnlyStrippedMatters(text: seq<Byte>)
    ensures Sextets(text) == Sextets(Stripped(text))
  {
    if text != [] {
      var front, c := text[..|text| - 1], text[|text| - 1];
      OnlyStrippedMatters(front);
      if !Classify(c).Skip? {
        assert Stripped(text)[..|Stripped(text)| - 1] == Stripped(front);
      }
    }
  }

  lemma {:induction false} SextetsOfSymbols(values: seq<nat>, urlSafe: bool)
    requires forall i :: 0 <= i < |values| ==> values[i] < 64
    ensures Sextets(Symbols(values, urlSafe)) == Ok(values)
    ensures Stripped(Symbols(values, urlSafe)) == Symbols(values, urlSafe)
  {
    hide Symbol, Classify;
    if values != [] {
      var front, last := values[..|values| - 1], values[|values| - 1];
      SextetsOfSymbols(front, urlSafe);
      var symbols := Symbols(values, urlSafe);
      assert symbols[..|symbols| - 1] == Symbols(front, urlSafe);
      assert values == front + [last];
    }
  }

  lemma {:induction false} PaddingIsStripped(text: seq<Byte>, n: nat)
    ensures Stripped(text + seq(n, _ => EQUALS)) == Stripped(text)
    decreases n
  {
    var padded := text + seq(n, _ => EQUALS);
    if n == 0 {
      assert padded == text;
    } else {
      assert padded[..|padded| - 1] == text + seq(n - 1, _ => EQUALS);
      PaddingIsStripped(text, n - 1);
    }
  }

  lemma SixesHoldBytes(bytes: seq<Byte>)
    ensures Groups(Flatten(Sixes(bytes), 6), 8) == bytes
  {
    SmallPowers();
    hide Flatten, Groups, Val, ToBits, Pow2;
    var bits := Flatten(bytes, 8);
    var padded := Padded(bits, 6);
    PaddedLength(bits, 6);
    FlattenOfGroups(padded, 6);
    assert Flatten(Sixes(bytes), 6) == padded;
    GroupsOfFlatten(bytes, padded[|bits|..], 8);
    assert padded == bits + padded[|bits|..];
  }

  /**
   * Any text that is an encoding of `bytes`, in either alphabet, once `=`, CR, LF and spaces are
   * taken out of both, decodes to `bytes`.
   */
  lemma DecodeInvertsEncode(bytes: seq<Byte>, urlSafe: bool, text: seq<Byte>)
    requires Stripped(text) == Stripped(Encode(bytes, urlSafe))
    ensures Decoded(text) == Ok(bytes)
  {
    hide Flatten, Groups, Val, ToBits, Pow2, Padded, Symbols, Sextets, Stripped;
    var symbols := Symbols(Sixes(bytes), urlSafe);
    PaddingIsStripped(symbols, (4 - |symbols| % 4) % 4);
    SextetsOfSymbols(Sixes(bytes), urlSafe);
    OnlyStrippedMatters(text);
    SixesHoldBytes(bytes);
  }

  ghost predicate FirstInvalid(text: seq<Byte>, i: nat) {
    && i < |text| && Classify(text[i]).Invalid?
    && forall j :: 0 <= j < i ==> !Classify(text[j]).Invalid?
  }

  /** Decoding fails iff the text holds an invalid byte, and names the first one. */
  lemma {:induction false} FailsOnFirstInvalid(text: seq<Byte>)
    ensures Decoded(text).Err? <==> exists i: nat :: i < |text| && Classify(text[i]).Invalid?
    ensures Decoded(text).Err? ==> exists i: nat :: FirstInvalid(text, i) && Decoded(text).error == text[i]
  {
    if text != [] {
      var front := text[..|text| - 1];
      FailsOnFirstInvalid(front);
      assert forall j :: 0 <= j < |front| ==> text[j] == front[j];
      if Sextets(front).Err? {
        var i: nat :| FirstInvalid(front, i) && Sextets(front).error == front[i];
        assert FirstInvalid(text, i);
      } else if Sextets(text).Err? {
        assert FirstInvalid(text, |front|);
      }
    }
  }
}

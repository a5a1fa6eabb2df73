/**
 * The content-id encoder: base32 (section 6 of RFC 4648) in lower case and without padding,
 * run over a 64-bit accumulator that is never masked, and the masked 16-bit reference encoder
 * that the repository's tests hold it against.
 */
module Base32 {
  import opened Prelude
  import opened Bits
  import opened Accumulator

  /** The alphabet `abcdefghijklmnopqrstuvwxyz234567`, as ASCII codes. */
  function Symbol(value: nat): (symbol: Byte)
    requires value < 32
  {
    if value < 26 then 97 + value else 50 + (value - 26)
  }

  /** It is the alphabet of table 3 of RFC 4648, in lower case. */
  lemma AlphabetAnswers()
    ensures forall v :: 0 <= v < 32 ==> Symbol(v) == "abcdefghijklmnopqrstuvwxyz234567"[v] as int
  {
  }

  function Symbols(values: seq<nat>): (symbols: seq<Byte>)
    requires forall i :: 0 <= i < |values| ==> values[i] < 32
    ensures |symbols| == |values|
    ensures forall i :: 0 <= i < |values| ==> symbols[i] == Symbol(values[i])
  {
    seq(|values|, i requires 0 <= i < |values| => Symbol(values[i]))
  }

  /** The 5-bit groups of the input's bits, the last one filled up with zeros. */
  function Quintets(input: seq<Byte>): (values: seq<nat>)
    ensures forall i :: 0 <= i < |values| ==> values[i] < 32
  {
    SmallPowers();
    Groups(Padded(Flatten(input, 8), 5), 5)
  }

  /** Section 6 of RFC 4648: each group of five bits becomes one symbol. */
  function Encode(input: seq<Byte>): seq<Byte> {
    Symbols(Quintets(input))
  }

  // ---------------------------------------------------------------------------
  // The encoders
  // ---------------------------------------------------------------------------

  /** The accumulator loop has emitted whole groups and still holds fewer than `limit` bits. */
  ghost predicate Emitted(
      input: seq<Byte>, encoded: seq<Byte>, done: seq<bool>, tail: seq<bool>, buf: nat, bits: nat)
  {
    && Flatten(input, 8) == done + tail
    && |tail| == bits
    && |done| == 5 * |Groups(done, 5)|
    && Holds(buf, tail)
    && |encoded| == |Groups(done, 5)|
    && forall i :: 0 <= i < |encoded| ==> Groups(done, 5)[i] < 32 && encoded[i] == Symbol(Groups(done, 5)[i])
  }

  lemma NothingEmitted()
    ensures Emitted([], [], [], [], 0, 0)
  {
  }

  lemma TakeByte(
      input: seq<Byte>, encoded: seq<Byte>, done: seq<bool>, tail: seq<bool>, buf: nat, bits: nat,
      byte: Byte, word: nat)
    requires Emitted(input, encoded, done, tail, buf, bits) && bits < 5 && word >= 12
    ensures Emitted(input + [byte], encoded, done, tail + ToBits(byte, 8), buf * Pow2(8) % Pow2(word) + byte, bits + 8)
  {
    hide Flatten, Groups, Val, ToBits, Pow2;
    FlattenOfNext(input, byte, 8);
    SmallPowers();
    ValOfToBits(byte, 8);
    Push(buf, tail, ToBits(byte, 8), word);
    assert done + (tail + ToBits(byte, 8)) == done + tail + ToBits(byte, 8);
  }

  lemma EmitGroup(
      input: seq<Byte>, encoded: seq<Byte>, done: seq<bool>, tail: seq<bool>, buf: nat, bits: nat)
    requires Emitted(input, encoded, done, tail, buf, bits) && bits >= 5
    ensures buf / Pow2(bits - 5) % 32 < 32
    ensures Emitted(input, encoded + [Symbol(buf / Pow2(bits - 5) % 32)], done + tail[..5], tail[5..], buf, bits - 5)
  {
    var group, rest := tail[..5], tail[5..];
    assert tail == group + rest;
    Pop(buf, group, rest);
    SmallPowers();
    ValBound(group);
    GroupsOfNext(done, |Groups(done, 5)|, group, [], 5);
    assert done + group + [] == done + group;
    assert done + tail == (done + group) + rest;
  }

  /** The pending bits, shifted up by the missing ones, are the last group. */
  lemma EmitLast(
      input: seq<Byte>, encoded: seq<Byte>, done: seq<bool>, tail: seq<bool>, buf: nat, bits: nat, word: nat)
    requires Emitted(input, encoded, done, tail, buf, bits) && bits < 5 && word >= 5
    ensures bits == 0 ==> encoded == Encode(input)
    ensures buf * Pow2(5 - bits) % Pow2(word) % 32 < 32
    ensures bits > 0 ==> encoded + [Symbol(buf * Pow2(5 - bits) % Pow2(word) % 32)] == Encode(input)
  {
    hide Flatten, Groups, Val, ToBits, Pow2;
    var all := Flatten(input, 8);
    assert |all| == |done| + bits;
    if bits == 0 {
      assert Padded(all, 5) == done;
    } else {
      var zeros := seq((5 - |all| % 5) % 5, _ => false);
      assert |zeros| == 5 - bits;
      PaddedWith(done, tail, zeros);
      ValOfZeros(zeros);
      Push(buf, tail, zeros, word);
      SmallPowers();
      ValBound(tail + zeros);
      GroupsOfNext(done, |Groups(done, 5)|, tail + zeros, [], 5);
    }
  }

  lemma {:induction false} PaddedWith(done: seq<bool>, tail: seq<bool>, zeros: seq<bool>)
    requires zeros == seq((5 - |done + tail| % 5) % 5, _ => false)
    ensures Padded(done + tail, 5) == done + (tail + zeros) + []
  {
  }

  lemma {:induction false} ValOfZeros(zeros: seq<bool>)
    requires forall i :: 0 <= i < |zeros| ==> !zeros[i]
    ensures Val(zeros) == 0
  {
    if zeros != [] {
      ValOfZeros(zeros[..|zeros| - 1]);
    }
  }

  /**
   * The production encoder. `buf` is a u64 that loses the bits shifted past bit 63; the output is
   * the RFC's encoding all the same, for inputs of every length.
   */
  method Base32LowerNoPad(input: seq<Byte>) returns (encoded: seq<Byte>)
    ensures encoded == Encode(input)
  {
    hide Groups, Val, ToBits, Pow2;
    encoded := [];
    var buf: nat := 0;
    var bits: nat := 0;
    ghost var done: seq<bool>, tail: seq<bool> := [], [];
    NothingEmitted();
    assert input[..0] == [];
    for i := 0 to |input|
      invariant bits < 5
      invariant Emitted(input[..i], encoded, done, tail, buf, bits)
    {
      TakeByte(input[..i], encoded, done, tail, buf, bits, input[i], 64);
      assert input[..i] + [input[i]] == input[..i + 1];
      buf := buf * Pow2(8) % Pow2(64) + input[i];
      bits := bits + 8;
      tail := tail + ToBits(input[i], 8);
      while bits >= 5
        invariant Emitted(input[..i + 1], encoded, done, tail, buf, bits)
      {
        EmitGroup(input[..i + 1], encoded, done, tail, buf, bits);
        bits := bits - 5;
        encoded := encoded + [Symbol(buf / Pow2(bits) % 32)];
        done, tail := done + tail[..5], tail[5..];
      }
    }
    assert input[..|input|] == input;
    EmitLast(input, encoded, done, tail, buf, bits, 64);
    if bits > 0 {
      encoded := encoded + [Symbol(buf * Pow2(5 - bits) % Pow2(64) % 32)];
    }
  }

  /** Masking the word down to its pending bits keeps them. */
  lemma MaskKeeps(
      input: seq<Byte>, encoded: seq<Byte>, done: seq<bool>, tail: seq<bool>, buf: nat, bits: nat)
    requires Emitted(input, encoded, done, tail, buf, bits)
    ensures Emitted(input, encoded, done, tail, buf % Pow2(bits), bits)
    ensures buf % Pow2(bits) < Pow2(bits)
  {
    ValBound(tail);
    DivMod(Val(tail), 0, Val(tail), Pow2(bits));
  }

  /** The reference encoder of the repository's tests: a u16 masked after every symbol. */
  method ReferenceBase32LowerNoPad(input: seq<Byte>) returns (encoded: seq<Byte>)
    ensures encoded == Encode(input)
  {
    hide Groups, Val, ToBits, Pow2;
    encoded := [];
    var value: nat := 0;
    var bits: nat := 0;
    ghost var done: seq<bool>, tail: seq<bool> := [], [];
    NothingEmitted();
    assert input[..0] == [];
    for i := 0 to |input|
      invariant bits < 5
      invariant Emitted(input[..i], encoded, done, tail, value, bits)
    {
      TakeByte(input[..i], encoded, done, tail, value, bits, input[i], 16);
      assert input[..i] + [input[i]] == input[..i + 1];
      value := value * Pow2(8) % Pow2(16) + input[i];
      bits := bits + 8;
      tail := tail + ToBits(input[i], 8);
      while bits >= 5
        invariant Emitted(input[..i + 1], encoded, done, tail, value, bits)
      {
        EmitGroup(input[..i + 1], encoded, done, tail, value, bits);
        var shift := bits - 5;
        encoded := encoded + [Symbol(value / Pow2(shift) % 32)];
        done, tail := done + tail[..5], tail[5..];
        MaskKeeps(input[..i + 1], encoded, done, tail, value, shift);
        value := value % Pow2(shift);
        bits := shift;
      }
    }
    assert input[..|input|] == input;
    EmitLast(input, encoded, done, tail, value, bits, 16);
    if bits > 0 {
      encoded := encoded + [Symbol(value * Pow2(5 - bits) % Pow2(16) % 32)];
    }
  }

  // ---------------------------------------------------------------------------
  // What the encoding promises
  // ---------------------------------------------------------------------------

  /** One symbol for every five bits begun: ceil(8n / 5); 32 hash bytes give 52 symbols. */
  lemma EncodedLength(input: seq<Byte>)
    ensures |Encode(input)| == (8 * |input| + 4) / 5
    ensures |input| == 32 ==> |Encode(input)| == 52
  {
    PaddedLength(Flatten(input, 8), 5);
  }

  lemma BytesOfBits(input: seq<Byte>)
    ensures Groups(Flatten(input, 8), 8) == input
  {
    SmallPowers();
    hide Flatten, Groups, Val, ToBits, Pow2;
    GroupsOfFlatten(input, [], 8);
    assert Flatten(input, 8) + [] == Flatten(input, 8);
  }

  /** Dropping the zeros and regrouping by eight gives the bytes back. */
  lemma QuintetsHoldBytes(input: seq<Byte>)
    ensures Flatten(input, 8) <= Flatten(Quintets(input), 5)
  {
    hide Flatten, Groups;
    var padded := Padded(Flatten(input, 8), 5);
    PaddedLength(Flatten(input, 8), 5);
    FlattenOfGroups(padded, 5);
    assert Flatten(Quintets(input), 5) == padded;
  }

  lemma SymbolsAreInjective(a: seq<nat>, b: seq<nat>)
    requires forall i :: 0 <= i < |a| ==> a[i] < 32
    requires forall i :: 0 <= i < |b| ==> b[i] < 32
    requires Symbols(a) == Symbols(b)
    ensures a == b
  {
    forall i | 0 <= i < |a|
      ensures a[i] == b[i]
    {
      assert Symbols(a)[i] == Symbols(b)[i];
    }
  }

  /** Different bytes never share an encoding, so different hashes never share a content id. */
  lemma EncodeIsInjective(a: seq<Byte>, b: seq<Byte>)
    requires Encode(a) == Encode(b)
    ensures a == b
  {
    SymbolsAreInjective(Quintets(a), Quintets(b));
    EncodedLength(a);
    EncodedLength(b);
    QuintetsHoldBytes(a);
    QuintetsHoldBytes(b);
    BytesOfBits(a);
    BytesOfBits(b);
    var bits := Flatten(Quintets(a), 5);
    assert |a| == |b|;
    assert Flatten(a, 8) == bits[..8 * |a|] && Flatten(b, 8) == bits[..8 * |b|];
  }
}

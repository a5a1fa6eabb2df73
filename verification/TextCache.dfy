/**
 * The bounded least-recently-used cache of the terminal renderer, and text measurement as its client.
 * Strings are sequences of UTF-16 code units, lone surrogates included.
 */
module TextCache {
  import opened Prelude

  newtype CodeUnit = x: int | 0 <= x < 0x1_0000

  type Str = seq<CodeUnit>

  datatype Dimensions = Dimensions(width: nat, height: nat)

  /** What is cached: a string, or an object, whose size is not counted. */
  datatype Value = Text(text: Str) | Object(dimensions: Dimensions)

  datatype Entry = Entry(key: Str, value: Value, bytes: nat)

  /** The largest integer below which all integers are exact in JavaScript. */
  const MAX_SAFE_INTEGER: nat := 0x1F_FFFF_FFFF_FFFF

  function Cost(key: Str, value: Value): nat {
    2 * (|key| + if value.Text? then |value.text| else 0) + 128
  }

  // ---------------------------------------------------------------------------
  // The entries in insertion order, the least recently used first
  // ---------------------------------------------------------------------------

  function TotalBytes(entries: seq<Entry>): nat {
    if entries == [] then 0 else entries[0].bytes + TotalBytes(entries[1..])
  }

  ghost predicate Distinct(entries: seq<Entry>) {
    forall i, j :: 0 <= i < j < |entries| ==> entries[i].key != entries[j].key
  }

  ghost predicate Priced(entries: seq<Entry>) {
    forall i :: 0 <= i < |entries| ==> entries[i].bytes == Cost(entries[i].key, entries[i].value)
  }

  /** The position of a key, or the length when it is not there. */
  function Find(entries: seq<Entry>, key: Str): (i: nat)
    ensures i <= |entries|
    ensures i < |entries| ==> entries[i].key == key
    ensures forall j :: 0 <= j < i ==> entries[j].key != key
  {
    if entries == [] || entries[0].key == key then 0 else 1 + Find(entries[1..], key)
  }

  function Without(entries: seq<Entry>, key: Str): seq<Entry> {
    var i := Find(entries, key);
    if i == |entries| then entries else entries[..i] + entries[i + 1..]
  }

  predicate Fits(entries: seq<Entry>, maxEntries: nat, maxBytes: nat) {
    |entries| <= maxEntries && TotalBytes(entries) <= maxBytes
  }

  function Evicted(entries: seq<Entry>, maxEntries: nat, maxBytes: nat): seq<Entry> {
    if entries == [] || Fits(entries, maxEntries, maxBytes) then entries
    else Evicted(entries[1..], maxEntries, maxBytes)
  }

  datatype Op = Get(key: Str) | Set(key: Str, value: Value) | Delete(key: Str)

  function After(entries: seq<Entry>, op: Op, maxEntries: nat, maxBytes: nat): seq<Entry> {
    match op
    case Get(key) =>
      var i := Find(entries, key);
      if i == |entries| then entries else Without(entries, key) + [entries[i]]
    case Set(key, value) =>
      var kept := Without(entries, key);
      if Cost(key, value) > maxBytes then kept
      else Evicted(kept + [Entry(key, value, Cost(key, value))], maxEntries, maxBytes)
    case Delete(key) => Without(entries, key)
  }

  lemma {:induction false} TotalOfConcat(a: seq<Entry>, b: seq<Entry>)
    ensures TotalBytes(a + b) == TotalBytes(a) + TotalBytes(b)
  {
    if a == [] {
      assert a + b == b;
    } else {
      TotalOfConcat(a[1..], b);
      assert (a + b)[1..] == a[1..] + b;
    }
  }

  lemma TotalWithout(entries: seq<Entry>, key: Str)
    ensures var i := Find(entries, key);
      TotalBytes(Without(entries, key)) == TotalBytes(entries) - if i < |entries| then entries[i].bytes else 0
  {
    hide Find, TotalBytes;
    var i := Find(entries, key);
    if i < |entries| {
      TotalOfConcat(entries[..i], entries[i + 1..]);
      TotalOfConcat(entries[..i], entries[i..]);
      assert entries[..i] + entries[i..] == entries;
      TotalFrom(entries, i);
    }
  }

  lemma TotalOfOne(e: Entry)
    ensures TotalBytes([e]) == e.bytes
  {
    assert TotalBytes([e]) == e.bytes + TotalBytes([]);
  }

  lemma TotalFrom(entries: seq<Entry>, i: nat)
    requires i < |entries|
    ensures TotalBytes(entries[i..]) == entries[i].bytes + TotalBytes(entries[i + 1..])
  {
    assert entries[i..][1..] == entries[i + 1..];
  }

  lemma WithoutHasNoKey(entries: seq<Entry>, key: Str)
    requires Distinct(entries)
    ensures var r := Without(entries, key);
      Distinct(r) && forall j :: 0 <= j < |r| ==> r[j].key != key
  {
    var i := Find(entries, key);
    if i < |entries| {
      var r := Without(entries, key);
      forall j | 0 <= j < |r|
        ensures r[j] == if j < i then entries[j] else entries[j + 1]
      {
      }
    }
  }

  // ---------------------------------------------------------------------------
  // The cache
  // ---------------------------------------------------------------------------

  class TextCache {
    var entries: seq<Entry>
    var bytes: nat
    const maxEntries: nat
    const maxBytes: nat

    /** The counter is the sum over the entries. */
    ghost predicate Counted()
      reads this
    {
      bytes == TotalBytes(entries) && Distinct(entries) && Priced(entries)
    }

    ghost predicate Valid()
      reads this
    {
      1 <= maxBytes && Counted() && Fits(entries, maxEntries, maxBytes)
    }

    constructor (maxEntries: nat, maxBytes: nat)
      requires 1 <= maxEntries && 1 <= maxBytes
      ensures Valid() && entries == [] && this.maxEntries == maxEntries && this.maxBytes == maxBytes
    {
      entries, bytes := [], 0;
      this.maxEntries, this.maxBytes := maxEntries, maxBytes;
    }

    method Get(key: Str) returns (r: Option<Value>)
      requires Valid()
      modifies this
      ensures Valid() && entries == After(old(entries), Op.Get(key), maxEntries, maxBytes)
      ensures var i := Find(old(entries), key);
        r == if i < |old(entries)| then Some(old(entries)[i].value) else None
    {
      var i := Find(entries, key);
      if i == |entries| {
        return None;
      }
      var entry := entries[i];
      WithoutHasNoKey(entries, key);
      TotalWithout(entries, key);
      TotalOfConcat(Without(entries, key), [entry]);
      entries := Without(entries, key);
      entries := entries + [entry];
      r := Some(entry.value);
    }

    method Delete(key: Str)
      requires Counted()
      modifies this
      ensures Counted() && entries == Without(old(entries), key)
    {
      var i := Find(entries, key);
      if i == |entries| {
        return;
      }
      WithoutHasNoKey(entries, key);
      TotalWithout(entries, key);
      bytes := bytes - entries[i].bytes;
      entries := Without(entries, key);
    }

    method Set(key: Str, value: Value)
      requires Valid() && 1 <= maxEntries
      modifies this
      ensures Valid() && entries == After(old(entries), Op.Set(key, value), maxEntries, maxBytes)
    {
      var cost := Cost(key, value);
      WithoutHasNoKey(entries, key);
      TotalWithout(entries, key);
      Delete(key);
      if cost > maxBytes {
        return;
      }
      var own := Entry(key, value, cost);
      TotalOfConcat(entries, [own]);
      TotalOfOne(own);
      hide TotalBytes, Find, Evicted;
      entries := entries + [own];
      bytes := bytes + cost;
      Evict();
    }

    method Evict()
      requires Counted()
      modifies this
      ensures Counted() && Fits(entries, maxEntries, maxBytes)
      ensures entries == Evicted(old(entries), maxEntries, maxBytes)
    {
      while |entries| > maxEntries || bytes > maxBytes
        invariant Counted()
        invariant Evicted(entries, maxEntries, maxBytes) == Evicted(old(entries), maxEntries, maxBytes)
        decreases |entries|
      {
        assert Find(entries, entries[0].key) == 0;
        assert Without(entries, entries[0].key) == entries[1..];
        Delete(entries[0].key);
      }
    }
  }

  /** Budgets are checked on creation; the value is any number that JavaScript can hold exactly. */
  method NewTextCache(maxEntries: int, maxBytes: int) returns (r: Result<TextCache, string>)
    ensures r.Ok? <==> 1 <= maxEntries <= MAX_SAFE_INTEGER && 1 <= maxBytes <= MAX_SAFE_INTEGER
    ensures r.Ok? ==> fresh(r.value) && r.value.Valid() && r.value.entries == []
    ensures r.Ok? ==> r.value.maxEntries == maxEntries && r.value.maxBytes == maxBytes
  {
    if maxEntries < 1 || maxEntries > MAX_SAFE_INTEGER || maxBytes < 1 || maxBytes > MAX_SAFE_INTEGER {
      return Err("Cache budgets must be positive safe integers");
    }
    var cache := new TextCache(maxEntries, maxBytes);
    r := Ok(cache);
  }

  // ---------------------------------------------------------------------------
  // What is evicted
  // ---------------------------------------------------------------------------

  /** What goes is the shortest prefix whose removal makes the rest fit. */
  lemma {:induction false} EvictsShortestPrefix(entries: seq<Entry>, maxEntries: nat, maxBytes: nat) returns (n: nat)
    ensures n <= |entries| && Evicted(entries, maxEntries, maxBytes) == entries[n..]
    ensures Fits(entries[n..], maxEntries, maxBytes)
    ensures forall k :: 0 <= k < n ==> !Fits(entries[k..], maxEntries, maxBytes)
  {
    n := 0;
    if entries != [] && !Fits(entries, maxEntries, maxBytes) {
      n := EvictsShortestPrefix(entries[1..], maxEntries, maxBytes);
      n := n + 1;
      assert entries[1..][n - 1..] == entries[n..];
      forall k | 0 <= k < n
        ensures !Fits(entries[k..], maxEntries, maxBytes)
      {
        assert k > 0 ==> entries[1..][k - 1..] == entries[k..];
        assert entries[0..] == entries;
      }
    }
  }

  /** Setting a value that fits the budget keeps it, and evicts the shortest prefix that suffices. */
  lemma SetKeepsItsEntry(entries: seq<Entry>, key: Str, value: Value, maxEntries: nat, maxBytes: nat)
    returns (n: nat)
    requires maxEntries >= 1 && Cost(key, value) <= maxBytes
    ensures var all := Without(entries, key) + [Entry(key, value, Cost(key, value))];
      && n < |all| && After(entries, Set(key, value), maxEntries, maxBytes) == all[n..]
      && (forall k :: 0 <= k < n ==> !Fits(all[k..], maxEntries, maxBytes))
      && all[n..] != [] && all[n..][|all| - n - 1] == Entry(key, value, Cost(key, value))
  {
    var own := Entry(key, value, Cost(key, value));
    var all := Without(entries, key) + [own];
    n := EvictsShortestPrefix(all, maxEntries, maxBytes);
    assert all[|all| - 1..] == [own];
    assert TotalBytes([own]) == own.bytes + TotalBytes([]);
    assert Fits([own], maxEntries, maxBytes);
  }

  /** The integers up to 2 to the 54th that a double holds exactly. */
  predicate ExactAsDouble(n: nat) {
    n <= 0x20_0000_0000_0000 || (n <= 0x40_0000_0000_0000 && n % 2 == 0)
  }

  lemma {:induction false} TotalIsEven(entries: seq<Entry>)
    requires Priced(entries)
    ensures TotalBytes(entries) % 2 == 0
  {
    if entries != [] {
      TotalIsEven(entries[1..]);
      assert entries[0].bytes == Cost(entries[0].key, entries[0].value);
    }
  }

  /** The counter may pass the safe integers before the eviction, but it never loses a unit. */
  lemma CounterIsExact(entries: seq<Entry>, key: Str, value: Value, maxEntries: nat, maxBytes: nat)
    requires maxBytes <= MAX_SAFE_INTEGER
    requires Priced(entries) && Fits(entries, maxEntries, maxBytes) && Cost(key, value) <= maxBytes
    ensures ExactAsDouble(TotalBytes(entries)) && ExactAsDouble(TotalBytes(entries) + Cost(key, value))
  {
    TotalIsEven(entries);
  }

  // ---------------------------------------------------------------------------
  // Whole histories
  // ---------------------------------------------------------------------------

  function Run(ops: seq<Op>, maxEntries: nat, maxBytes: nat): seq<Entry> {
    if ops == [] then []
    else After(Run(ops[..|ops| - 1], maxEntries, maxBytes), ops[|ops| - 1], maxEntries, maxBytes)
  }

  /** The value last set for a key and not deleted since. */
  function LastSet(ops: seq<Op>, key: Str): Option<Value> {
    if ops == [] then None
    else
      var op := ops[|ops| - 1];
      if op.key != key || op.Get? then LastSet(ops[..|ops| - 1], key)
      else if op.Set? then Some(op.value) else None
  }

  /** When a key was last used: the position of the last operation on it, counted from one. */
  function LastUse(ops: seq<Op>, key: Str): (n: nat)
    ensures n <= |ops|
  {
    if ops == [] then 0
    else if ops[|ops| - 1].key == key then |ops|
    else LastUse(ops[..|ops| - 1], key)
  }

  /** What holds of entries in every history. */
  ghost predicate Faithful(entries: seq<Entry>, ops: seq<Op>) {
    && Distinct(entries) && Priced(entries)
    && (forall i :: 0 <= i < |entries| ==> LastSet(ops, entries[i].key) == Some(entries[i].value))
    && (forall i, j :: 0 <= i < j < |entries| ==> LastUse(ops, entries[i].key) < LastUse(ops, entries[j].key))
  }

  lemma OtherKeysAreKept(ops: seq<Op>, key: Str)
    requires ops != [] && ops[|ops| - 1].key != key
    ensures LastSet(ops, key) == LastSet(ops[..|ops| - 1], key) && LastUse(ops, key) == LastUse(ops[..|ops| - 1], key)
  {
  }

  lemma LastIsLatest(ops: seq<Op>)
    requires ops != []
    ensures LastUse(ops, ops[|ops| - 1].key) == |ops|
  {
  }

  /** The last operation was on another key than those of the entries. */
  ghost predicate UsedBefore(entries: seq<Entry>, ops: seq<Op>)
    requires ops != []
  {
    forall i :: 0 <= i < |entries| ==> entries[i].key != ops[|ops| - 1].key && LastUse(ops, entries[i].key) < |ops|
  }

  lemma {:induction false} OthersStayFaithful(entries: seq<Entry>, ops: seq<Op>)
    requires ops != [] && Faithful(entries, ops[..|ops| - 1])
    requires forall i :: 0 <= i < |entries| ==> entries[i].key != ops[|ops| - 1].key
    ensures Faithful(entries, ops) && UsedBefore(entries, ops)
  {
    hide LastSet, LastUse;
    forall j | 0 <= j < |entries|
      ensures LastSet(ops, entries[j].key) == LastSet(ops[..|ops| - 1], entries[j].key)
      ensures LastUse(ops, entries[j].key) == LastUse(ops[..|ops| - 1], entries[j].key)
    {
      OtherKeysAreKept(ops, entries[j].key);
    }
  }

  lemma {:induction false} WithoutStaysFaithful(entries: seq<Entry>, key: Str, ops: seq<Op>)
    requires Faithful(entries, ops)
    ensures Faithful(Without(entries, key), ops)
  {
    var i, r := Find(entries, key), Without(entries, key);
    WithoutHasNoKey(entries, key);
    hide LastSet, LastUse, Find;
    if i < |entries| {
      forall j | 0 <= j < |r|
        ensures r[j] == entries[if j < i then j else j + 1]
      {
      }
    }
  }

  lemma {:induction false} AppendedStaysFaithful(entries: seq<Entry>, e: Entry, ops: seq<Op>)
    requires ops != [] && e.key == ops[|ops| - 1].key && Faithful(entries, ops)
    requires e.bytes == Cost(e.key, e.value) && LastSet(ops, e.key) == Some(e.value)
    requires UsedBefore(entries, ops)
    ensures Faithful(entries + [e], ops)
  {
    var r := entries + [e];
    LastIsLatest(ops);
    forall i | 0 <= i < |r|
      ensures r[i] == if i < |entries| then entries[i] else e
      ensures r[i].bytes == Cost(r[i].key, r[i].value) && LastSet(ops, r[i].key) == Some(r[i].value)
    {
    }
    forall i, j | 0 <= i < j < |r|
      ensures r[i].key != r[j].key && LastUse(ops, r[i].key) < LastUse(ops, r[j].key)
    {
    }
  }

  lemma SuffixStaysFaithful(entries: seq<Entry>, n: nat, ops: seq<Op>)
    requires n <= |entries| && Faithful(entries, ops)
    ensures Faithful(entries[n..], ops)
  {
    hide LastSet, LastUse;
  }

  /**
   * In every history: a hit returns the value last set; the entries stand in the order of their last
   * use; and both budgets hold.
   */
  lemma {:induction false} CacheIsFaithful(ops: seq<Op>, maxEntries: nat, maxBytes: nat)
    requires maxEntries >= 1
    ensures Faithful(Run(ops, maxEntries, maxBytes), ops)
    ensures Fits(Run(ops, maxEntries, maxBytes), maxEntries, maxBytes)
  {
    if ops != [] {
      var before, op := ops[..|ops| - 1], ops[|ops| - 1];
      var entries := Run(before, maxEntries, maxBytes);
      CacheIsFaithful(before, maxEntries, maxBytes);
      StepStaysFaithful(entries, ops, maxEntries, maxBytes);
    }
  }

  lemma StepStaysFaithful(entries: seq<Entry>, ops: seq<Op>, maxEntries: nat, maxBytes: nat)
    requires maxEntries >= 1 && ops != []
    requires Faithful(entries, ops[..|ops| - 1]) && Fits(entries, maxEntries, maxBytes)
    ensures var r := After(entries, ops[|ops| - 1], maxEntries, maxBytes);
      Faithful(r, ops) && Fits(r, maxEntries, maxBytes)
  {
    var op := ops[|ops| - 1];
    var kept, i := Without(entries, op.key), Find(entries, op.key);
    WithoutStaysFaithful(entries, op.key, ops[..|ops| - 1]);
    WithoutHasNoKey(entries, op.key);
    OthersStayFaithful(kept, ops);
    TotalWithout(entries, op.key);
    hide Faithful, Evicted, TotalBytes, LastUse;
    match op
    case Delete(key) =>
    case Get(key) =>
      if i < |entries| {
        FaithfulEntry(entries, i, ops[..|ops| - 1]);
        AppendedStaysFaithful(kept, entries[i], ops);
        TotalOfConcat(kept, [entries[i]]);
        TotalOfOne(entries[i]);
      } else {
        assert kept == entries;
      }
    case Set(key, value) =>
      var own := Entry(key, value, Cost(key, value));
      AppendedStaysFaithful(kept, own, ops);
      if own.bytes <= maxBytes {
        var n := EvictsShortestPrefix(kept + [own], maxEntries, maxBytes);
        SuffixStaysFaithful(kept + [own], n, ops);
      }
  }

  lemma FaithfulEntry(entries: seq<Entry>, i: nat, ops: seq<Op>)
    requires Faithful(entries, ops) && i < |entries|
    ensures entries[i].bytes == Cost(entries[i].key, entries[i].value)
    ensures LastSet(ops, entries[i].key) == Some(entries[i].value)
  {
  }

  /** Two bytes for each code unit of the key and of a string, and 128 besides. */
  function BytesOf(entries: seq<Entry>): nat {
    if entries == [] then 0
    else
      var last := entries[|entries| - 1];
      var units := match last.value
        case Text(text) => |last.key| + |text|
        case Object(_) => |last.key|;
      BytesOf(entries[..|entries| - 1]) + units + units + 128
  }

  lemma {:induction false} TotalIsBytes(entries: seq<Entry>)
    requires Priced(entries)
    ensures TotalBytes(entries) == BytesOf(entries)
  {
    if entries != [] {
      var front, last := entries[..|entries| - 1], entries[|entries| - 1];
      TotalIsBytes(front);
      TotalOfConcat(front, [last]);
      TotalOfOne(last);
      assert front + [last] == entries;
      assert last.bytes == Cost(last.key, last.value);
    }
  }

  /** In every history there are no more entries and no more bytes than the budgets allow. */
  lemma BudgetsHold(ops: seq<Op>, maxEntries: nat, maxBytes: nat)
    requires maxEntries >= 1
    ensures |Run(ops, maxEntries, maxBytes)| <= maxEntries && BytesOf(Run(ops, maxEntries, maxBytes)) <= maxBytes
  {
    CacheIsFaithful(ops, maxEntries, maxBytes);
    TotalIsBytes(Run(ops, maxEntries, maxBytes));
  }

  lemma SafeIntegers()
    ensures MAX_SAFE_INTEGER == 9007199254740991
  {
  }

  // ---------------------------------------------------------------------------
  // Measuring text
  // ---------------------------------------------------------------------------

  const NEWLINE: CodeUnit := 10

  /** The pieces of a text between its newlines. */
  function Split(text: Str): (pieces: seq<Str>)
    ensures pieces != [] && forall i :: 0 <= i < |pieces| ==> NEWLINE !in pieces[i]
    ensures Joined(pieces) == text
  {
    if text == [] then [[]]
    else
      var rest := Split(text[1..]);
      if text[0] == NEWLINE then [[]] + rest else [[text[0]] + rest[0]] + rest[1..]
  }

  function Joined(pieces: seq<Str>): Str {
    if pieces == [] then []
    else if |pieces| == 1 then pieces[0]
    else pieces[0] + [NEWLINE] + Joined(pieces[1..])
  }

  /** The measurement computed directly; how wide the widest line is comes from a library. */
  function Measured(widestLine: Str -> nat, text: Str): Dimensions {
    if text == [] then Dimensions(0, 0) else Dimensions(widestLine(text), |Split(text)|)
  }

  /** The places of a text where a line ends: U+000A. */
  function LineEnds(text: Str): set<nat> {
    set i: nat | i < |text| && text[i] == 0xA
  }

  lemma {:induction false} SplitOfNext(text: Str, c: CodeUnit)
    ensures |Split(text + [c])| == |Split(text)| + if c == 0xA then 1 else 0
  {
    if text == [] {
      assert text + [c] == [c] && [c][1..] == [] && Split([]) == [[]];
    } else {
      assert (text + [c])[1..] == text[1..] + [c];
      SplitOfNext(text[1..], c);
    }
  }

  /** An empty text has no height, any other a line more than it has line ends. */
  lemma {:induction false} HeightAnswers(widestLine: Str -> nat, text: Str)
    ensures text == [] ==> Measured(widestLine, text) == Dimensions(0, 0)
    ensures text != [] ==> Measured(widestLine, text) == Dimensions(widestLine(text), 1 + |LineEnds(text)|)
  {
    CountLines(text);
    hide Split;
  }

  lemma {:induction false} CountLines(text: Str)
    ensures |Split(text)| == 1 + |LineEnds(text)|
  {
    if text == [] {
      assert LineEnds(text) == {};
    } else {
      hide Split;
      var n := |text| - 1;
      var front := text[..n];
      CountLines(front);
      SplitOfNext(front, text[n]);
      assert front + [text[n]] == text;
      LineEndsOfNext(text, n);
    }
  }

  lemma {:induction false} LineEndsOfNext(text: Str, n: nat)
    requires |text| == n + 1
    ensures |LineEnds(text)| == |LineEnds(text[..n])| + if text[n] == 0xA then 1 else 0
  {
    assert LineEnds(text) == LineEnds(text[..n]) + if text[n] == 0xA then {n} else {};
  }

  /** The cache holds only measurements of its keys. */
  ghost predicate HoldsMeasurements(entries: seq<Entry>, widestLine: Str -> nat) {
    forall i :: 0 <= i < |entries| ==> entries[i].value == Object(Measured(widestLine, entries[i].key))
  }

  lemma {:induction false} EvictionKeepsMeasurements(
    entries: seq<Entry>, maxEntries: nat, maxBytes: nat, widestLine: Str -> nat)
    requires HoldsMeasurements(entries, widestLine)
    ensures HoldsMeasurements(Evicted(entries, maxEntries, maxBytes), widestLine)
  {
    var n := EvictsShortestPrefix(entries, maxEntries, maxBytes);
  }

  /** So does a set of one more. */
  lemma {:induction false} NewMeasurement(
    entries: seq<Entry>, text: Str, maxEntries: nat, maxBytes: nat, widestLine: Str -> nat)
    requires HoldsMeasurements(entries, widestLine)
    ensures
      var value := Object(Measured(widestLine, text));
      var added := Without(entries, text) + [Entry(text, value, Cost(text, value))];
      HoldsMeasurements(Evicted(added, maxEntries, maxBytes), widestLine)
  {
    var value := Object(Measured(widestLine, text));
    hide Evicted, Measured;
    EvictionKeepsMeasurements(
      Without(entries, text) + [Entry(text, value, Cost(text, value))], maxEntries, maxBytes, widestLine);
  }

  class TextMeasurer {
    const cache: TextCache
    const widestLine: Str -> nat

    ghost predicate Valid()
      reads this, cache
    {
      cache.Valid() && 1 <= cache.maxEntries && HoldsMeasurements(cache.entries, widestLine)
    }

    constructor (widestLine: Str -> nat)
      ensures Valid() && fresh(cache) && this.widestLine == widestLine
    {
      this.widestLine := widestLine;
      cache := new TextCache(4096, 8 * 1024 * 1024);
    }

    /** Whatever was measured before, the answer is the one computed directly. */
    method MeasureText(text: Str) returns (r: Dimensions)
      requires Valid()
      modifies cache
      ensures Valid() && r == Measured(widestLine, text)
    {
      hide Split, Evicted;
      if |text| == 0 {
        return Dimensions(0, 0);
      }
      var cached := cache.Get(text);
      if cached.Some? {
        return cached.value.dimensions;
      }
      r := Dimensions(widestLine(text), |Split(text)|);
      NewMeasurement(cache.entries, text, cache.maxEntries, cache.maxBytes, widestLine);
      cache.Set(text, Object(r));
    }
  }
}

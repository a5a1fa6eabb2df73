/** String operations of Rust's standard library that several components rely on. */
module Text {

  /** Unicode white space, as `str::trim` removes it. */
  predicate IsWhite(c: char) {
    || c in {'\t', '\n', '\U{B}', '\U{C}', '\r', ' ', '\U{85}', '\U{A0}', '\U{1680}'}
    || '\U{2000}' <= c <= '\U{200A}'
    || c in {'\U{2028}', '\U{2029}', '\U{202F}', '\U{205F}', '\U{3000}'}
  }

  /** Neither the first nor the last character is white space. */
  predicate IsTrimmed(s: string) {
    s != "" ==> !IsWhite(s[0]) && !IsWhite(s[|s| - 1])
  }

  function Trim(s: string): (trimmed: string)
    ensures IsTrimmed(trimmed)
    ensures IsTrimmed(s) ==> trimmed == s
    ensures |trimmed| <= |s|
    decreases |s|
  {
    if s == "" then ""
    else if IsWhite(s[0]) then Trim(s[1..])
    else if IsWhite(s[|s| - 1]) then Trim(s[..|s| - 1])
    else s
  }

  lemma {:induction false} TrimFront(before: string, s: string)
    requires forall i :: 0 <= i < |before| ==> IsWhite(before[i])
    ensures Trim(before + s) == Trim(s)
  {
    hide IsWhite;
    if before == "" {
      assert before + s == s;
    } else {
      assert (before + s)[1..] == before[1..] + s;
      TrimFront(before[1..], s);
    }
  }

  lemma {:induction false} TrimBack(s: string, after: string)
    requires forall i :: 0 <= i < |after| ==> IsWhite(after[i])
    ensures Trim(s + after) == Trim(s)
    decreases |s|, |after|
  {
    hide IsWhite;
    if after == "" {
      assert s + after == s;
    } else if s == "" {
      assert s + after == after + "";
      TrimFront(after, "");
    } else if IsWhite(s[0]) {
      assert (s + after)[1..] == s[1..] + after;
      TrimBack(s[1..], after);
    } else {
      var shorter := after[..|after| - 1];
      assert (s + after)[..|s + after| - 1] == s + shorter;
      TrimBack(s, shorter);
    }
  }

  lemma NothingToTrim()
    ensures Trim("") == ""
  {
  }

  /** White space around a text does not show once it is trimmed. */
  lemma TrimSurrounded(before: string, s: string, after: string)
    requires forall i :: 0 <= i < |before| ==> IsWhite(before[i])
    requires forall i :: 0 <= i < |after| ==> IsWhite(after[i])
    ensures Trim(before + (s + after)) == Trim(s)
  {
    hide IsWhite, Trim;
    TrimFront(before, s + after);
    TrimBack(s, after);
  }

  function LowerChar(c: char): (lower: char)
    ensures !('A' <= lower <= 'Z') && (lower == c || ('A' <= c <= 'Z' && lower as int == c as int + 32))
  {
    if 'A' <= c <= 'Z' then c - 'A' + 'a' else c
  }

  /** `to_ascii_lowercase`. */
  function Lower(s: string): (lower: string)
    ensures |lower| == |s|
    ensures forall i :: 0 <= i < |s| ==> lower[i] == LowerChar(s[i])
  {
    seq(|s|, i requires 0 <= i < |s| => LowerChar(s[i]))
  }

  /** The code points with the Unicode property White_Space. */
  lemma WhiteIsUnicode(c: char)
    ensures
      var n := c as int;
      IsWhite(c) <==>
        9 <= n <= 13 || 8192 <= n <= 8202 || n in {32, 133, 160, 5760, 8232, 8233, 8239, 8287, 12288}
  {
  }

  /** Trimming takes the white space off both ends, and nothing else. */
  lemma {:induction false} TrimAnswers(s: string) returns (before: string, after: string)
    ensures s == before + (Trim(s) + after) && IsTrimmed(Trim(s))
    ensures forall i :: 0 <= i < |before| ==> IsWhite(before[i])
    ensures forall i :: 0 <= i < |after| ==> IsWhite(after[i])
    decreases |s|
  {
    hide IsWhite;
    before, after := "", "";
    if s != "" && IsWhite(s[0]) {
      before, after := TrimAnswers(s[1..]);
      before := [s[0]] + before;
    } else if s != "" && IsWhite(s[|s| - 1]) {
      before, after := TrimAnswers(s[..|s| - 1]);
      after := after + [s[|s| - 1]];
    }
  }
}

/** Character classes and string operations that the report script borrows from
    Python's `str`: whitespace as `str.strip()` sees it, ASCII lowercasing, and
    `str.split(", ")` with its inverse `", ".join`. */
module Text {

  import opened Wrappers

  /** The separator `str.get_dummies(sep=", ")` splits genre listings on. */
  const Sep: string := ", "

  /** The characters Python's `str.isspace()` accepts, which `str.strip()` removes. */
  predicate IsSpace(c: char) {
    || c == ' '
    || ('\t' <= c <= '\r')
    || ('\U{1C}' <= c <= '\U{1F}')
    || c == '\U{85}' || c == '\U{A0}' || c == '\U{1680}'
    || ('\U{2000}' <= c <= '\U{200A}')
    || c == '\U{2028}' || c == '\U{2029}' || c == '\U{202F}' || c == '\U{205F}'
    || c == '\U{3000}'
  }

  predicate IsUpper(c: char) {
    'A' <= c <= 'Z'
  }

  /** `str.lower()` restricted to ASCII: other characters are left as they are. */
  function LowerChar(c: char): (d: char)
    ensures IsUpper(c) ==> d as int == c as int + 32
    ensures !IsUpper(c) ==> d == c
  {
    if IsUpper(c) then (c as int + 32) as char else c
  }

  function Lower(s: string): (r: string)
    ensures |r| == |s|
    ensures forall i :: 0 <= i < |s| ==> r[i] == LowerChar(s[i])
  {
    seq(|s|, i requires 0 <= i < |s| => LowerChar(s[i]))
  }

  /** The characters the pattern `[a-z0-9_]` matches. */
  predicate IsLabelChar(c: char) {
    ('a' <= c <= 'z') || ('0' <= c <= '9') || c == '_'
  }

  /** `s` has the separator starting at position `i`. */
  predicate SepAt(s: string, i: int) {
    0 <= i && i + 1 < |s| && s[i] == ',' && s[i + 1] == ' '
  }

  predicate ContainsSep(s: string) {
    exists i :: 0 <= i < |s| && SepAt(s, i)
  }

  /** The position of the leftmost separator in `s`, if there is one. */
  function FindSep(s: string): (r: Option<nat>)
    ensures r.None? <==> !ContainsSep(s)
    ensures r.Some? ==> SepAt(s, r.value) && !ContainsSep(s[..r.value + 1])
    decreases |s|
  {
    if |s| < 2 then
      None
    else if SepAt(s, 0) then
      Some(0)
    else
      match FindSep(s[1..])
      case None =>
        assert forall i :: SepAt(s, i) ==> i >= 1 && SepAt(s[1..], i - 1);
        None
      case Some(j) =>
        var head, tail := s[..j + 2], s[1..][..j + 1];
        assert SepAt(s, j + 1);
        assert forall i :: SepAt(head, i) ==> i >= 1 && SepAt(tail, i - 1);
        Some(j + 1)
  }

  /** Conversely, a separator with none before it is the one `FindSep` finds. */
  lemma {:induction false} FindSepLeftmost(s: string, i: nat)
    requires SepAt(s, i)
    requires forall k :: 0 <= k < i ==> !SepAt(s, k)
    ensures FindSep(s) == Some(i)
    decreases i
  {
    if i > 0 {
      assert !SepAt(s, 0);
      assert SepAt(s[1..], i - 1);
      forall k | 0 <= k < i - 1 ensures !SepAt(s[1..], k) {
        assert !SepAt(s, k + 1);
      }
      FindSepLeftmost(s[1..], i - 1);
    }
  }

  /** Python's `s.split(", ")`: the pieces between consecutive separators, found
      left to right; a string without a separator is one piece. */
  function Split(s: string): (parts: seq<string>)
    ensures |parts| >= 1
    ensures forall p :: p in parts ==> !ContainsSep(p)
    decreases |s|
  {
    match FindSep(s)
    case None => [s]
    case Some(i) =>
      assert s[..i] == s[..i + 1][..i];
      assert forall k :: SepAt(s[..i], k) ==> SepAt(s[..i + 1], k);
      [s[..i]] + Split(s[i + 2..])
  }

  /** Python's `", ".join(parts)`. */
  function Join(parts: seq<string>): string {
    if |parts| == 0 then ""
    else if |parts| == 1 then parts[0]
    else parts[0] + Sep + Join(parts[1..])
  }

  /** Joining the pieces of a split with the separator restores the string. */
  lemma {:induction false} JoinSplit(s: string)
    ensures Join(Split(s)) == s
    decreases |s|
  {
    match FindSep(s)
    case None =>
    case Some(i) =>
      var rest := Split(s[i + 2..]);
      JoinSplit(s[i + 2..]);
      assert Split(s) == [s[..i]] + rest;
      assert Join(Split(s)) == s[..i] + Sep + Join(rest);
      assert s == s[..i] + Sep + s[i + 2..];
  }
}

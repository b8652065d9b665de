/** The column-label normaliser of src/day1_netflix_clean.py (lines 27-32):
    `strip()`, then `lower()`, then `replace(" ", "_")`, then deletion of every
    character outside `[a-z0-9_]`. */
module Labels {

  import opened Text

  /** How many whitespace characters `s` starts with. */
  function LeadingSpace(s: string): (n: nat)
    ensures n <= |s|
    ensures forall k :: 0 <= k < n ==> IsSpace(s[k])
    ensures n < |s| ==> !IsSpace(s[n])
  {
    if |s| == 0 || !IsSpace(s[0]) then 0 else 1 + LeadingSpace(s[1..])
  }

  /** How many whitespace characters `s` ends with. */
  function TrailingSpace(s: string): (n: nat)
    ensures n <= |s|
    ensures forall k :: |s| - n <= k < |s| ==> IsSpace(s[k])
    ensures n < |s| ==> !IsSpace(s[|s| - 1 - n])
  {
    if |s| == 0 || !IsSpace(s[|s| - 1]) then 0 else 1 + TrailingSpace(s[..|s| - 1])
  }

  /** `str.strip()`: the label without its surrounding whitespace. */
  function Strip(s: string): (r: string)
    ensures r == [] || (!IsSpace(r[0]) && !IsSpace(r[|r| - 1]))
    ensures var i := LeadingSpace(s);
      && i + |r| <= |s|
      && r == s[i..i + |r|]
      && forall k :: 0 <= k < i || i + |r| <= k < |s| ==> IsSpace(s[k])
  {
    var lead := LeadingSpace(s);
    if lead == |s| then [] else s[lead..|s| - TrailingSpace(s)]
  }

  /** `str.replace(" ", "_")`: only the space character itself is replaced. */
  function ReplaceSpaces(s: string): (r: string)
    ensures |r| == |s|
    ensures ' ' !in r
    ensures forall i :: 0 <= i < |s| && s[i] == ' ' ==> r[i] == '_'
    ensures forall i :: 0 <= i < |s| && s[i] != ' ' ==> r[i] == s[i]
  {
    seq(|s|, i requires 0 <= i < |s| => if s[i] == ' ' then '_' else s[i])
  }

  /** `re.sub(r"[^a-z0-9_]", "", s)`: keeps exactly the characters the class
      accepts, in their order. */
  function KeepLabelChars(s: string): (r: string)
    ensures |r| <= |s|
    ensures forall c :: c in r <==> c in s && IsLabelChar(c)
    ensures (forall k :: 0 <= k < |s| ==> IsLabelChar(s[k])) ==> r == s
  {
    if |s| == 0 then []
    else
      var kept := KeepLabelChars(s[..|s| - 1]);
      assert s == s[..|s| - 1] + [s[|s| - 1]];
      if IsLabelChar(s[|s| - 1]) then kept + [s[|s| - 1]] else kept
  }

  /** Appending one character appends it to the result exactly when the class
      accepts it. */
  lemma KeepLabelCharsSnoc(s: string, c: char)
    ensures KeepLabelChars(s + [c]) == KeepLabelChars(s) + (if IsLabelChar(c) then [c] else [])
  {
    assert (s + [c])[..|s|] == s;
  }

  /** The deletion works character by character: on a concatenation it is the
      concatenation of the two deletions, and a single character is kept
      exactly when the class accepts it. Together these fix both the order and
      the number of the kept characters. */
  lemma {:induction false} KeepLabelCharsConcat(s: string, t: string)
    ensures KeepLabelChars(s + t) == KeepLabelChars(s) + KeepLabelChars(t)
    ensures |t| == 1 ==> KeepLabelChars(t) == (if IsLabelChar(t[0]) then t else [])
    decreases |t|
  {
    if |t| == 0 {
      assert s + t == s;
    } else {
      var p, last := t[..|t| - 1], t[|t| - 1];
      var kept := if IsLabelChar(last) then [last] else [];
      assert t == p + [last];
      assert s + t == (s + p) + [last];
      calc {
        KeepLabelChars(s + t);
        { KeepLabelCharsSnoc(s + p, last); }
        KeepLabelChars(s + p) + kept;
        { KeepLabelCharsConcat(s, p); }
        (KeepLabelChars(s) + KeepLabelChars(p)) + kept;
        KeepLabelChars(s) + (KeepLabelChars(p) + kept);
        { KeepLabelCharsSnoc(p, last); }
        KeepLabelChars(s) + KeepLabelChars(t);
      }
      if |t| == 1 {
        assert p == [];
      }
    }
  }

  /** A label the normaliser can produce: nothing but `[a-z0-9_]`. */
  predicate IsNormalized(s: string) {
    forall k :: 0 <= k < |s| ==> IsLabelChar(s[k])
  }

  /** The normalised form of one column label. It is built from `[a-z0-9_]`
      only and is never longer than the original label. */
  function Normalize(s: string): (r: string)
    ensures IsNormalized(r)
    ensures |r| <= |s|
  {
    KeepLabelChars(ReplaceSpaces(Lower(Strip(s))))
  }

  /** The assignment to `df.columns`: every label normalised, positions kept. */
  function NormalizeAll(labels: seq<string>): (r: seq<string>)
    ensures |r| == |labels|
    ensures forall i :: 0 <= i < |r| ==> r[i] == Normalize(labels[i])
    ensures forall i :: 0 <= i < |r| ==> IsNormalized(r[i]) && |r[i]| <= |labels[i]|
  {
    seq(|labels|, i requires 0 <= i < |labels| => Normalize(labels[i]))
  }

  /** The labels the normaliser leaves alone are exactly the normalised ones. */
  lemma {:induction false} NormalizeFixedPoints(s: string)
    ensures Normalize(s) == s <==> IsNormalized(s)
  {
    if IsNormalized(s) {
      assert forall k :: 0 <= k < |s| ==> !IsSpace(s[k]) && !IsUpper(s[k]) && s[k] != ' ';
      assert |s| > 0 ==> LeadingSpace(s) == 0 && TrailingSpace(s) == 0;
      assert Strip(s) == s;
      assert Lower(s) == s;
      assert ReplaceSpaces(s) == s;
    }
  }

  /** Normalising a normalised label is a no-op. */
  lemma NormalizeIdempotent(s: string)
    ensures Normalize(Normalize(s)) == Normalize(s)
  {
    NormalizeFixedPoints(Normalize(s));
  }

  /** The same, for the whole label sequence that `df.columns` receives. */
  lemma NormalizeAllIdempotent(labels: seq<string>)
    ensures NormalizeAll(NormalizeAll(labels)) == NormalizeAll(labels)
  {
    var once := NormalizeAll(labels);
    forall i | 0 <= i < |labels|
      ensures Normalize(once[i]) == once[i]
    {
      NormalizeIdempotent(labels[i]);
    }
  }
}

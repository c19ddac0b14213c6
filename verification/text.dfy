/**
  String operations of the JavaScript runtime that the dress-up script relies
  on, restated over `string` (= `seq<char>`): `String.prototype.replace` with a
  string pattern and a replacement free of `$`, `toLowerCase` (ASCII letters only), `endsWith`, and the
  item-id normalisation built from `endsWith`.
 */
module Text {

  /** `pat` occurs in `s` starting at index `i`. */
  predicate OccursAt(s: string, pat: string, i: nat) {
    i + |pat| <= |s| && s[i..i + |pat|] == pat
  }

  /** No occurrence of `pat` in `s` starts before index `k`. */
  predicate NoOccurrenceBefore(s: string, pat: string, k: nat) {
    forall j: nat :: j < k ==> !OccursAt(s, pat, j)
  }

  /** `pat` occurs nowhere in `s`. */
  predicate NoOccurrence(s: string, pat: string) {
    forall j: nat :: j <= |s| ==> !OccursAt(s, pat, j)
  }

  /** Occurrences in a tail are occurrences in the whole string, one index later. */
  lemma OccursInTail(s: string, pat: string, j: nat)
    requires |s| > 0
    ensures OccursAt(s[1..], pat, j) <==> OccursAt(s, pat, j + 1)
  {
    if j + 1 + |pat| <= |s| {
      assert s[1..][j..j + |pat|] == s[j + 1..j + 1 + |pat|];
    }
  }

  /** With no occurrence in `s`, there is none in its tail either. */
  lemma NoOccurrenceInTail(s: string, pat: string)
    requires |s| > 0 && NoOccurrence(s, pat)
    ensures NoOccurrence(s[1..], pat)
  {
    forall j: nat | j <= |s[1..]| ensures !OccursAt(s[1..], pat, j) {
      OccursInTail(s, pat, j);
    }
  }

  /**
    The first occurrence in `s` at `i > 0` is the first occurrence in the tail
    at `i - 1`, so replacing it in the tail and putting `s[0]` back replaces
    it in `s`.
   */
  lemma FirstOccurrenceInTail(s: string, pat: string, rep: string, tail: string, i: nat)
    requires 0 < i && OccursAt(s, pat, i) && NoOccurrenceBefore(s, pat, i)
    requires tail == s[1..][..i - 1] + rep + s[1..][i - 1 + |pat|..]
    ensures [s[0]] + tail == s[..i] + rep + s[i + |pat|..]
  {
    assert s[..i] == [s[0]] + s[1..][..i - 1];
    assert s[i + |pat|..] == s[1..][i - 1 + |pat|..];
  }

  /**
    `s.replace(pat, rep)` for a string pattern and a replacement free of `$`
    (JavaScript expands `$&`, `$$` and the like in the replacement; the script
    only ever passes ""): only the FIRST occurrence of `pat` is replaced; a
    string without one comes back unchanged.
   */
  function ReplaceFirst(s: string, pat: string, rep: string): (r: string)
    ensures NoOccurrence(s, pat) ==> r == s
    ensures forall i: nat {:trigger OccursAt(s, pat, i)} ::
              OccursAt(s, pat, i) && NoOccurrenceBefore(s, pat, i) ==>
                r == s[..i] + rep + s[i + |pat|..]
    decreases |s|
  {
    if |s| < |pat| then
      s
    else if s[..|pat|] == pat then
      assert OccursAt(s, pat, 0);
      rep + s[|pat|..]
    else
      var tail := ReplaceFirst(s[1..], pat, rep);
      assert !OccursAt(s, pat, 0);
      if NoOccurrence(s, pat) then
        NoOccurrenceInTail(s, pat);
        [s[0]] + tail
      else
        forall i: nat | OccursAt(s, pat, i) && NoOccurrenceBefore(s, pat, i)
          ensures [s[0]] + tail == s[..i] + rep + s[i + |pat|..]
        {
          OccursInTail(s, pat, i - 1);
          forall j: nat | j < i - 1 ensures !OccursAt(s[1..], pat, j) {
            OccursInTail(s, pat, j);
          }
          FirstOccurrenceInTail(s, pat, rep, tail, i);
        }
        [s[0]] + tail
  }

  /**
    Removing a pattern that ends the string gives back what precedes it,
    provided that part never contains the pattern's first character (so no
    earlier occurrence can start inside it).
   */
  lemma ReplaceFirstOfSuffix(stem: string, pat: string)
    requires |pat| > 0
    requires forall k :: 0 <= k < |stem| ==> stem[k] != pat[0]
    ensures ReplaceFirst(stem + pat, pat, "") == stem
  {
    var s := stem + pat;
    assert s[|stem|..|stem| + |pat|] == pat;
    assert OccursAt(s, pat, |stem|);
    forall j: nat | j < |stem| ensures !OccursAt(s, pat, j) {
      assert s[j] == stem[j];
      if j + |pat| <= |s| {
        assert s[j..j + |pat|][0] == s[j];
      }
    }
    assert s[..|stem|] == stem;
    assert s[|stem| + |pat|..] == [];
  }

  /** Stripping ".json" from a dot-free stem plus ".json" gives back the stem. */
  lemma ReplaceJsonExtension(stem: string)
    requires forall k :: 0 <= k < |stem| ==> stem[k] != '.'
    ensures ReplaceFirst(stem + ".json", ".json", "") == stem
  {
    ReplaceFirstOfSuffix(stem, ".json");
  }

  /** `toLowerCase` on one character; only ASCII 'A'..'Z' is mapped. */
  function LowerChar(ch: char): char {
    if 'A' <= ch <= 'Z' then (ch as int + 32) as char else ch
  }

  predicate IsUpper(ch: char) {
    'A' <= ch <= 'Z'
  }

  /** `s.toLowerCase()`, character by character. */
  function ToLower(s: string): (r: string)
    ensures |r| == |s|
    ensures forall k :: 0 <= k < |r| ==> !IsUpper(r[k])
  {
    seq(|s|, k requires 0 <= k < |s| => LowerChar(s[k]))
  }

  /**
    Lower-casing keeps the length, leaves no ASCII capital behind, keeps every
    other character, and moves each capital 32 code points up.
   */
  lemma ToLowerMapsCapitals(s: string)
    ensures |ToLower(s)| == |s|
    ensures forall k :: 0 <= k < |s| ==> !IsUpper(ToLower(s)[k])
    ensures forall k :: 0 <= k < |s| && !IsUpper(s[k]) ==> ToLower(s)[k] == s[k]
    ensures forall k :: 0 <= k < |s| && IsUpper(s[k]) ==> ToLower(s)[k] as int == s[k] as int + 32
  {
  }

  /** Lower-casing twice is lower-casing once. */
  lemma ToLowerIdempotent(s: string)
    ensures ToLower(ToLower(s)) == ToLower(s)
  {
    ToLowerMapsCapitals(s);
  }

  /** `s.endsWith(suffix)`: `s` is some string followed by `suffix`. */
  predicate EndsWith(s: string, suffix: string): (b: bool)
    ensures b <==> exists p :: s == p + suffix
  {
    if |suffix| <= |s| && s[|s| - |suffix|..] == suffix then
      assert s == s[..|s| - |suffix|] + suffix;
      true
    else
      false
  }

  /** The image extension that every rendered item id carries. */
  const PngExtension: string := ".png"

  /**
    The DOM id of an item: its data id with ".png" appended unless it already
    ends with ".png".
   */
  function NormalizeId(id: string): (r: string)
    ensures EndsWith(r, PngExtension)
    ensures |r| == |id| || |r| == |id| + |PngExtension|
    ensures r[..|id|] == id
  {
    if EndsWith(id, PngExtension) then id else id + PngExtension
  }

  /** An id is left alone exactly when it already ends with ".png". */
  lemma NormalizeIdFixedPoints(id: string)
    ensures NormalizeId(id) == id <==> EndsWith(id, PngExtension)
  {
    if NormalizeId(id) == id {
      assert EndsWith(NormalizeId(id), PngExtension);
    }
  }

  /** Normalising an already normalised id changes nothing. */
  lemma NormalizeIdIdempotent(id: string)
    ensures NormalizeId(NormalizeId(id)) == NormalizeId(id)
  {
    NormalizeIdFixedPoints(NormalizeId(id));
  }

  /**
    Two different data ids can become the same DOM id ("a" and "a.png"), which
    is why the visibility engine takes id uniqueness as given rather than
    deriving it from the data.
   */
  lemma NormalizeIdMergesIds()
    ensures exists a, b :: a != b && NormalizeId(a) == NormalizeId(b)
  {
    assert !EndsWith("a", PngExtension);
    assert EndsWith("a.png", PngExtension);
    assert NormalizeId("a") == "a.png";
    assert NormalizeId("a.png") == "a.png";
  }
}

/** File-name handling of `pathlib`: the suffix and stem of the last path
    component, and the lower-casing of a suffix. */
module Paths {

  /** `str.rfind`: the last index of `c` in `s`, or -1. */
  function LastIndexOf(s: string, c: char): (i: int)
    ensures -1 <= i < |s|
    ensures i >= 0 ==> s[i] == c
    ensures forall j | i < j < |s| :: s[j] != c
  {
    if s == [] then -1
    else if s[|s| - 1] == c then |s| - 1
    else LastIndexOf(s[..|s| - 1], c)
  }

  /** A dot that opens a suffix: neither the first nor the last character. */
  predicate HasSuffix(name: string)
  {
    0 < LastIndexOf(name, '.') < |name| - 1
  }

  /** `PurePath.suffix`: from the last dot on, or "" when that dot leads or
      ends the name, or there is none. */
  function Suffix(name: string): string
  {
    if HasSuffix(name) then name[LastIndexOf(name, '.')..] else ""
  }

  /** `PurePath.stem`: the name without its suffix. */
  function Stem(name: string): string
  {
    if HasSuffix(name) then name[..LastIndexOf(name, '.')] else name
  }

  /** A name is its stem followed by its suffix; a suffix is a dot and at
      least one further character, none of them a dot, after a non-empty stem. */
  lemma StemAndSuffix(name: string)
    ensures Stem(name) + Suffix(name) == name
    ensures Suffix(name) == "" || (|Suffix(name)| >= 2 && Suffix(name)[0] == '.' &&
                                   (forall j | 1 <= j < |Suffix(name)| :: Suffix(name)[j] != '.') &&
                                   |Stem(name)| >= 1)
  {
  }

  /** One stem for two file names that differ only in their suffix. */
  lemma StemExamples()
    ensures Stem("IMG_1.HEIC") == "IMG_1"
    ensures Stem("IMG_1.jpg") == "IMG_1"
  {
    var a, b := "IMG_1.HEIC", "IMG_1.jpg";
    assert a[5] == '.' && a[6] != '.' && a[7] != '.' && a[8] != '.' && a[9] != '.';
    assert LastIndexOf(a, '.') == 5;
    assert a[..5] == "IMG_1";
    assert b[5] == '.' && b[6] != '.' && b[7] != '.' && b[8] != '.';
    assert LastIndexOf(b, '.') == 5;
    assert b[..5] == "IMG_1";
  }

  function LowerChar(c: char): char
  {
    if 'A' <= c <= 'Z' then (c as int + 32) as char else c
  }

  /** `str.lower` on ASCII letters; other characters are kept. */
  function Lower(s: string): (r: string)
    ensures |r| == |s|
    ensures forall i | 0 <= i < |s| :: r[i] == LowerChar(s[i])
  {
    seq(|s|, i requires 0 <= i < |s| => LowerChar(s[i]))
  }

  /** Lower-casing keeps every dot where it is, so it keeps the last one. */
  lemma {:induction false} LowerKeepsLastDot(s: string)
    ensures LastIndexOf(Lower(s), '.') == LastIndexOf(s, '.')
  {
    if s != [] {
      var init := s[..|s| - 1];
      LowerKeepsLastDot(init);
      assert Lower(s)[..|s| - 1] == Lower(init);
      assert (LowerChar(s[|s| - 1]) == '.') == (s[|s| - 1] == '.');
    }
  }

  /** The suffix of a lower-cased name is the lower-cased suffix. */
  lemma SuffixOfLower(name: string)
    ensures Suffix(Lower(name)) == Lower(Suffix(name))
  {
    LowerKeepsLastDot(name);
    if HasSuffix(name) {
      var i := LastIndexOf(name, '.');
      assert Lower(name)[i..] == Lower(name[i..]);
    }
  }

  lemma LowerIdempotent(s: string)
    ensures Lower(Lower(s)) == Lower(s)
  {
    assert forall i | 0 <= i < |s| :: LowerChar(LowerChar(s[i])) == LowerChar(s[i]);
  }
}

/**
 * The modulation column of a bookmark row (main.py:36-39): the code is lower-cased,
 * and "fm" becomes "nfm", the token the receiver uses for narrow-band FM.
 * Every other code is kept, lower-cased, whatever it says.
 */
module Modulation {

  /** The token the receiver frontend understands for narrow-band FM. */
  const NarrowFm := "nfm"

  /** The code that is remapped to NarrowFm once lower-cased. */
  const Fm := "fm"

  predicate IsUpper(c: char) { 'A' <= c <= 'Z' }

  function LowerChar(c: char): (r: char)
    ensures !IsUpper(r)
    ensures IsUpper(c) ==> r as int == c as int + 32
    ensures !IsUpper(c) ==> r == c
  {
    if IsUpper(c) then (c as int + 32) as char else c
  }

  /** str.lower() on letters A-Z; every other character is kept. */
  function Lower(s: string): (r: string)
    ensures |r| == |s|
    ensures forall i :: 0 <= i < |s| ==> r[i] == LowerChar(s[i])
  {
    seq(|s|, i requires 0 <= i < |s| => LowerChar(s[i]))
  }

  predicate HasNoUpper(s: string) { forall i :: 0 <= i < |s| ==> !IsUpper(s[i]) }

  /** The stored modulation: the lower-cased code, with "fm" replaced by "nfm". */
  function Canonical(mode: string): (r: string)
    ensures HasNoUpper(r)
  {
    var lowered := Lower(mode);
    if lowered == Fm then NarrowFm else lowered
  }

  /** Lower-casing a string that has no upper-case letter leaves it unchanged. */
  lemma LowerOfLower(s: string)
    requires HasNoUpper(s)
    ensures Lower(s) == s
  {
  }

  /** Canonicalizing a canonical token gives the same token. */
  lemma CanonicalIdempotent(mode: string)
    ensures Canonical(Canonical(mode)) == Canonical(mode)
  {
    var r := Canonical(mode);
    LowerOfLower(r);
    assert r != Fm by {
      if r == Lower(mode) {
        assert Lower(mode) != Fm;
      }
    }
  }

  /** The result is "nfm" exactly when the code lower-cases to "fm" or to "nfm"; otherwise it is the lower-cased code. */
  lemma CanonicalCases(mode: string)
    ensures Canonical(mode) == NarrowFm <==> Lower(mode) == Fm || Lower(mode) == NarrowFm
    ensures Lower(mode) != Fm ==> Canonical(mode) == Lower(mode)
  {
  }

  /** The four case variants of "fm" are the only codes that lower-case to "fm". */
  lemma FmVariants(mode: string)
    ensures Lower(mode) == Fm <==> mode in {"fm", "fM", "Fm", "FM"}
  {
    if Lower(mode) == Fm {
      assert |mode| == 2;
      assert LowerChar(mode[0]) == 'f' && LowerChar(mode[1]) == 'm';
      assert mode == [mode[0], mode[1]];
      assert mode[0] == 'f' || mode[0] == 'F';
      assert mode[1] == 'm' || mode[1] == 'M';
    }
    if mode in {"fm", "fM", "Fm", "FM"} {
      assert Lower(mode) == [LowerChar(mode[0]), LowerChar(mode[1])];
    }
  }

  lemma ExampleCodes()
    ensures Canonical("FM") == NarrowFm
    ensures Canonical("AM") == "am"
    ensures Canonical("nfm") == NarrowFm
    ensures Canonical("USB") == "usb"
  {
    FmVariants("FM");
    assert Lower("AM") == "am";
    assert Lower("nfm") == "nfm";
    assert Lower("USB") == "usb";
  }
}

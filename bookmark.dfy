/**
 * The Bookmark record (main.py:25-39): a name, a frequency in hertz and a modulation
 * token. Its constructor sets each field once from three strings and raises when the
 * frequency string is not a number; here that is the None result.
 */
module Bookmarks {
  import opened Wrappers
  import Digits
  import Frequency
  import Modulation

  datatype Bookmark = Bookmark(name: string, frequency: int, modulation: string)

  /** Bookmark(name, freq, mode): None where `Bookmark.__init__` raises. */
  function NewBookmark(name: string, freq: string, mode: string): (r: Option<Bookmark>)
    ensures r.Some? <==> Frequency.WellFormed(Frequency.ReplaceCommas(freq))
    ensures r.Some? ==> r.value.name == name
    ensures r.Some? ==> r.value.modulation == Modulation.Canonical(mode)
    ensures r.Some? ==>
      && Frequency.ParseDecimal(Frequency.ReplaceCommas(freq)).Some?
      && var d := Frequency.ParseDecimal(Frequency.ReplaceCommas(freq)).value;
         Frequency.TruncatedQuotient(d.num * Frequency.HertzPerMegahertz, Digits.Pow10(d.scale), r.value.frequency)
  {
    match Frequency.ParseFrequency(freq)
    case None => None
    case Some(hz) => Some(Bookmark(name, hz, Modulation.Canonical(mode)))
  }

  /** The frequency field may use ',' or '.' as separator: the bookmark is the same. */
  lemma BookmarkSeparatorIndependent(name: string, freq: string, freq': string, mode: string)
    requires |freq| == |freq'|
    requires forall i :: 0 <= i < |freq| ==>
      freq[i] == freq'[i] || (Frequency.IsSeparator(freq[i]) && Frequency.IsSeparator(freq'[i]))
    ensures NewBookmark(name, freq, mode) == NewBookmark(name, freq', mode)
  {
    Frequency.SeparatorIndependent(freq, freq');
  }

  /** The row ["100.500", ..., "VHF Tower", "AM"] gives {"VHF Tower", 100500000, "am"}. */
  lemma ExampleAmBookmark()
    ensures NewBookmark("VHF Tower", "100.500", "AM") == Some(Bookmark("VHF Tower", 100500000, "am"))
  {
    Frequency.ExampleDottedHertz();
    Modulation.ExampleCodes();
  }

  /** Modulation "FM" is stored as "nfm", and the comma form of the frequency is read as a decimal point. */
  lemma ExampleFmBookmark()
    ensures NewBookmark("Repeater", "100,5", "FM") == Some(Bookmark("Repeater", 100500000, "nfm"))
  {
    Frequency.ExampleCommaHertz();
    Modulation.ExampleCodes();
  }

  /** "1,000.5" holds two separators once ',' is read as '.', and the constructor fails. */
  lemma ExampleRejectedBookmark()
    ensures NewBookmark("Broken", "1,000.5", "AM") == None
  {
    Frequency.TwoSeparatorsRejected("1,000.5", 1, 5);
  }
}

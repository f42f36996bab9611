/** The older candidate generator of src/vinlookup.rs. Its weight vector,
    transliteration table, check-digit loop, prefixes and `is_valid_vin`
    are character-for-character those of src/scraper/vinlookup.rs, so the
    definitions of module VinLookup serve both. What differs is the
    generator: it takes the serial as text, zero-pads it to six places
    and always uses the model-year character 'P'. */
module LegacyVinLookup {
  import opened Outcomes
  import opened Text
  import opened Numbers
  import opened Ordering
  import opened Models
  import opened VinLookup

  /** `VIN_YEAR` */
  const VinYearChar: char := 'P'

  /** `get_possible_vins_from_serial(serial: &str)` */
  function PossibleVinsFromText(serial: string): Result<seq<string>, ChecksumPanic> {
    PossibleVinsFor([VinYearChar, 'G'] + PadLeftZeros(serial, 6))
  }

  /** Generation succeeds exactly for a serial of at most six legal characters. */
  lemma OkIffShortLegal(serial: string)
    ensures PossibleVinsFromText(serial).Ok? <==> |serial| <= 6 && Legal(serial)
  {
    var p := PadLeftZeros(serial, 6);
    PadLegal(serial, 6);
    TailLegal(VinYearChar, p);
    PossibleVinsForOk([VinYearChar, 'G'] + p);
  }

  /** For a serial of at most six legal characters (any digit string of
      that length): 8 ascending candidates, one per prefix in string order,
      each 17 characters with 'P' at index 9, 'G' at index 10 and the
      padded serial after, each passing `is_valid_vin`. */
  lemma Candidates(serial: string)
    requires |serial| <= 6 && Legal(serial)
    ensures PossibleVinsFromText(serial).Ok?
    ensures var vs := PossibleVinsFromText(serial).value;
      |vs| == 8 && StrictlyIncreasing(vs) &&
      forall k :: 0 <= k < 8 ==>
        |vs[k]| == 17 && vs[k][..8] == SortedStarts()[k] &&
        vs[k][9] == 'P' && vs[k][10] == 'G' && vs[k][11..] == PadLeftZeros(serial, 6) &&
        IsValidVin(vs[k]) == Ok(true)
  {
    var tail := [VinYearChar, 'G'] + PadLeftZeros(serial, 6);
    PadLegal(serial, 6);
    TailLegal(VinYearChar, PadLeftZeros(serial, 6));
    LegalTailCandidates(tail);
    var vs := PossibleVinsFromText(serial).value;
    forall k | 0 <= k < 8 ensures vs[k][11..] == PadLeftZeros(serial, 6) {
      assert vs[k][11..] == vs[k][9..][2..];
    }
  }

  /** A digit string of at most six characters is legal VIN text. */
  lemma DigitTextLegal(serial: string)
    requires forall i :: 0 <= i < |serial| ==> IsDigit(serial[i])
    ensures Legal(serial)
  {}

  /** For model-year-2023 serials the old generator, given the serial's
      decimal text, makes the same candidates as the corrected scraper
      generator. */
  lemma AgreesWithScraper(serial: SerialNumber)
    requires 0 <= serial.value <= 411975
    ensures PossibleVinsFromText(Models.ToString(serial)) == PossibleVinsFromSerialPadded(serial)
  {}
}

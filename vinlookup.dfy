/** The VIN check digit and the candidate-VIN generator of
    src/scraper/vinlookup.rs.

    The check digit is the one of 49 CFR 565.15(c): each of the 17
    characters is transliterated to a number, multiplied by the weight of
    its position (0 at index 8, where the check digit sits), the products
    summed, and the sum reduced modulo 11, a remainder of 10 being written
    'X'. A candidate VIN is a known prefix, a placeholder at index 8, the
    model-year character, 'G' and the serial number; the placeholder is
    then replaced by the check digit. */
module VinLookup {
  import opened Outcomes
  import opened Text
  import opened Numbers
  import opened Ordering
  import opened Models

  /** `VIN_DIGIT_POSITION_MULTIPLIER` */
  const Weights: seq<nat> := [8, 7, 6, 5, 4, 3, 2, 10, 0, 9, 8, 7, 6, 5, 4, 3, 2]

  /** `VIN_DIGIT_VALUES`: letters other than I, O and Q, and the digits.
      The letters count 1 to 9 from A, from J and from S (P is 7, R is 9). */
  function CharValue(c: char): Option<nat> {
    if 'A' <= c <= 'H' then Some(c as int - 'A' as int + 1)
    else if 'J' <= c <= 'N' then Some(c as int - 'J' as int + 1)
    else if c == 'P' then Some(7)
    else if c == 'R' then Some(9)
    else if 'S' <= c <= 'Z' then Some(c as int - 'S' as int + 2)
    else if '0' <= c <= '9' then Some(c as int - '0' as int)
    else None
  }

  /** The 33 entries of the table, one by one. */
  lemma CharValueTable()
    ensures CharValue('A') == Some(1) && CharValue('B') == Some(2) && CharValue('C') == Some(3)
    ensures CharValue('D') == Some(4) && CharValue('E') == Some(5) && CharValue('F') == Some(6)
    ensures CharValue('G') == Some(7) && CharValue('H') == Some(8) && CharValue('J') == Some(1)
    ensures CharValue('K') == Some(2) && CharValue('L') == Some(3) && CharValue('M') == Some(4)
    ensures CharValue('N') == Some(5) && CharValue('P') == Some(7) && CharValue('R') == Some(9)
    ensures CharValue('S') == Some(2) && CharValue('T') == Some(3) && CharValue('U') == Some(4)
    ensures CharValue('V') == Some(5) && CharValue('W') == Some(6) && CharValue('X') == Some(7)
    ensures CharValue('Y') == Some(8) && CharValue('Z') == Some(9)
    ensures forall c :: '0' <= c <= '9' ==> CharValue(c) == Some(c as int - '0' as int)
    ensures CharValue('I') == None && CharValue('O') == None && CharValue('Q') == None
    ensures forall c :: !('0' <= c <= '9' || 'A' <= c <= 'Z') ==> CharValue(c) == None
  {}

  /** Every legal character is ASCII and not whitespace. */
  lemma LegalChar(c: char)
    requires CharValue(c).Some?
    ensures c as int < 0x80 && Utf8Len(c) == 1 && !IsWhitespace(c)
  {}

  /** The keys of `VIN_DIGIT_VALUES`, in declaration order. */
  const Keys: seq<char> := [
    'A', 'B', 'C', 'D', 'E', 'F', 'G', 'H', 'J', 'K', 'L', 'M', 'N', 'P', 'R', 'S',
    'T', 'U', 'V', 'W', 'X', 'Y', 'Z', '1', '2', '3', '4', '5', '6', '7', '8', '9', '0']

  /** The key list is exactly the transliteration table's domain. */
  lemma KeysAreTable(c: char)
    ensures CharValue(c).Some? <==> c in Keys
  {}

  predicate Legal(s: string) {
    forall i :: 0 <= i < |s| ==> CharValue(s[i]).Some?
  }

  lemma LegalIsAscii(s: string)
    requires Legal(s)
    ensures IsAscii(s) && ByteLen(s) == |s|
  {
    assert IsAscii(s) by {
      forall i | 0 <= i < |s| ensures s[i] as int < 0x80 {
        LegalChar(s[i]);
      }
    }
    ByteLenAscii(s);
  }

  lemma LegalByteLen(s: string)
    ensures Legal(s) ==> ByteLen(s) == |s|
  {
    if Legal(s) { LegalIsAscii(s); }
  }

  /** The panics of `get_check_sum_char`. */
  datatype ChecksumPanic =
    | InvalidLength(len: nat)
    | IllegalCharacter(c: char)
    | IndexOutOfBounds(index: nat)   // the weight array has 17 entries
  {
    /** The panic message. */
    function Message(): string {
      match this
      case InvalidLength(len) => "Invalid Length: " + NatToString(len)
      case IllegalCharacter(c) => "Illegal Character: " + [c]
      case IndexOutOfBounds(index) =>
        "index out of bounds: the len is 17 but the index is " + NatToString(index)
    }
  }

  /** The check character for a remainder modulo 11. */
  function CheckChar(rem: nat): (c: char)
    requires rem < 11
    ensures c == 'X' <==> rem == 10
    ensures rem < 10 ==> IsDigit(c) && DigitValue(c) == rem
    ensures CharValue(c).Some?
  {
    if rem == 10 then 'X' else DigitChar(rem)
  }

  // ---------------------------------------------------------------------------
  // Reference definition: the weighted sum of 49 CFR 565.15(c)

  function ValueOrZero(c: char): nat {
    CharValue(c).GetOr(0)
  }

  /** Sum of value times weight over positions `i` up to 17 (or the end). */
  function WeightedSumFrom(v: string, i: nat): nat
    decreases |v| - i
  {
    if i >= |v| || i >= 17 then 0
    else ValueOrZero(v[i]) * Weights[i] + WeightedSumFrom(v, i + 1)
  }

  function WeightedSum(v: string): nat {
    WeightedSumFrom(v, 0)
  }

  /** The check character of `v` by the regulation's formula. */
  function ReferenceCheck(v: string): char {
    CheckChar(WeightedSum(v) % 11)
  }

  /** Position 8 has weight 0: whatever sits there does not change the sum. */
  lemma {:induction false} WeightedSumIgnoresSlot8(v: string, c: char, i: nat)
    requires |v| > 8
    ensures WeightedSumFrom(v[8 := c], i) == WeightedSumFrom(v, i)
    decreases |v| - i
  {
    if i < |v| && i < 17 {
      WeightedSumIgnoresSlot8(v, c, i + 1);
    }
  }

  // ---------------------------------------------------------------------------
  // get_check_sum_char

  /** The accumulator after the first `i` characters of the loop, or the
      panic the loop raises among them. */
  function SumUpTo(vin: string, i: nat): Result<nat, ChecksumPanic>
    requires i <= |vin|
  {
    if i == 0 then Ok(0)
    else
      var total :- SumUpTo(vin, i - 1);
      match CharValue(vin[i - 1])
      case None => Err(IllegalCharacter(vin[i - 1]))
      case Some(value) =>
        if i - 1 >= |Weights| then Err(IndexOutOfBounds(i - 1))
        else Ok(total + value * Weights[i - 1])
  }

  /** Once the loop has panicked, later characters do not matter. */
  lemma {:induction false} SumUpToErrSticks(vin: string, i: nat, j: nat)
    requires i <= j <= |vin| && SumUpTo(vin, i).Err?
    ensures SumUpTo(vin, j) == SumUpTo(vin, i)
    decreases j
  {
    if j > i { SumUpToErrSticks(vin, i, j - 1); }
  }

  /** On legal text of at most 17 characters the loop accumulates the
      weighted sum of the prefix it has read. */
  lemma {:induction false} SumUpToValue(vin: string, i: nat)
    requires Legal(vin) && |vin| <= 17 && i <= |vin|
    ensures SumUpTo(vin, i) == Ok(WeightedSum(vin) - WeightedSumFrom(vin, i))
    ensures WeightedSumFrom(vin, i) <= WeightedSum(vin)
  {
    if i == 0 {
    } else {
      SumUpToValue(vin, i - 1);
    }
  }

  /** The loop panics with `IndexOutOfBounds(17)` on legal text longer than 17. */
  lemma {:induction false} SumUpToLong(vin: string, i: nat)
    requires Legal(vin) && 17 < i <= |vin|
    ensures SumUpTo(vin, i) == Err(IndexOutOfBounds(17))
  {
    if i == 18 {
      assert Legal(vin[..17]);
      SumUpToValue(vin[..17], 17);
      SumUpToPrefix(vin, 17);
    } else {
      SumUpToLong(vin, i - 1);
    }
  }

  /** The loop over a prefix sees the same characters as over the whole. */
  lemma {:induction false} SumUpToPrefix(vin: string, i: nat)
    requires i <= |vin|
    ensures SumUpTo(vin[..i], i) == SumUpTo(vin, i)
  {
    SumUpToPrefixFrom(vin, i, i);
  }

  lemma {:induction false} SumUpToPrefixFrom(vin: string, n: nat, i: nat)
    requires i <= n <= |vin|
    ensures SumUpTo(vin[..n], i) == SumUpTo(vin, i)
  {
    if i > 0 {
      SumUpToPrefixFrom(vin, n, i - 1);
      assert vin[..n][i - 1] == vin[i - 1];
    }
  }

  /** `get_check_sum_char`, as a value: panics on fewer than 17 bytes, on a
      character outside the table, and on a legal character past index 16. */
  function CheckSum(vin: string): (r: Result<char, ChecksumPanic>)
    ensures r.Ok? <==> |vin| == 17 && Legal(vin)
    ensures r.Ok? ==> r.value == ReferenceCheck(vin)
    ensures ByteLen(vin) < 17 ==> r == Err(InvalidLength(ByteLen(vin)))
  {
    if ByteLen(vin) < 17 then
      Err(InvalidLength(ByteLen(vin)))
    else
      CheckSumLoopOutcome(vin);
      var total :- SumUpTo(vin, |vin|);
      Ok(CheckChar(total % 11))
  }

  lemma CheckSumLoopOutcome(vin: string)
    requires ByteLen(vin) >= 17
    ensures SumUpTo(vin, |vin|).Ok? <==> |vin| == 17 && Legal(vin)
    ensures SumUpTo(vin, |vin|).Ok? ==> SumUpTo(vin, |vin|).value == WeightedSum(vin)
  {
    if Legal(vin) {
      LegalIsAscii(vin);
      if |vin| == 17 {
        SumUpToValue(vin, 17);
      } else {
        SumUpToLong(vin, |vin|);
      }
    } else {
      var k :| 0 <= k < |vin| && CharValue(vin[k]).None?;
      assert SumUpTo(vin, k + 1).Err?;
      SumUpToErrSticks(vin, k + 1, |vin|);
    }
  }

  /** The loop of `get_check_sum_char`, proved to compute `CheckSum`. */
  method GetCheckSumChar(vin: string) returns (r: Result<char, ChecksumPanic>)
    ensures r == CheckSum(vin)
  {
    var len := ByteLen(vin);
    if len < 17 {
      return Err(InvalidLength(len));
    }
    var total := 0;
    var i := 0;
    while i < |vin|
      invariant 0 <= i <= |vin|
      invariant SumUpTo(vin, i) == Ok(total)
    {
      var c := vin[i];
      match CharValue(c) {
        case None =>
          SumUpToErrSticks(vin, i + 1, |vin|);
          return Err(IllegalCharacter(c));
        case Some(value) =>
          if i >= |Weights| {
            SumUpToErrSticks(vin, i + 1, |vin|);
            return Err(IndexOutOfBounds(i));
          }
          total := total + value * Weights[i];
      }
      i := i + 1;
    }
    r := Ok(CheckChar(total % 11));
  }

  /** Texts that differ only at index 8, where both are legal, drive the
      loop through the same states, panics included. */
  lemma {:induction false} SumUpToSlot8(vin: string, w: string, i: nat)
    requires |vin| == |w| > 8 && forall k :: 0 <= k < |vin| && k != 8 ==> w[k] == vin[k]
    requires CharValue(vin[8]).Some? && CharValue(w[8]).Some?
    requires i <= |vin|
    ensures SumUpTo(w, i) == SumUpTo(vin, i)
  {
    if i > 0 { SumUpToSlot8(vin, w, i - 1); }
  }

  /** The check character does not depend on the (legal) character at
      index 8, whose weight is 0; nor does any panic. */
  lemma CheckSumIgnoresSlot8(vin: string, c: char)
    requires |vin| > 8 && CharValue(c).Some? && CharValue(vin[8]).Some?
    ensures CheckSum(vin[8 := c]) == CheckSum(vin)
  {
    ByteLenSlot8(vin, c);
    SumUpToSlot8(vin, vin[8 := c], |vin|);
  }

  /** Replacing a legal character with another one keeps the byte length. */
  lemma ByteLenSlot8(vin: string, c: char)
    requires |vin| > 8 && CharValue(c).Some? && CharValue(vin[8]).Some?
    ensures ByteLen(vin[8 := c]) == ByteLen(vin)
  {
    var a, b := vin[..8], vin[9..];
    assert vin == a + ([vin[8]] + b);
    assert vin[8 := c] == a + ([c] + b);
    ByteLenAppend(a, [vin[8]] + b);
    ByteLenAppend(a, [c] + b);
    LegalChar(c);
    LegalChar(vin[8]);
    assert ByteLen([c] + b) == 1 + ByteLen(b);
    assert ([vin[8]] + b)[1..] == b;
    assert ByteLen([vin[8]] + b) == 1 + ByteLen(b);
  }

  // ---------------------------------------------------------------------------
  // is_valid_vin

  /** `is_valid_vin`: false unless the text is 17 bytes long; otherwise the
      check digit is recomputed (which may panic) and compared with index 8. */
  function IsValidVin(vin: string): (r: Result<bool, ChecksumPanic>)
    ensures ByteLen(vin) != 17 ==> r == Ok(false)
    ensures |vin| == 17 && Legal(vin) ==> r == Ok(vin[8] == ReferenceCheck(vin))
    ensures r.Err? <==> ByteLen(vin) == 17 && !Legal(vin)
  {
    LegalByteLen(vin);
    if ByteLen(vin) != 17 then Ok(false)
    else
      match CheckSum(vin)
      case Err(e) => Err(e)
      case Ok(c) => Ok(c == vin[8])
  }

  // ---------------------------------------------------------------------------
  // VinYear::from_serial

  const YearVinValues: map<string, char> := map["2023" := 'P', "2024" := 'R']

  datatype VinYear = VinYear(year: nat, vinChar: char)

  /** Serials above 411975 are model year 2024, the others 2023. */
  function FromSerial(serial: SerialNumber): (y: VinYear)
    ensures serial.value > 411975 ==> y == VinYear(2024, 'R')
    ensures serial.value <= 411975 ==> y == VinYear(2023, 'P')
  {
    if serial.value > 411975 then VinYear(2024, YearVinValues["2024"])
    else VinYear(2023, YearVinValues["2023"])
  }

  // ---------------------------------------------------------------------------
  // get_possible_vins_starts and get_possible_vins_from_serial

  const ModelDigits: seq<nat> := [2, 3, 5, 6]
  const Drives: seq<char> := ['D', '4']

  /** `get_possible_vins_starts`: "5XYP{model}{drive}GC", models outer. */
  function Starts(): (r: seq<string>)
    ensures |r| == 8
    ensures forall i :: 0 <= i < 8 ==> |r[i]| == 8 && Legal(r[i])
  {
    seq(8, i requires 0 <= i < 8 =>
      "5XYP" + [DigitChar(ModelDigits[i / 2])] + [Drives[i % 2]] + "GC")
  }

  /** The starts in string order: '4' sorts before 'D'. */
  function Swap(k: nat): nat {
    if k % 2 == 0 then k + 1 else k - 1
  }

  function SortedStarts(): (r: seq<string>)
    ensures |r| == 8
    ensures forall k :: 0 <= k < 8 ==> r[k] == Starts()[Swap(k)]
  {
    seq(8, k requires 0 <= k < 8 => Starts()[Swap(k)])
  }

  lemma SortedStartsIncreasing()
    ensures StrictlyIncreasing(SortedStarts())
  {
    var s := SortedStarts();
    forall k | 0 <= k < 7 ensures Less(s[k], s[k + 1]) {
      if k % 2 == 0 {
        assert s[k][..5] == s[k + 1][..5];
        LessAt(s[k], s[k + 1], 5);
      } else {
        assert s[k][..4] == s[k + 1][..4];
        LessAt(s[k], s[k + 1], 4);
      }
    }
    StrictlyIncreasingByAdjacent(s);
  }

  /** The text before the check digit: prefix and placeholder. */
  function Candidate(start: string, key: char, tail: string): string {
    start + [key] + tail
  }

  /** The raw candidates in `iproduct!` order: prefixes outer, keys inner. */
  function Candidates(tail: string): (r: seq<string>)
    ensures |r| == 8 * 33
  {
    seq(8 * 33, i requires 0 <= i < 8 * 33 => Candidate(Starts()[i / 33], Keys[i % 33], tail))
  }

  /** The second `map`: splice the check digit in at index 8. */
  function Splice(vin: string): (r: Result<string, ChecksumPanic>)
    ensures r.Ok? <==> CheckSum(vin).Ok?
    ensures r.Ok? ==> |vin| == 17 && r.value == vin[..8] + [CheckSum(vin).value] + vin[9..]
  {
    var c :- CheckSum(vin);
    Ok(vin[..8] + [c] + vin[9..])
  }

  /** `collect_vec` of the mapped candidates: the first panic, if any. */
  function SpliceAll(vs: seq<string>): (r: Result<seq<string>, ChecksumPanic>)
    ensures r.Ok? <==> forall i :: 0 <= i < |vs| ==> Splice(vs[i]).Ok?
    ensures r.Ok? ==> |r.value| == |vs| && forall i :: 0 <= i < |vs| ==> r.value[i] == Splice(vs[i]).value
    ensures vs != [] && Splice(vs[0]).Err? ==> r == Err(Splice(vs[0]).error)
  {
    if vs == [] then Ok([])
    else
      var first :- Splice(vs[0]);
      var rest :- SpliceAll(vs[1..]);
      assert forall i :: 1 <= i < |vs| ==> vs[i] == vs[1..][i - 1];
      Ok([first] + rest)
  }

  /** The candidate pipeline for a given tail (year character, 'G' and
      the serial text): map, splice, sort, dedup. */
  function PossibleVinsFor(tail: string): Result<seq<string>, ChecksumPanic> {
    var spliced :- SpliceAll(Candidates(tail));
    Ok(Dedup(Sort(spliced)))
  }

  /** The finished VIN for a prefix: the check digit computed with any
      placeholder. */
  function Completed(start: string, tail: string): string {
    start + [ReferenceCheck(start + ['0'] + tail)] + tail
  }

  function Expected(tail: string): (r: seq<string>)
    ensures |r| == 8
  {
    seq(8, k requires 0 <= k < 8 => Completed(SortedStarts()[k], tail))
  }

  /** Splicing the check digit into any candidate with a legal placeholder
      gives the completed VIN. */
  lemma SpliceCandidate(start: string, key: char, tail: string)
    requires |start| == 8 && Legal(start) && CharValue(key).Some?
    requires |tail| == 8 && Legal(tail)
    ensures Splice(Candidate(start, key, tail)) == Ok(Completed(start, tail))
  {
    var v := Candidate(start, key, tail);
    var z := start + ['0'] + tail;
    assert Legal(v) by {
      forall i | 0 <= i < 17 ensures CharValue(v[i]).Some? {
        if i > 8 { assert v[i] == tail[i - 9]; }
      }
    }
    assert z == v[8 := '0'];
    WeightedSumIgnoresSlot8(v, '0', 0);
    assert v[..8] == start && v[9..] == tail;
  }

  /** Every completed VIN passes `is_valid_vin`. */
  lemma CompletedIsValid(start: string, tail: string)
    requires |start| == 8 && Legal(start) && |tail| == 8 && Legal(tail)
    ensures |Completed(start, tail)| == 17
    ensures IsValidVin(Completed(start, tail)) == Ok(true)
  {
    var v := Completed(start, tail);
    var z := start + ['0'] + tail;
    assert Legal(v) by {
      forall i | 0 <= i < 17 ensures CharValue(v[i]).Some? {
        if i > 8 { assert v[i] == tail[i - 9]; }
      }
    }
    LegalIsAscii(v);
    assert v == z[8 := v[8]];
    WeightedSumIgnoresSlot8(z, v[8], 0);
  }

  /** The completed VINs, one per prefix in string order, are strictly
      increasing. */
  lemma ExpectedIncreasing(tail: string)
    ensures StrictlyIncreasing(Expected(tail))
  {
    var e := Expected(tail);
    var s := SortedStarts();
    SortedStartsIncreasing();
    forall i, j | 0 <= i < j < 8 ensures Less(e[i], e[j]) {
      LessExtend(s[i], s[j], [ReferenceCheck(s[i] + ['0'] + tail)] + tail, [ReferenceCheck(s[j] + ['0'] + tail)] + tail);
      assert e[i] == s[i] + ([ReferenceCheck(s[i] + ['0'] + tail)] + tail);
      assert e[j] == s[j] + ([ReferenceCheck(s[j] + ['0'] + tail)] + tail);
    }
  }

  /** The spliced candidates, in `iproduct!` order. */
  function Filled(tail: string): (r: seq<string>)
    ensures |r| == 8 * 33
  {
    seq(8 * 33, i requires 0 <= i < 8 * 33 => Completed(Starts()[i / 33], tail))
  }

  /** When each splice succeeds with the matching element of `fs`, so
      does splicing them all. */
  lemma {:induction false} SpliceAllOk(cs: seq<string>, fs: seq<string>)
    requires |cs| == |fs| && forall i :: 0 <= i < |cs| ==> Splice(cs[i]) == Ok(fs[i])
    ensures SpliceAll(cs) == Ok(fs)
  {
    if cs != [] {
      assert forall i :: 0 <= i < |cs| - 1 ==> cs[1..][i] == cs[i + 1] && fs[1..][i] == fs[i + 1];
      SpliceAllOk(cs[1..], fs[1..]);
      assert Splice(cs[0]) == Ok(fs[0]);
      assert fs == [fs[0]] + fs[1..];
    }
  }

  lemma SpliceAllCandidates(tail: string)
    requires |tail| == 8 && Legal(tail)
    ensures SpliceAll(Candidates(tail)) == Ok(Filled(tail))
  {
    var cs, fs := Candidates(tail), Filled(tail);
    forall i | 0 <= i < |cs| ensures Splice(cs[i]) == Ok(fs[i]) {
      SpliceCandidate(Starts()[i / 33], Keys[i % 33], tail);
    }
    SpliceAllOk(cs, fs);
  }

  /** Spliced candidate `i` is the completed VIN of prefix `i / 33`,
      which sits at `Swap(i / 33)` in string order. */
  lemma FilledAt(tail: string, i: nat)
    requires i < 8 * 33
    ensures Filled(tail)[i] == Expected(tail)[Swap(i / 33)]
  {
    var k := i / 33;
    assert 0 <= k < 8 && Swap(k) < 8 && Swap(Swap(k)) == k;
    assert SortedStarts()[Swap(k)] == Starts()[k];
  }

  /** A sequence made of 33 copies of each element of `e` (permuted by
      `Swap`) has the elements of `e`. */
  lemma RepeatedElems(f: seq<string>, e: seq<string>)
    requires |f| == 8 * 33 && |e| == 8
    requires forall i :: 0 <= i < 8 * 33 ==> f[i] == e[Swap(i / 33)]
    ensures Elems(f) == Elems(e)
  {
    forall x | x in f ensures x in e {
      var i :| 0 <= i < |f| && f[i] == x;
      assert Swap(i / 33) < 8;
    }
    forall x | x in e ensures x in f {
      var k :| 0 <= k < 8 && e[k] == x;
      var i := 33 * Swap(k);
      assert i / 33 == Swap(k) && Swap(Swap(k)) == k;
      assert f[i] == x;
    }
  }

  /** The 264 spliced candidates hold the 8 completed VINs, 33 times each. */
  lemma FilledElems(tail: string)
    ensures Elems(Filled(tail)) == Elems(Expected(tail))
  {
    forall i | 0 <= i < 8 * 33 ensures Filled(tail)[i] == Expected(tail)[Swap(i / 33)] {
      FilledAt(tail, i);
    }
    RepeatedElems(Filled(tail), Expected(tail));
  }

  /** Generation for a tail of 8 legal characters: exactly the completed
      VINs of the 8 prefixes, in ascending order. */
  lemma PossibleVinsForLegal(tail: string)
    requires |tail| == 8 && Legal(tail)
    ensures PossibleVinsFor(tail) == Ok(Expected(tail))
  {
    SpliceAllCandidates(tail);
    FilledElems(tail);
    ExpectedIncreasing(tail);
    SortDedupUnique(Filled(tail), Expected(tail));
  }

  /** Generation succeeds exactly when the tail is 8 legal characters:
      otherwise the first candidate already panics. */
  lemma PossibleVinsForOk(tail: string)
    ensures PossibleVinsFor(tail).Ok? <==> |tail| == 8 && Legal(tail)
  {
    if |tail| == 8 && Legal(tail) {
      PossibleVinsForLegal(tail);
    } else {
      var v := Candidates(tail)[0];
      assert v == Starts()[0] + ['A'] + tail;
      if |v| == 17 && Legal(v) {
        assert Legal(tail) by {
          forall i | 0 <= i < |tail| ensures CharValue(tail[i]).Some? {
            assert tail[i] == v[9 + i];
          }
        }
        assert false;
      }
    }
  }

  /** `get_possible_vins_from_serial` as written: the serial's `Display`
      ignores the `{:0>6}` width, so it is not padded. */
  function PossibleVinsFromSerial(serial: SerialNumber): Result<seq<string>, ChecksumPanic> {
    PossibleVinsFor([FromSerial(serial).vinChar, 'G'] + Models.ToString(serial))
  }

  /** The evidently intended behaviour: the serial zero-padded to 6 places. */
  function PossibleVinsFromSerialPadded(serial: SerialNumber): Result<seq<string>, ChecksumPanic> {
    PossibleVinsFor([FromSerial(serial).vinChar, 'G'] + PadLeftZeros(Models.ToString(serial), 6))
  }

  /** The rendering of a non-negative number is legal VIN text. */
  lemma DigitsLegal(n: nat)
    ensures Legal(NatToString(n))
  {
    var d := NatToString(n);
    forall i | 0 <= i < |d| ensures CharValue(d[i]).Some? {
      assert IsDigit(d[i]);
    }
  }

  lemma TailLegal(y: char, text: string)
    requires CharValue(y).Some?
    ensures Legal([y, 'G'] + text) <==> Legal(text)
  {
    var t := [y, 'G'] + text;
    assert forall i :: 0 <= i < |text| ==> t[i + 2] == text[i];
  }

  /** As written, exactly the six-digit serials produce candidates. */
  lemma UnpaddedOkIffSixDigits(serial: SerialNumber)
    ensures PossibleVinsFromSerial(serial).Ok? <==> 100000 <= serial.value <= 999999
  {
    var text := Models.ToString(serial);
    PossibleVinsForOk([FromSerial(serial).vinChar, 'G'] + text);
    TailLegal(FromSerial(serial).vinChar, text);
    if serial.value < 0 {
      assert CharValue(text[0]).None?;
    } else {
      DigitsLegal(serial.value);
      assert Pow10(5) == 100000 && Pow10(6) == 1000000;
      NatToStringLength(serial.value, 6);
      NatToStringLength(serial.value, 5);
    }
  }

  /** The padded text of a serial: six legal characters from 0 to
      999999, a '-' (illegal) below 0 and more than six digits above. */
  lemma PaddedText(serial: SerialNumber)
    ensures var p := PadLeftZeros(Models.ToString(serial), 6);
      (0 <= serial.value <= 999999 ==> |p| == 6 && Legal(p)) &&
      (serial.value < 0 ==> !Legal(p)) &&
      (serial.value > 999999 ==> |p| > 6)
  {
    if serial.value < 0 {
      NegativePadIllegal(Models.ToString(serial));
    } else {
      assert Pow10(6) == 1000000;
      NatToStringLength(serial.value, 6);
      if serial.value <= 999999 {
        DigitsLegal(serial.value);
        PadLegal(Models.ToString(serial), 6);
      }
    }
  }

  /** A text starting with '-' stays illegal once padded. */
  lemma NegativePadIllegal(text: string)
    requires |text| > 0 && text[0] == '-'
    ensures !Legal(PadLeftZeros(text, 6))
  {
    var p := PadLeftZeros(text, 6);
    assert p[|p| - |text|] == p[|p| - |text|..][0] == '-';
  }

  /** Zero-padding keeps text legal exactly when it was. */
  lemma PadLegal(s: string, w: nat)
    ensures Legal(PadLeftZeros(s, w)) <==> Legal(s)
  {
    var p := PadLeftZeros(s, w);
    var z := |p| - |s|;
    assert forall i :: 0 <= i < |s| ==> p[z + i] == p[z..][i] == s[i];
    if Legal(s) {
      forall i | 0 <= i < |p| ensures CharValue(p[i]).Some? {
        if i >= z { assert p[i] == s[i - z]; }
      }
    }
  }

  /** With padding, every serial from 0 to 999999 produces candidates. */
  lemma PaddedOkIffInRange(serial: SerialNumber)
    ensures PossibleVinsFromSerialPadded(serial).Ok? <==> 0 <= serial.value <= 999999
  {
    var p := PadLeftZeros(Models.ToString(serial), 6);
    PossibleVinsForOk([FromSerial(serial).vinChar, 'G'] + p);
    TailLegal(FromSerial(serial).vinChar, p);
    PaddedText(serial);
  }

  /** On six-digit serials the two agree. */
  lemma PaddedAgreesOnSixDigits(serial: SerialNumber)
    requires 100000 <= serial.value <= 999999
    ensures PossibleVinsFromSerialPadded(serial) == PossibleVinsFromSerial(serial)
  {
    SixDigits(serial.value);
  }

  /** The first candidate for a tail: the first prefix and key 'A'. */
  lemma FirstCandidate(tail: string)
    requires Legal(tail)
    ensures Candidates(tail)[0] == Starts()[0] + ['A'] + tail
    ensures Legal(Candidates(tail)[0]) && ByteLen(Candidates(tail)[0]) == 9 + |tail|
  {
    var v := Candidates(tail)[0];
    assert v == Starts()[0] + ['A'] + tail;
    assert Legal(v) by {
      forall i | 0 <= i < |v| ensures CharValue(v[i]).Some? {
        if i > 8 { assert v[i] == tail[i - 9]; }
      }
    }
    LegalIsAscii(v);
  }

  /** A legal tail shorter than 8 characters panics with the length of
      the first candidate. */
  lemma ShortTailPanics(tail: string)
    requires |tail| < 8 && Legal(tail)
    ensures PossibleVinsFor(tail) == Err(InvalidLength(9 + |tail|))
  {
    FirstCandidate(tail);
  }

  /** A legal tail longer than 8 characters runs past the weight array. */
  lemma LongTailPanics(tail: string)
    requires |tail| > 8 && Legal(tail)
    ensures PossibleVinsFor(tail) == Err(IndexOutOfBounds(17))
  {
    FirstCandidate(tail);
    var v := Candidates(tail)[0];
    SumUpToLong(v, |v|);
  }

  /** As written, a serial from 0 to 99999 panics with "Invalid Length"
      and one from 1000000 up indexes past the weight array. */
  lemma UnpaddedPanics(serial: SerialNumber)
    requires 0 <= serial.value < 100000 || serial.value >= 1000000
    ensures serial.value < 100000 ==>
      PossibleVinsFromSerial(serial) == Err(InvalidLength(11 + |Models.ToString(serial)|))
    ensures serial.value >= 1000000 ==> PossibleVinsFromSerial(serial) == Err(IndexOutOfBounds(17))
  {
    var text := Models.ToString(serial);
    DigitsLegal(serial.value);
    TailLegal(FromSerial(serial).vinChar, text);
    assert Pow10(5) == 100000 && Pow10(6) == 1000000;
    NatToStringLength(serial.value, 6);
    NatToStringLength(serial.value, 5);
    if serial.value < 100000 {
      ShortTailPanics([FromSerial(serial).vinChar, 'G'] + text);
    } else {
      LongTailPanics([FromSerial(serial).vinChar, 'G'] + text);
    }
  }

  /** Serial 12345 (model year 2023) makes the unpadded generator panic
      with "Invalid Length: 16"; with padding it yields candidates. */
  lemma ShortSerialPanics()
    ensures PossibleVinsFromSerial(SerialNumber(12345)) == Err(InvalidLength(16))
    ensures PossibleVinsFromSerialPadded(SerialNumber(12345)).Ok?
  {
    FiveDigits(12345);
    UnpaddedPanics(SerialNumber(12345));
    PaddedOkIffInRange(SerialNumber(12345));
  }

  lemma FiveDigits(n: nat)
    requires 10000 <= n < 100000
    ensures |NatToString(n)| == 5
  {
    assert Pow10(5) == 100000 && Pow10(4) == 10000;
    NatToStringLength(n, 5);
    NatToStringLength(n, 4);
  }

  /** Everything the generator promises, for the padded generator: 8
      candidates, ascending, one per prefix in order, each ending with the
      year character, 'G' and the padded serial, each a valid VIN. */
  lemma PaddedCandidates(serial: SerialNumber)
    requires 0 <= serial.value <= 999999
    ensures PossibleVinsFromSerialPadded(serial).Ok?
    ensures var vs := PossibleVinsFromSerialPadded(serial).value;
      |vs| == 8 && StrictlyIncreasing(vs) &&
      forall k :: 0 <= k < 8 ==>
        |vs[k]| == 17 && vs[k][..8] == SortedStarts()[k] &&
        vs[k][9..] == [FromSerial(serial).vinChar, 'G'] + PadLeftZeros(Models.ToString(serial), 6) &&
        IsValidVin(vs[k]) == Ok(true)
  {
    var p := PadLeftZeros(Models.ToString(serial), 6);
    PaddedText(serial);
    TailLegal(FromSerial(serial).vinChar, p);
    LegalTailCandidates([FromSerial(serial).vinChar, 'G'] + p);
  }

  /** What generation yields for a tail of 8 legal characters, spelled
      out: 8 ascending valid VINs, one per prefix in string order, each
      ending with the tail. */
  lemma LegalTailCandidates(tail: string)
    requires |tail| == 8 && Legal(tail)
    ensures PossibleVinsFor(tail).Ok?
    ensures var vs := PossibleVinsFor(tail).value;
      |vs| == 8 && StrictlyIncreasing(vs) &&
      forall k :: 0 <= k < 8 ==>
        |vs[k]| == 17 && vs[k][..8] == SortedStarts()[k] && vs[k][9..] == tail &&
        IsValidVin(vs[k]) == Ok(true)
  {
    PossibleVinsForLegal(tail);
    ExpectedIncreasing(tail);
    forall k | 0 <= k < 8
      ensures var e := Expected(tail)[k];
        |e| == 17 && e[..8] == SortedStarts()[k] && e[9..] == tail && IsValidVin(e) == Ok(true)
    {
      ExpectedAt(tail, k);
    }
  }

  lemma ExpectedAt(tail: string, k: nat)
    requires |tail| == 8 && Legal(tail) && k < 8
    ensures var e := Expected(tail)[k];
      |e| == 17 && e[..8] == SortedStarts()[k] && e[9..] == tail && IsValidVin(e) == Ok(true)
  {
    var st := SortedStarts()[k];
    assert Swap(k) < 8 && st == Starts()[Swap(k)];
    CompletedIsValid(st, tail);
  }
}

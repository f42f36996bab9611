/** The record types of src/models/mod.rs and the operations on them that
    are pure: serial-number parsing and rendering, `Add<i32>`, the
    max-or-0 rule of `highest_serial`, the `Dealer` and `ScraperLog`
    constructors, and the bind values of the paginated car listing. */
module Models {
  import opened Outcomes
  import opened Text
  import opened Numbers

  /** `SerialNumber(pub i32)` */
  datatype SerialNumber = SerialNumber(value: I32)

  /** `CarId(pub i32)`; ids are assigned by the database. */
  datatype CarId = CarId(value: int)

  /** `Display`: exactly the inner integer, in decimal. The formatter's
      width and fill are not consulted, so a `{:0>6}` around a serial
      number pads nothing. */
  function ToString(s: SerialNumber): string {
    IntToString(s.value)
  }

  const UnwrapNone := "called `Option::unwrap()` on a `None` value"

  /** `SerialNumber::from_str`: the last whitespace-separated token, parsed
      as an `i32`; panics on a blank input or a token that does not parse. */
  function FromStr(serial: string): Result<SerialNumber, Panic> {
    match LastToken(serial)
    case None => Err(Panic(UnwrapNone))
    case Some(token) =>
      match ParseI32(token)
      case Err(_) => Err(Panic("Could not parse ->>" + serial + "<<-"))
      case Ok(n) => Ok(SerialNumber(n))
  }

  /** `From<&String>`: the same token rule as `from_str`, with a different
      panic message when the token does not parse. */
  function FromString(serial: string): Result<SerialNumber, Panic> {
    match LastToken(serial)
    case None => Err(Panic(UnwrapNone))
    case Some(token) =>
      match ParseI32(token)
      case Err(kind) => Err(Panic("Could not parse: " + kind.Debug()))
      case Ok(n) => Ok(SerialNumber(n))
  }

  /** `From<Vin>`: `from_str` of the VIN from byte 11 on. */
  function FromVin(vin: string): Result<SerialNumber, Panic> {
    var tail :- ByteSlice(vin, 11, ByteLen(vin));
    FromStr(tail)
  }

  /** `Add<i32>`: adds to the inner integer, wrapping around on overflow. */
  function Add(s: SerialNumber, rhs: I32): (r: SerialNumber)
    ensures I32Min <= s.value + rhs <= I32Max ==> r == SerialNumber(s.value + rhs)
  {
    SerialNumber(WrapI32(s.value + rhs))
  }

  /** `highest_serial`: the largest stored serial number, or 0 when the
      table is empty (`max(serial_number)` is then NULL). */
  function HighestSerial(stored: set<I32>): (r: SerialNumber)
    ensures stored == {} ==> r == SerialNumber(0)
    ensures stored != {} ==> r.value in stored && forall x :: x in stored ==> x <= r.value
  {
    if stored == {} then SerialNumber(0)
    else
      MaxExists(stored);
      var m :| m in stored && forall x :: x in stored ==> x <= m;
      SerialNumber(m)
  }

  lemma {:induction false} MaxExists(s: set<I32>)
    requires s != {}
    ensures exists m :: m in s && forall x :: x in s ==> x <= m
  {
    var y :| y in s;
    var rest := s - {y};
    if rest == {} {
      assert s == {y};
    } else {
      MaxExists(rest);
      var m :| m in rest && forall x :: x in rest ==> x <= m;
      MaxStep(s, y, m);
    }
  }

  /** Adding one element back: the larger of it and the old maximum. */
  lemma MaxStep(s: set<I32>, y: I32, m: I32)
    requires y in s && m in s - {y} && forall x :: x in s - {y} ==> x <= m
    ensures var top := if m < y then y else m;
      top in s && forall x :: x in s ==> x <= top
  {
    assert forall x :: x in s ==> x in s - {y} || x == y;
  }

  /** `Dealer`; the car relationship is not stored. */
  datatype Dealer = Dealer(id: Option<int>, dealerCode: string, address: string, zip: string, carCount: I32)

  /** `Dealer::new`: not yet stored (no id), no cars counted. */
  function NewDealer(dealerCode: string, address: string, zip: string): (d: Dealer)
    ensures d.id.None? && d.carCount == 0
    ensures d.dealerCode == dealerCode && d.address == address && d.zip == zip
  {
    Dealer(None, dealerCode, address, zip, 0)
  }

  datatype ScraperLog = ScraperLog(id: Option<int>, foundCars: I32, runStart: string, runEnd: string, runType: string, success: bool)

  /** `ScraperLog::new`: not yet stored; the run ends at the clock reading
      `now` (`Utc::now().to_rfc2822()`). */
  function NewScraperLog(foundCars: I32, runStart: string, runType: string, success: bool, now: string): (log: ScraperLog)
    ensures log.id.None? && log.runEnd == now
    ensures log.foundCars == foundCars && log.runStart == runStart && log.runType == runType && log.success == success
  {
    ScraperLog(None, foundCars, runStart, now, runType, success)
  }

  /** The `LIMIT ? OFFSET ?` values of `CarRepository::get_all_paginated`:
      the page size, and `(page - 1) * page_size` in `i32` arithmetic. */
  function PageBinds(page: I32, pageSize: I32): (binds: (I32, I32))
    ensures binds.0 == pageSize
    ensures I32Min <= (page - 1) * pageSize <= I32Max ==> binds.1 == (page - 1) * pageSize
  {
    (pageSize, WrapI32(WrapI32(page - 1) * pageSize))
  }

  /** `get_all_paginated_id` binds the same two numbers as decimal text. */
  function PageBindsText(page: I32, pageSize: I32): (binds: (string, string))
    ensures ParseI32(binds.0) == Ok(pageSize)
    ensures ParseI32(binds.1) == Ok(PageBinds(page, pageSize).1)
  {
    var (limit, offset) := PageBinds(page, pageSize);
    ParseDisplay(limit);
    ParseDisplay(offset);
    (IntToString(limit), IntToString(offset))
  }

  // ---------------------------------------------------------------------------
  // Properties of the parsers

  /** `from_str` panics with the `unwrap` message exactly on blank input. */
  lemma FromStrBlank(serial: string)
    ensures FromStr(serial) == Err(Panic(UnwrapNone)) <==> AllWhitespace(serial)
  {
    TokensEmpty(serial);
    if LastToken(serial).Some? {
      var t := LastToken(serial).value;
      assert FromStr(serial) != Err(Panic(UnwrapNone)) by {
        if ParseI32(t).Err? {
          var m := "Could not parse ->>" + serial + "<<-";
          assert m[0] == 'C' && UnwrapNone[0] == 'c';
        }
      }
    }
  }

  /** Tokens before the last are ignored: a prefix ended by whitespace does
      not change whether parsing succeeds, nor the value. */
  lemma FromStrIgnoresPrefix(a: string, c: char, b: string)
    requires IsWhitespace(c) && !AllWhitespace(b)
    ensures FromStr(a + [c] + b).Ok? <==> FromStr(b).Ok?
    ensures FromStr(b).Ok? ==> FromStr(a + [c] + b) == FromStr(b)
  {
    TokensSplitAt(a, c, b);
    TokensEmpty(b);
  }

  /** Rendering a serial number and parsing it back gives it again. */
  lemma FromStrToString(s: SerialNumber)
    ensures FromStr(ToString(s)) == Ok(s)
  {
    NoWhitespaceInNumber(s.value);
    TokensOfWord(ToString(s));
    ParseDisplay(s.value);
  }

  /** `From<&String>` succeeds exactly when `from_str` does, with the same value. */
  lemma FromStringAgrees(serial: string)
    ensures FromString(serial).Ok? <==> FromStr(serial).Ok?
    ensures FromString(serial).Ok? ==> FromString(serial) == FromStr(serial)
  {}

  /** A number zero-padded to six digits reads back as that number. */
  lemma FromStrPadded(n: nat)
    requires n <= 999999
    ensures FromStr(PadLeftZeros(NatToString(n), 6)) == Ok(SerialNumber(n))
  {
    var d := NatToString(n);
    var p := PadLeftZeros(d, 6);
    assert NoWhitespace(p) by {
      forall i | 0 <= i < |p| ensures !IsWhitespace(p[i]) {
        if i >= |p| - |d| { assert p[i] == p[|p| - |d|..][i - (|p| - |d|)]; }
      }
    }
    TokensOfWord(p);
    ParsePadded(n);
  }

  /** The serial number of a VIN whose characters from index 11 on are a
      number zero-padded to six digits is that number. */
  lemma FromVinPadded(vin: string, n: nat)
    requires n <= 999999
    requires |vin| >= 11 && IsAscii(vin) && vin[11..] == PadLeftZeros(NatToString(n), 6)
    ensures FromVin(vin) == Ok(SerialNumber(n))
  {
    ByteLenAscii(vin);
    ByteSliceAscii(vin, 11, |vin|);
    assert vin[11..|vin|] == vin[11..];
    FromStrPadded(n);
  }

  /** `From<Vin>` panics on a VIN shorter than 11 bytes. */
  lemma FromVinShort(vin: string)
    requires ByteLen(vin) < 11
    ensures FromVin(vin).Err?
  {}
}

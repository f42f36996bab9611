/** The newer serial-number parser of src/models/serial.rs: `FromStr`
    with an error type instead of panics, `From<&String>` that unwraps it,
    `From<Vin>` and the derived `Add`. The newtype itself, its `Display`
    and `highest_serial` are those of module Models. */
module Serial {
  import opened Outcomes
  import opened Text
  import opened Numbers
  import Models

  type SerialNumber = Models.SerialNumber

  /** `SerialNumberParseError` */
  datatype ParseError = NoLastElement | ParseIntError(kind: IntErrorKind) {
    /** `{:?}` */
    function Debug(): string {
      match this
      case NoLastElement => "NoLastElement"
      case ParseIntError(kind) => "ParseIntError(" + kind.Debug() + ")"
    }
  }

  /** `SerialNumber::from_str`: the last whitespace-separated token, parsed
      as an `i32`. Blank input has no last token; any other failure is the
      token's parse error. */
  function FromStr(s: string): (r: Result<SerialNumber, ParseError>)
    ensures r == Err(NoLastElement) <==> AllWhitespace(s)
    ensures r.Ok? ==> NoWhitespace(Models.ToString(r.value))
  {
    TokensEmpty(s);
    var last :- match LastToken(s)
      case None => Err(NoLastElement)
      case Some(t) => Ok(t);
    match ParseI32(last)
    case Err(kind) => Err(ParseIntError(kind))
    case Ok(n) =>
      NoWhitespaceInNumber(n);
      Ok(Models.SerialNumber(n))
  }

  /** `From<&String>`: `from_str(..).unwrap()`. */
  function FromString(serial: string): (r: Result<SerialNumber, Panic>)
    ensures r.Ok? <==> FromStr(serial).Ok?
    ensures r.Ok? ==> r.value == FromStr(serial).value
  {
    match FromStr(serial)
    case Ok(n) => Ok(n)
    case Err(e) => Err(Panic("called `Result::unwrap()` on an `Err` value: " + e.Debug()))
  }

  /** `From<Vin>`: `From<&String>` of the VIN from byte 11 on. */
  function FromVin(vin: string): Result<SerialNumber, Panic> {
    var tail :- ByteSlice(vin, 11, ByteLen(vin));
    FromString(tail)
  }

  /** The derived `Add`: inner values added, wrapping on overflow. */
  function Add(a: SerialNumber, b: SerialNumber): (r: SerialNumber)
    ensures I32Min <= a.value + b.value <= I32Max ==> r.value == a.value + b.value
    ensures (r.value - (a.value + b.value)) % 0x1_0000_0000 == 0
  {
    Models.SerialNumber(WrapI32(a.value + b.value))
  }

  /** Earlier tokens are ignored: a prefix ended by whitespace does not
      change the result, error or value. */
  lemma FromStrIgnoresPrefix(a: string, c: char, b: string)
    requires IsWhitespace(c) && !AllWhitespace(b)
    ensures FromStr(a + [c] + b) == FromStr(b)
  {
    TokensSplitAt(a, c, b);
    TokensEmpty(b);
  }

  /** A last token that is not an `i32` gives that token's parse error. */
  lemma FromStrBadToken(s: string)
    requires !AllWhitespace(s) && ParseI32(LastToken(s).GetOr([])).Err?
    ensures FromStr(s) == Err(ParseIntError(ParseI32(LastToken(s).GetOr([])).error))
  {
    TokensEmpty(s);
  }

  /** Parsing the `Display` text of a serial number gives it back. */
  lemma FromStrToString(n: SerialNumber)
    ensures FromStr(Models.ToString(n)) == Ok(n)
  {
    NoWhitespaceInNumber(n.value);
    TokensOfWord(Models.ToString(n));
    ParseDisplay(n.value);
  }

  /** The two revisions of `from_str` accept the same texts and agree on
      the value; they differ only in how they fail. */
  lemma AgreesWithModels(s: string)
    ensures FromStr(s).Ok? <==> Models.FromStr(s).Ok?
    ensures FromStr(s).Ok? ==> FromStr(s).value == Models.FromStr(s).value
  {
    TokensEmpty(s);
  }

  /** A VIN whose characters from index 11 on are a number zero-padded to
      six digits yields that number; "...000123" yields 123. */
  lemma FromVinPadded(vin: string, n: nat)
    requires n <= 999999
    requires |vin| >= 11 && IsAscii(vin) && vin[11..] == PadLeftZeros(NatToString(n), 6)
    ensures FromVin(vin) == Ok(Models.SerialNumber(n))
  {
    ByteLenAscii(vin);
    ByteSliceAscii(vin, 11, |vin|);
    assert vin[11..|vin|] == vin[11..];
    Models.FromStrPadded(n);
    AgreesWithModels(vin[11..]);
  }
}

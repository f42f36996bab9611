/** The car record of src/models/car.rs and its trips through the three
    stores: the PDF bucket (VIN to sticker bytes), the key-value store
    (decimal serial to car) and the D1 `cars` table (serial to row id).

    The stores are maps held by an `Env` object; the methods that write
    them are proved against functions on a `Stores` value. The HTTP fetch
    of a window sticker, the PDF text extraction, the clock and the
    failures of the stores are parameters (`Ports`). */
module Cars {
  import opened Outcomes
  import opened Text
  import opened Numbers
  import opened Models
  import VinLookup

  type byte = x: int | 0 <= x < 256

  /** The bytes of an ASCII text. */
  function AsciiBytes(s: string): (r: seq<byte>)
    ensures |r| == |s|
  {
    seq(|s|, i requires 0 <= i < |s| => (s[i] as int) % 256)
  }

  /** The body the sticker service sends when it is rate limiting. */
  const SapBody: seq<byte> := AsciiBytes("SAP API limits exceeded")

  /** `Car`, as stored (a row, a KV value). Dates are clock readings. */
  datatype CarRecord = CarRecord(
    id: Option<CarId>,
    vin: string,
    extColor: string,
    intColor: string,
    carModel: string,
    optCode: string,
    shipTo: string,
    soldTo: string,
    createdDate: string,
    serialNumber: SerialNumber,
    modelYear: string,
    deadUntil: Option<string>,
    lastAttempt: Option<string>)

  /** `Car::new`: the creation date is the clock reading `now`, and the
      given creation date, `dead_until` and `last_attempt` are dropped. */
  function NewRecord(vin: string, extColor: string, intColor: string, carModel: string,
                     optCode: string, shipTo: string, soldTo: string, createdOn: string,
                     serialNumber: SerialNumber, modelYear: string,
                     deadUntil: Option<string>, lastAttempt: Option<string>, now: string): (r: CarRecord)
    ensures r.id.None? && r.deadUntil.None? && r.lastAttempt.None? && r.createdDate == now
    ensures r.vin == vin && r.extColor == extColor && r.intColor == intColor && r.carModel == carModel
    ensures r.optCode == optCode && r.shipTo == shipTo && r.soldTo == soldTo
    ensures r.serialNumber == serialNumber && r.modelYear == modelYear
  {
    CarRecord(None, vin, extColor, intColor, carModel, optCode, shipTo, soldTo, now,
              serialNumber, modelYear, None, None)
  }

  // ---------------------------------------------------------------------------
  // Car::from_pdf, from the extracted text on

  const ModelLabel := "MODEL/OPT.CODE"
  const ExtColorLabel := "EXTERIOR COLOR"
  const IntColorLabel := "INTERIOR COLOR"
  const VinLabel := "VEHICLE ID NUMBER"
  const PortLabel := "PORT OF ENTRY"
  const SoldToLabel := "Sold To"
  const ShipToLabel := "Ship To"

  /** `text.find(label).unwrap_or(0)` */
  function Anchor(text: string, name: string): nat {
    Find(text, name).GetOr(0)
  }

  /** The option code: the second '/'-separated, trimmed piece, or "". */
  function OptCode(codeText: string): (r: string)
    ensures r == [] || !IsWhitespace(r[0])
  {
    var pieces := TrimAll(Split(codeText, '/'));
    if |pieces| > 1 then
      assert pieces[1] == Trim(Split(codeText, '/')[1]);
      pieces[1]
    else ""
  }

  /** Splitting "model/option..." at '/' gives the option as second piece. */
  lemma SecondPiece(code: string, opt: string, rest: string)
    requires '/' !in code && '/' !in opt && (rest == [] || rest[0] == '/')
    ensures var pieces := Split(code + "/" + opt + rest, '/'); |pieces| > 1 && pieces[1] == opt
  {
    SplitAtSep(code, '/', opt + rest);
    assert code + "/" + opt + rest == code + ['/'] + (opt + rest);
    if rest == [] {
      SplitNoSep(opt, '/');
      assert opt + rest == opt;
    } else {
      SplitAtSep(opt, '/', rest[1..]);
      assert opt + rest == opt + ['/'] + rest[1..];
    }
  }

  /** The option code of "model/option" is the trimmed option; later
      '/'-separated pieces are ignored. */
  lemma OptCodeOfPair(code: string, opt: string, rest: string)
    requires '/' !in code && '/' !in opt && (rest == [] || rest[0] == '/')
    ensures OptCode(code + "/" + opt + rest) == Trim(opt)
  {
    SecondPiece(code, opt, rest);
  }

  /** Without a '/' there is no option code. */
  lemma OptCodeWithoutSlash(codeText: string)
    requires '/' !in codeText
    ensures OptCode(codeText) == ""
  {
    SplitNoSep(codeText, '/');
  }

  /** The raw text between the labels, before trimming. */
  datatype StickerText = StickerText(description: string, codeText: string, extColor: string,
                                     intColor: string, vin: string, soldTo: string, shipTo: string)

  /** Where `from_pdf` cuts the text: the offset of each label that ends
      a value, and the offset just after each label and its separator,
      where a value starts. */
  datatype Cuts = Cuts(model: nat, codeAt: nat, extColor: nat, extAt: nat, intColor: nat, intAt: nat,
                       vin: nat, vinAt: nat, port: nat, soldToAt: nat, shipTo: nat, shipToAt: nat)

  /** The cuts of `from_pdf`; a label that is absent counts as found at
      offset 0. */
  function CutsOf(text: string): Cuts {
    var m, e, i, v := Anchor(text, ModelLabel), Anchor(text, ExtColorLabel), Anchor(text, IntColorLabel), Anchor(text, VinLabel);
    var p, s, h := Anchor(text, PortLabel), Anchor(text, SoldToLabel), Anchor(text, ShipToLabel);
    Cuts(m, m + |ModelLabel| + 1, e, e + |ExtColorLabel| + 1, i, i + |IntColorLabel| + 1,
         v, v + |VinLabel| + 1, p, s + |SoldToLabel| + 2, h, h + |ShipToLabel| + 2)
  }

  /** The slicing of `from_pdf`: each field is the text from the end of
      one label (and its separator) to the start of the next; the ship-to
      code is the 5 bytes after its label. Any slice that is out of range,
      reversed or inside a character panics. */
  function StickerSlices(text: string): Result<StickerText, Panic> {
    SlicesAt(text, CutsOf(text))
  }

  /** The seven slices of `text` at the given cuts. */
  function SlicesAt(text: string, c: Cuts): Result<StickerText, Panic> {
    var description :- ByteSlice(text, 0, c.model);
    var codeText :- ByteSlice(text, c.codeAt, c.extColor);
    var extColor :- ByteSlice(text, c.extAt, c.intColor);
    var intColor :- ByteSlice(text, c.intAt, c.vin);
    var vin :- ByteSlice(text, c.vinAt, c.port);
    var soldTo :- ByteSlice(text, c.soldToAt, c.shipTo);
    var shipTo :- ByteSlice(text, c.shipToAt, c.shipToAt + 5);
    Ok(StickerText(description, codeText, extColor, intColor, vin, soldTo, shipTo))
  }

  /** `from_pdf` after text extraction: the slicing, then the fields. */
  function ParseSticker(text: string, now: string): (r: Result<CarRecord, Panic>)
    ensures r.Ok? ==> r.value.id.None? && r.value.modelYear == "2023"
    ensures r.Ok? ==> r.value.deadUntil.None? && r.value.lastAttempt == Some(now) && r.value.createdDate == now
    ensures r.Ok? ==> Models.FromVin(r.value.vin) == Ok(r.value.serialNumber)
    ensures r.Ok? ==> ByteLen(r.value.soldTo) == 5
    ensures r.Ok? ==> Trim(r.value.vin) == r.value.vin
    ensures r.Ok? ==> StickerSlices(text).Ok?
    ensures r.Ok? ==>
      (var raw := StickerSlices(text).value;
       r.value.carModel == Trim(raw.description) && r.value.optCode == OptCode(raw.codeText) &&
       r.value.extColor == Trim(raw.extColor) && r.value.intColor == Trim(raw.intColor) &&
       r.value.vin == Trim(raw.vin) && r.value.shipTo == Trim(raw.shipTo) &&
       ByteSlice(Trim(raw.soldTo), 0, 5) == Ok(r.value.soldTo))
    ensures StickerSlices(text).Err? ==> r == Err(StickerSlices(text).error)
  {
    var raw :- StickerSlices(text);
    ParseFields(raw, now)
  }

  /** Bytes in a `usize`: a 64-bit target is assumed. */
  const UsizeModulus: int := 0x1_0000_0000_0000_0000

  /** `a - b` on `usize` in a release build: below zero it wraps around. */
  function WrappingSub(a: nat, b: nat): nat
    requires b <= UsizeModulus
  {
    if a >= b then a - b else a - b + UsizeModulus
  }

  /** The dealer address (the sold-to text without the ship-to code) and
      its last 5 bytes. With an address shorter than 5 bytes `len() - 5`
      wraps around (a release build) and slicing from there panics. */
  function DealerZip(soldToValue: string, shipToValue: string): (r: Result<string, Panic>)
    ensures ByteLen(Trim(RemoveAll(soldToValue, shipToValue))) < 5 ==> r == Err(Panic("byte index out of bounds"))
    ensures var d := Trim(RemoveAll(soldToValue, shipToValue));
      IsAscii(d) && 5 <= |d| ==> r == Ok(d[|d| - 5..])
  {
    var dealerAddress := Trim(RemoveAll(soldToValue, shipToValue));
    var zipStart := WrappingSub(ByteLen(dealerAddress), 5);
    ByteSlicePastEnd(dealerAddress, zipStart, ByteLen(dealerAddress));
    if IsAscii(dealerAddress) && 5 <= |dealerAddress| then
      AsciiLastFive(dealerAddress);
      ByteSlice(dealerAddress, zipStart, ByteLen(dealerAddress))
    else
      ByteSlice(dealerAddress, zipStart, ByteLen(dealerAddress))
  }

  /** The last 5 bytes of an ASCII text are its last 5 characters. */
  lemma AsciiLastFive(d: string)
    requires IsAscii(d) && 5 <= |d|
    ensures ByteLen(d) == |d| && ByteSlice(d, |d| - 5, |d|) == Ok(d[|d| - 5..])
  {
    ByteLenAscii(d);
    ByteSliceAscii(d, |d| - 5, |d|);
    assert d[|d| - 5..|d|] == d[|d| - 5..];
  }

  /** The rest of `from_pdf`: trimming, the dealer address and zip, the
      first 5 bytes of the sold-to text and the serial number of the VIN. */
  function ParseFields(raw: StickerText, now: string): (r: Result<CarRecord, Panic>)
    ensures r.Ok? ==> r.value.id.None? && r.value.modelYear == "2023"
    ensures r.Ok? ==> r.value.deadUntil.None? && r.value.lastAttempt == Some(now) && r.value.createdDate == now
    ensures r.Ok? ==> Models.FromVin(r.value.vin) == Ok(r.value.serialNumber)
    ensures r.Ok? ==> ByteLen(r.value.soldTo) == 5
    ensures r.Ok? ==> Trim(r.value.vin) == r.value.vin
    ensures r.Ok? ==>
      r.value.carModel == Trim(raw.description) && r.value.optCode == OptCode(raw.codeText) &&
      r.value.extColor == Trim(raw.extColor) && r.value.intColor == Trim(raw.intColor) &&
      r.value.vin == Trim(raw.vin) && r.value.shipTo == Trim(raw.shipTo) &&
      ByteSlice(Trim(raw.soldTo), 0, 5) == Ok(r.value.soldTo)
    ensures r.Ok? <==>
      (DealerZip(Trim(raw.soldTo), Trim(raw.shipTo)).Ok? && ByteSlice(Trim(raw.soldTo), 0, 5).Ok? &&
       Models.FromVin(Trim(raw.vin)).Ok?)
  {
    var soldToValue := Trim(raw.soldTo);
    var shipToValue := Trim(raw.shipTo);
    var zip :- DealerZip(soldToValue, shipToValue);
    var soldToPrefix :- ByteSlice(soldToValue, 0, 5);
    ByteSliceBytes(soldToValue, 0, 5);
    var vinValue := Trim(raw.vin);
    TrimIdempotent(raw.vin);
    var serial :- Models.FromVin(vinValue);
    Ok(CarRecord(None, vinValue, Trim(raw.extColor), Trim(raw.intColor), Trim(raw.description),
                 OptCode(raw.codeText), shipToValue, soldToPrefix, now, serial, "2023", None, Some(now)))
  }

  lemma TrimIdempotent(s: string)
    ensures Trim(Trim(s)) == Trim(s)
  {
    var t := Trim(s);
    TrimNoEdges(t);
  }

  lemma TrimNoEdges(t: string)
    requires t == [] || (!IsWhitespace(t[0]) && !IsWhitespace(t[|t| - 1]))
    ensures Trim(t) == t
  {
    assert TrimStart(t) == t;
    assert TrimEnd(t) == t;
  }

  /** Labels after the model label that the slicing needs: without any of
      them some slice ends at offset 0 after it starts, and parsing panics. */
  lemma MissingLabelPanics(text: string, now: string)
    requires Find(text, ExtColorLabel).None? || Find(text, IntColorLabel).None? ||
             Find(text, VinLabel).None? || Find(text, PortLabel).None? ||
             Find(text, ShipToLabel).None?
    ensures ParseSticker(text, now).Err?
  {
    assert StickerSlices(text).Err?;
  }

  /** `from_pdf`: text extraction (a port whose error carries the error's
      `Debug` rendering; failure panics with `expect`'s message), then
      parsing. It never returns `Ok(None)` or `Err`. */
  function FromPdf(pdf: seq<byte>, extract: seq<byte> -> Result<string, string>, now: string): Result<CarRecord, Panic> {
    match extract(pdf)
    case Err(err) => Err(Panic("Couldn't parse pdf: " + err))
    case Ok(text) => ParseSticker(text, now)
  }

  // ---------------------------------------------------------------------------
  // Stores and ports

  datatype Stores = Stores(
    bucket: map<string, seq<byte>>,
    kv: map<string, CarRecord>,
    d1: map<I32, CarId>,
    nextId: nat)

  /** Which store operations fail. */
  datatype Faults = Faults(
    bucketGetFails: set<string>,
    bucketPutFails: set<string>,
    d1ReadFails: bool,
    d1WriteFails: bool,
    kvGetFails: bool,
    kvPutFails: bool)

  /** Outcome of the sticker fetch `vinlookup(vin)`. */
  datatype FetchResult = Fetched(body: seq<byte>) | FetchError(message: string) | FetchPanic(message: string)

  datatype Ports = Ports(
    fetch: string -> FetchResult,
    extract: seq<byte> -> Result<string, string>,
    now: string,
    faults: Faults)

  /** `worker::Error` (an `Err`) or a panic. */
  datatype Failure = Error(message: string) | Panicked(message: string) {
    function Debug(): string {
      match this
      case Error(m) => "RustError(\"" + m + "\")"
      case Panicked(m) => m
    }
  }

  /** Ids start at 1; the table's ids are below the next id and belong to one serial each. */
  ghost predicate Valid(s: Stores) {
    1 <= s.nextId &&
    (forall k :: k in s.d1 ==> 1 <= s.d1[k].value < s.nextId) &&
    (forall k, l :: k in s.d1 && l in s.d1 && k != l ==> s.d1[k] != s.d1[l])
  }

  /** What a run may do to the stores: the bucket and the table only gain
      entries, the key-value store only gains keys. */
  ghost predicate Grows(s: Stores, t: Stores) {
    (forall k :: k in s.bucket ==> k in t.bucket && t.bucket[k] == s.bucket[k]) &&
    (forall k :: k in s.d1 ==> k in t.d1 && t.d1[k] == s.d1[k]) &&
    (forall k :: k in s.kv ==> k in t.kv) &&
    s.nextId <= t.nextId
  }

  /** `from_d1_serial` */
  function FromD1Serial(s: Stores, f: Faults, serial: SerialNumber): Result<Option<CarId>, Failure> {
    if f.d1ReadFails then Err(Error("D1 query failed"))
    else if serial.value in s.d1 then Ok(Some(s.d1[serial.value]))
    else Ok(None)
  }

  /** `to_d1`: get-or-create by serial number. An existing row's id is
      returned untouched; otherwise one row is inserted and its id read back. */
  function ToD1Spec(car: CarRecord, s: Stores, f: Faults): (Result<CarId, Failure>, Stores) {
    match FromD1Serial(s, f, car.serialNumber)
    case Err(e) => (Err(e), s)
    case Ok(Some(id)) => (Ok(id), s)
    case Ok(None) =>
      if f.d1WriteFails then (Err(Error("\n\nError inserting car into db: D1 write failed")), s)
      else
        var s1 := s.(d1 := s.d1[car.serialNumber.value := CarId(s.nextId)], nextId := s.nextId + 1);
        match FromD1Serial(s1, f, car.serialNumber)
        case Err(e) => (Err(e), s1)
        case Ok(None) => (Err(Panicked("Couldn't find car we just saved")), s1)
        case Ok(Some(id)) => (Ok(id), s1)
  }

  /** The KV key of a car: its serial number in decimal. */
  function KvKey(serial: SerialNumber): string {
    Models.ToString(serial)
  }

  /** The car the key-value store holds for a serial, if any. */
  function Stored(s: Stores, serial: SerialNumber): Option<CarRecord> {
    if KvKey(serial) in s.kv then Some(s.kv[KvKey(serial)]) else None
  }

  /** `from_kv`: the stored car, if any. A failed read (and a value that
      does not deserialize) is not an error: it reads as no car. */
  function FromKv(s: Stores, f: Faults, serial: SerialNumber): (r: Option<CarRecord>)
    ensures r.Some? <==> !f.kvGetFails && KvKey(serial) in s.kv
    ensures r.Some? ==> r.value == s.kv[KvKey(serial)]
  {
    if f.kvGetFails then None else Stored(s, serial)
  }

  /** `to_kv`: both ids must be present and equal (otherwise it panics);
      then the car is stored under its decimal serial. */
  function ToKvSpec(car: CarRecord, sqlId: Option<CarId>, s: Stores, f: Faults): (Result<CarId, Failure>, Stores) {
    if sqlId.None? then (Err(Panicked("No SQL ID")), s)
    else if car.id.None? then (Err(Panicked("No SQL ID or doesn't match")), s)
    else if sqlId.value != car.id.value then (Err(Panicked("No SQL IDs Don't match")), s)
    else if f.kvPutFails then (Err(Error("Failed to save to kv")), s)
    else (Ok(car.id.value), s.(kv := s.kv[KvKey(car.serialNumber) := car]))
  }

  // ---------------------------------------------------------------------------
  // Car::from_vinlookup

  /** One candidate of the loop: go on to the next, or stop with a result. */
  datatype Step = Continue | Done(result: Result<Option<CarRecord>, Failure>, stores: Stores)

  const BrokenSize := 54
  const Broken := "BROKEN"

  /** The car returned for a bucket entry of exactly 54 bytes (a stored
      error page): every text field "BROKEN", no parsing. */
  function BrokenCar(vin: string, serial: SerialNumber, now: string): CarRecord {
    NewRecord(vin, Broken, Broken, Broken, Broken, Broken, Broken, now, serial, Broken,
              Some(now), Some(now), now)
  }

  /** A candidate whose sticker was just fetched: the rate-limit body
      stops the run; otherwise the sticker is stored, parsed, and the car
      saved to the table. */
  function FetchedStep(vin: string, data: seq<byte>, s: Stores, p: Ports): (st: Step)
    ensures st.Done?
  {
    if data == SapBody then Done(Err(Error("limits exceeded downstream")), s)
    else if vin in p.faults.bucketPutFails then Done(Err(Error("couldn't store pdf")), s)
    else
      SaveParsed(FromPdf(data, p.extract, p.now), s.(bucket := s.bucket[vin := data]), p.faults)
  }

  /** After the sticker is stored: a parsed car is saved to the table and
      returned with its id. */
  function SaveParsed(parsed: Result<CarRecord, Panic>, s: Stores, f: Faults): (st: Step)
    ensures st.Done?
  {
    match parsed
    case Err(e) => Done(Err(Panicked(e.message)), s)
    case Ok(car) =>
      var (id, t) := ToD1Spec(car, s, f);
      match id
      case Err(e) => Done(Err(e), t)
      case Ok(id) => Done(Ok(Some(car.(id := Some(id)))), t)
  }

  /** A candidate already in the bucket: a 54-byte entry is a broken
      sticker, anything else is parsed. Nothing is written. */
  function StoredStep(vin: string, pdf: seq<byte>, s: Stores, p: Ports): (st: Step)
    ensures st.Done? && st.stores == s
  {
    if |pdf| == BrokenSize then
      match Models.FromVin(vin)
      case Err(e) => Done(Err(Panicked(e.message)), s)
      case Ok(serial) => Done(Ok(Some(BrokenCar(vin, serial, p.now))), s)
    else
      match FromPdf(pdf, p.extract, p.now)
      case Err(e) => Done(Err(Panicked(e.message)), s)
      case Ok(car) => Done(Ok(Some(car)), s)
  }

  /** One iteration of the loop of `from_vinlookup`. A failed fetch is the
      only way on to the next candidate. */
  function TryVin(vin: string, s: Stores, p: Ports): Step {
    if vin in p.faults.bucketGetFails then Done(Err(Error("bucket get failed")), s)
    else if vin !in s.bucket then
      match p.fetch(vin)
      case FetchPanic(m) => Done(Err(Panicked(m)), s)
      case FetchError(_) => Continue
      case Fetched(data) => FetchedStep(vin, data, s, p)
    else StoredStep(vin, s.bucket[vin], s, p)
  }

  /** The loop over the candidates, in order. */
  function Scan(vins: seq<string>, s: Stores, p: Ports): (Result<Option<CarRecord>, Failure>, Stores) {
    if vins == [] then (Ok(None), s)
    else
      match TryVin(vins[0], s, p)
      case Continue => Scan(vins[1..], s, p)
      case Done(r, t) => (r, t)
  }

  /** `from_vinlookup` on the candidates a generator gave: a generator
      panic passes through, otherwise the candidates are scanned. */
  function LookupCandidates(generated: Result<seq<string>, VinLookup.ChecksumPanic>, s: Stores, p: Ports)
    : (Result<Option<CarRecord>, Failure>, Stores)
  {
    match generated
    case Err(e) => (Err(Panicked(e.Message())), s)
    case Ok(vins) => Scan(vins, s, p)
  }

  /** `from_vinlookup` with the serial zero-padded to six places, as evidently intended. */
  function VinlookupSpec(serial: SerialNumber, s: Stores, p: Ports): (Result<Option<CarRecord>, Failure>, Stores) {
    LookupCandidates(VinLookup.PossibleVinsFromSerialPadded(serial), s, p)
  }

  /** `from_vinlookup` as written: the serial is not padded. */
  function VinlookupSpecAsWritten(serial: SerialNumber, s: Stores, p: Ports): (Result<Option<CarRecord>, Failure>, Stores) {
    LookupCandidates(VinLookup.PossibleVinsFromSerial(serial), s, p)
  }

  // ---------------------------------------------------------------------------
  // The mutable world

  /** A method's result, holding car objects, against a specified result
      holding records. */
  predicate Matches(r: Result<Option<Car>, Failure>, spec: Result<Option<CarRecord>, Failure>)
    reads if r.Ok? && r.value.Some? then {r.value.value} else {}
  {
    match r
    case Err(e) => spec == Err(e)
    case Ok(None) => spec == Ok(None)
    case Ok(Some(car)) => spec == Ok(Some(car.Record()))
  }

  /** The three stores, updated in place. */
  class Env {
    var bucket: map<string, seq<byte>>
    var kv: map<string, CarRecord>
    var d1: map<I32, CarId>
    var nextId: nat

    function State(): Stores
      reads this
    {
      Stores(bucket, kv, d1, nextId)
    }

    constructor (s: Stores)
      ensures State() == s
    {
      bucket, kv, d1, nextId := s.bucket, s.kv, s.d1, s.nextId;
    }
  }

  class Car {
    var id: Option<CarId>
    var vin: string
    var extColor: string
    var intColor: string
    var carModel: string
    var optCode: string
    var shipTo: string
    var soldTo: string
    var createdDate: string
    var serialNumber: SerialNumber
    var modelYear: string
    var deadUntil: Option<string>
    var lastAttempt: Option<string>

    function Record(): CarRecord
      reads this
    {
      CarRecord(id, vin, extColor, intColor, carModel, optCode, shipTo, soldTo,
                createdDate, serialNumber, modelYear, deadUntil, lastAttempt)
    }

    /** `Car::new` */
    constructor New(vin: string, extColor: string, intColor: string, carModel: string,
                    optCode: string, shipTo: string, soldTo: string, createdOn: string,
                    serialNumber: SerialNumber, modelYear: string,
                    deadUntil: Option<string>, lastAttempt: Option<string>, now: string)
      ensures Record() == NewRecord(vin, extColor, intColor, carModel, optCode, shipTo, soldTo,
                                    createdOn, serialNumber, modelYear, deadUntil, lastAttempt, now)
    {
      this.id := None;
      this.vin := vin;
      this.extColor := extColor;
      this.intColor := intColor;
      this.carModel := carModel;
      this.optCode := optCode;
      this.shipTo := shipTo;
      this.soldTo := soldTo;
      this.createdDate := now;
      this.serialNumber := serialNumber;
      this.modelYear := modelYear;
      this.deadUntil := None;
      this.lastAttempt := None;
    }

    /** A car object holding a record (a parsed or deserialized car). */
    constructor FromRecord(r: CarRecord)
      ensures Record() == r
    {
      id, vin, extColor, intColor, carModel, optCode := r.id, r.vin, r.extColor, r.intColor, r.carModel, r.optCode;
      shipTo, soldTo, createdDate, serialNumber := r.shipTo, r.soldTo, r.createdDate, r.serialNumber;
      modelYear, deadUntil, lastAttempt := r.modelYear, r.deadUntil, r.lastAttempt;
    }

    /** `set_id`: the id becomes `Some(newId)`, nothing else changes. */
    method SetId(newId: CarId)
      modifies this
      ensures Record() == old(Record()).(id := Some(newId))
    {
      id := Some(newId);
    }

    /** `to_d1` */
    method ToD1(env: Env, p: Ports) returns (r: Result<CarId, Failure>)
      modifies env
      ensures (r, env.State()) == ToD1Spec(Record(), old(env.State()), p.faults)
    {
      if p.faults.d1ReadFails {
        return Err(Error("D1 query failed"));
      }
      if serialNumber.value in env.d1 {
        return Ok(env.d1[serialNumber.value]);
      }
      if p.faults.d1WriteFails {
        return Err(Error("\n\nError inserting car into db: D1 write failed"));
      }
      env.d1 := env.d1[serialNumber.value := CarId(env.nextId)];
      env.nextId := env.nextId + 1;
      if serialNumber.value in env.d1 {
        r := Ok(env.d1[serialNumber.value]);
      } else {
        r := Err(Panicked("Couldn't find car we just saved"));
      }
    }

    /** `to_kv` */
    method ToKv(env: Env, sqlId: Option<CarId>, p: Ports) returns (r: Result<CarId, Failure>)
      modifies env
      ensures (r, env.State()) == ToKvSpec(Record(), sqlId, old(env.State()), p.faults)
    {
      if sqlId.None? {
        return Err(Panicked("No SQL ID"));
      }
      if id.None? {
        return Err(Panicked("No SQL ID or doesn't match"));
      }
      if sqlId.value != id.value {
        return Err(Panicked("No SQL IDs Don't match"));
      }
      if p.faults.kvPutFails {
        return Err(Error("Failed to save to kv"));
      }
      env.kv := env.kv[KvKey(serialNumber) := Record()];
      r := Ok(id.value);
    }

    /** The fetched-sticker part of one iteration. */
    static method FetchedStepM(vin: string, data: seq<byte>, env: Env, p: Ports) returns (r: Result<Option<Car>, Failure>)
      modifies env
      ensures env.State() == FetchedStep(vin, data, old(env.State()), p).stores
      ensures Matches(r, FetchedStep(vin, data, old(env.State()), p).result)
      ensures r.Ok? && r.value.Some? ==> fresh(r.value.value)
    {
      if data == SapBody {
        return Err(Error("limits exceeded downstream"));
      }
      if vin in p.faults.bucketPutFails {
        return Err(Error("couldn't store pdf"));
      }
      env.bucket := env.bucket[vin := data];
      var parsed := FromPdf(data, p.extract, p.now);
      if parsed.Err? {
        return Err(Panicked(parsed.error.message));
      }
      var car := new Car.FromRecord(parsed.value);
      var id := car.ToD1(env, p);
      if id.Err? {
        return Err(id.error);
      }
      car.SetId(id.value);
      return Ok(Some(car));
    }

    /** The bucket-hit part of one iteration. */
    static method StoredStepM(vin: string, pdf: seq<byte>, p: Ports) returns (r: Result<Option<Car>, Failure>)
      ensures forall s :: Matches(r, StoredStep(vin, pdf, s, p).result)
      ensures r.Ok? && r.value.Some? ==> fresh(r.value.value)
    {
      if |pdf| == BrokenSize {
        var fromVin := Models.FromVin(vin);
        if fromVin.Err? {
          return Err(Panicked(fromVin.error.message));
        }
        var car := new Car.New(vin, Broken, Broken, Broken, Broken, Broken, Broken, p.now,
                               fromVin.value, Broken, Some(p.now), Some(p.now), p.now);
        return Ok(Some(car));
      }
      var parsed := FromPdf(pdf, p.extract, p.now);
      if parsed.Err? {
        return Err(Panicked(parsed.error.message));
      }
      var car := new Car.FromRecord(parsed.value);
      return Ok(Some(car));
    }

    /** The loop of `from_vinlookup` over the candidates, in order. */
    static method ScanM(vins: seq<string>, env: Env, p: Ports) returns (r: Result<Option<Car>, Failure>)
      modifies env
      ensures env.State() == Scan(vins, old(env.State()), p).1
      ensures Matches(r, Scan(vins, old(env.State()), p).0)
      ensures r.Ok? && r.value.Some? ==> fresh(r.value.value)
    {
      ghost var s0 := env.State();
      var i := 0;
      while i < |vins|
        invariant 0 <= i <= |vins|
        invariant env.State() == s0
        invariant Scan(vins[i..], s0, p) == Scan(vins, s0, p)
      {
        var vin := vins[i];
        assert vins[i..][0] == vin && vins[i..][1..] == vins[i + 1..];
        if vin in p.faults.bucketGetFails {
          return Err(Error("bucket get failed"));
        }
        if vin in env.bucket {
          r := StoredStepM(vin, env.bucket[vin], p);
          return;
        }
        var fetched := p.fetch(vin);
        if fetched.FetchPanic? {
          return Err(Panicked(fetched.message));
        }
        if fetched.Fetched? {
          r := FetchedStepM(vin, fetched.body, env, p);
          return;
        }
        i := i + 1;
      }
      return Ok(None);
    }

    /** `from_vinlookup`: generate the candidates, then scan them. */
    static method FromVinlookup(serial: SerialNumber, env: Env, p: Ports) returns (r: Result<Option<Car>, Failure>)
      modifies env
      ensures env.State() == VinlookupSpec(serial, old(env.State()), p).1
      ensures Matches(r, VinlookupSpec(serial, old(env.State()), p).0)
      ensures r.Ok? && r.value.Some? ==> fresh(r.value.value)
    {
      var generated := VinLookup.PossibleVinsFromSerialPadded(serial);
      if generated.Err? {
        return Err(Panicked(generated.error.Message()));
      }
      r := ScanM(generated.value, env, p);
    }
  }

  // ---------------------------------------------------------------------------
  // Properties

  /** `Car::new` ignores the creation date, `dead_until` and `last_attempt`
      it is given. */
  lemma NewIgnoresDates(vin: string, extColor: string, intColor: string, carModel: string,
                        optCode: string, shipTo: string, soldTo: string, serialNumber: SerialNumber,
                        modelYear: string, now: string,
                        createdOn1: string, deadUntil1: Option<string>, lastAttempt1: Option<string>,
                        createdOn2: string, deadUntil2: Option<string>, lastAttempt2: Option<string>)
    ensures NewRecord(vin, extColor, intColor, carModel, optCode, shipTo, soldTo, createdOn1,
                      serialNumber, modelYear, deadUntil1, lastAttempt1, now)
         == NewRecord(vin, extColor, intColor, carModel, optCode, shipTo, soldTo, createdOn2,
                      serialNumber, modelYear, deadUntil2, lastAttempt2, now)
  {}

  /** Get-or-create, part 1: a serial already in the table gets its id
      back and nothing is inserted. */
  lemma ToD1Existing(car: CarRecord, s: Stores, f: Faults)
    requires !f.d1ReadFails && car.serialNumber.value in s.d1
    ensures ToD1Spec(car, s, f) == (Ok(s.d1[car.serialNumber.value]), s)
  {}

  /** Get-or-create, part 2: otherwise exactly one row is inserted, under
      a fresh id, and a second call returns the same id and inserts nothing. */
  lemma ToD1Creates(car: CarRecord, s: Stores, f: Faults)
    requires !f.d1ReadFails && !f.d1WriteFails && car.serialNumber.value !in s.d1
    ensures var (r, t) := ToD1Spec(car, s, f);
      r == Ok(CarId(s.nextId)) && t.d1 == s.d1[car.serialNumber.value := CarId(s.nextId)] &&
      t.bucket == s.bucket && t.kv == s.kv &&
      ToD1Spec(car, t, f) == (r, t)
  {}

  /** `to_d1` keeps the table consistent and only adds to it; on success
      the table maps the car's serial to the returned id. */
  lemma ToD1Valid(car: CarRecord, s: Stores, f: Faults)
    requires Valid(s)
    ensures Valid(ToD1Spec(car, s, f).1) && Grows(s, ToD1Spec(car, s, f).1)
    ensures ToD1Spec(car, s, f).0.Ok? ==>
      ToD1Spec(car, s, f).1.d1[car.serialNumber.value] == ToD1Spec(car, s, f).0.value
    ensures ToD1Spec(car, s, f).1.d1.Keys <= s.d1.Keys + {car.serialNumber.value}
  {
    var t := ToD1Spec(car, s, f).1;
    if !f.d1ReadFails && !f.d1WriteFails && car.serialNumber.value !in s.d1 {
      var key := car.serialNumber.value;
      assert t == s.(d1 := s.d1[key := CarId(s.nextId)], nextId := s.nextId + 1);
      assert forall k :: k in t.d1 ==> 1 <= t.d1[k].value < t.nextId by {
        forall k | k in t.d1 ensures 1 <= t.d1[k].value < t.nextId {
          if k != key { assert t.d1[k] == s.d1[k]; }
        }
      }
      forall k, l | k in t.d1 && l in t.d1 && k != l ensures t.d1[k] != t.d1[l] {
        if k == key {
          assert l in s.d1 && t.d1[l] == s.d1[l];
          assert s.d1[l].value < s.nextId;
        } else if l == key {
          assert k in s.d1 && t.d1[k] == s.d1[k];
          assert s.d1[k].value < s.nextId;
        } else {
          assert t.d1[k] == s.d1[k] && t.d1[l] == s.d1[l];
        }
      }
    }
  }

  /** `to_kv` succeeds exactly when both ids are present and equal and the
      store accepts the write; then `from_kv` returns the car. */
  lemma ToKvRoundTrip(car: CarRecord, sqlId: Option<CarId>, s: Stores, f: Faults)
    ensures ToKvSpec(car, sqlId, s, f).0.Ok? <==>
      sqlId.Some? && car.id == sqlId && !f.kvPutFails
    ensures ToKvSpec(car, sqlId, s, f).0.Ok? ==>
      Stored(ToKvSpec(car, sqlId, s, f).1, car.serialNumber) == Some(car) &&
      ToKvSpec(car, sqlId, s, f).1.d1 == s.d1 && ToKvSpec(car, sqlId, s, f).1.bucket == s.bucket
    ensures ToKvSpec(car, sqlId, s, f).0.Err? ==> ToKvSpec(car, sqlId, s, f).1 == s
  {}

  /** Saving a parsed car keeps the stores consistent and only adds to
      the table, under the car's serial. */
  lemma SaveParsedValid(parsed: Result<CarRecord, Panic>, s: Stores, f: Faults)
    requires Valid(s)
    ensures var t := SaveParsed(parsed, s, f).stores;
      Valid(t) && Grows(s, t) && t.kv == s.kv && t.bucket == s.bucket &&
      exists k :: t.d1.Keys <= s.d1.Keys + {k}
  {
    match parsed
    case Err(_) =>
      assert s.d1.Keys <= s.d1.Keys + {0};
    case Ok(car) =>
      ToD1Valid(car, s, f);
  }

  /** A fetched sticker's step keeps the stores consistent and only adds
      to them, writing the table row of at most one serial. */
  lemma FetchedStepValid(vin: string, data: seq<byte>, s: Stores, p: Ports)
    requires Valid(s) && vin !in s.bucket
    ensures var t := FetchedStep(vin, data, s, p).stores;
      Valid(t) && Grows(s, t) && t.kv == s.kv && exists k :: t.d1.Keys <= s.d1.Keys + {k}
  {
    if data != SapBody && vin !in p.faults.bucketPutFails {
      var s1 := s.(bucket := s.bucket[vin := data]);
      assert Valid(s1) && Grows(s, s1);
      SaveParsedValid(FromPdf(data, p.extract, p.now), s1, p.faults);
    } else {
      assert s.d1.Keys <= s.d1.Keys + {0};
    }
  }

  /** A candidate step keeps the stores consistent and only adds to them,
      writing at most the table row of one serial. */
  lemma TryVinValid(vin: string, s: Stores, p: Ports)
    requires Valid(s)
    ensures TryVin(vin, s, p).Done? ==>
      Valid(TryVin(vin, s, p).stores) && Grows(s, TryVin(vin, s, p).stores) &&
      TryVin(vin, s, p).stores.kv == s.kv &&
      exists k :: TryVin(vin, s, p).stores.d1.Keys <= s.d1.Keys + {k}
  {
    if vin !in p.faults.bucketGetFails && vin !in s.bucket && p.fetch(vin).Fetched? {
      FetchedStepValid(vin, p.fetch(vin).body, s, p);
    } else {
      assert s.d1.Keys <= s.d1.Keys + {0};
    }
  }

  lemma {:induction false} ScanValid(vins: seq<string>, s: Stores, p: Ports)
    requires Valid(s)
    ensures Valid(Scan(vins, s, p).1) && Grows(s, Scan(vins, s, p).1)
    ensures Scan(vins, s, p).1.kv == s.kv
    ensures exists k :: Scan(vins, s, p).1.d1.Keys <= s.d1.Keys + {k}
  {
    if vins == [] {
      assert s.d1.Keys <= s.d1.Keys + {0};
    } else {
      TryVinValid(vins[0], s, p);
      if TryVin(vins[0], s, p).Continue? {
        ScanValid(vins[1..], s, p);
      }
    }
  }

  /** When every candidate is missing from the bucket and its fetch fails,
      the loop ends with `Ok(None)` and has written nothing. */
  lemma {:induction false} ScanExhausted(vins: seq<string>, s: Stores, p: Ports)
    requires forall i :: 0 <= i < |vins| ==>
      vins[i] !in p.faults.bucketGetFails && vins[i] !in s.bucket && p.fetch(vins[i]).FetchError?
    ensures Scan(vins, s, p) == (Ok(None), s)
  {
    if vins != [] {
      ScanExhausted(vins[1..], s, p);
    }
  }

  /** A rate-limit body for the first missing candidate ends the run with
      an error before anything is written. */
  lemma ScanRateLimited(vins: seq<string>, s: Stores, p: Ports)
    requires vins != [] && vins[0] !in p.faults.bucketGetFails && vins[0] !in s.bucket
    requires p.fetch(vins[0]) == Fetched(SapBody)
    ensures Scan(vins, s, p) == (Err(Error("limits exceeded downstream")), s)
  {}

  /** A bucket entry of exactly 54 bytes gives the "BROKEN" car of that
      VIN without parsing and without writing. */
  lemma ScanBrokenEntry(vins: seq<string>, s: Stores, p: Ports)
    requires vins != [] && vins[0] !in p.faults.bucketGetFails && vins[0] in s.bucket
    requires |s.bucket[vins[0]]| == 54 && Models.FromVin(vins[0]).Ok?
    ensures Scan(vins, s, p) == (Ok(Some(BrokenCar(vins[0], Models.FromVin(vins[0]).value, p.now))), s)
    ensures BrokenCar(vins[0], Models.FromVin(vins[0]).value, p.now).extColor == "BROKEN"
    ensures BrokenCar(vins[0], Models.FromVin(vins[0]).value, p.now).lastAttempt.None?
  {}

  /** A bucket read failure ends the run with an error and no writes. */
  lemma ScanBucketGetFails(vins: seq<string>, s: Stores, p: Ports)
    requires vins != [] && vins[0] in p.faults.bucketGetFails
    ensures Scan(vins, s, p).0.Err? && Scan(vins, s, p).1 == s
  {}

  /** A newly fetched sticker that parses is stored in the bucket, and the
      returned car carries the table id of its serial. */
  lemma ScanFetchedCar(vins: seq<string>, s: Stores, p: Ports)
    requires vins != [] && vins[0] !in p.faults.bucketGetFails && vins[0] !in s.bucket
    requires p.fetch(vins[0]).Fetched? && p.fetch(vins[0]).body != SapBody
    requires vins[0] !in p.faults.bucketPutFails
    requires FromPdf(p.fetch(vins[0]).body, p.extract, p.now).Ok?
    requires !p.faults.d1ReadFails && !p.faults.d1WriteFails
    ensures var (r, t) := Scan(vins, s, p);
      r.Ok? && r.value.Some? &&
      t.bucket == s.bucket[vins[0] := p.fetch(vins[0]).body] &&
      r.value.value.serialNumber.value in t.d1 &&
      r.value.value.id == Some(t.d1[r.value.value.serialNumber.value])
  {
    var data := p.fetch(vins[0]).body;
    var car := FromPdf(data, p.extract, p.now).value;
    var s1 := s.(bucket := s.bucket[vins[0] := data]);
    var st := SaveParsed(Ok(car), s1, p.faults);
    assert Scan(vins, s, p) == (st.result, st.stores) by {
      assert TryVin(vins[0], s, p) == FetchedStep(vins[0], data, s, p);
    }
    if car.serialNumber.value in s1.d1 {
      ToD1Existing(car, s1, p.faults);
    } else {
      ToD1Creates(car, s1, p.faults);
    }
  }
}

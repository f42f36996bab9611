# failcat: VIN guessing and car records, in Dafny

failcat looks up Kia window stickers by serial number. A serial number is
the last six digits of a VIN. The scraper turns a serial into the 8 VINs
it could belong to. There is one VIN per model/drive prefix `5XYP{2,3,5,6}{D,4}GC`,
with the model-year character, a 'G' and the serial after it. The check
digit of 49 CFR 565.15(c) goes at index 8. The scraper then tries the
candidates in order: it looks in the PDF bucket first and otherwise asks
the sticker service. It parses the sticker text into a car and saves the
car to the D1 `cars` table (get-or-create by serial). Then it stores the
car, with its table id, in the key-value store under its decimal serial.
This project models that core and proves its properties:

- `outcomes.dfy`, `text.dfy`, `numbers.dfy`, `ordering.dfy`: what the Rust
  code relies on from the standard library, stated for this model:
  - `str` semantics: byte lengths of UTF-8 text, byte slicing that panics
    off a character boundary, `split_whitespace().last()`, `trim`, `find`,
    `split`, `replace(pat, "")` and `{:0>6}` padding;
  - `i32` parsing and `Display`, and `i32` wrap-around;
  - string ordering, and `sorted().dedup()`.
- `models.dfy` (module `Models`), from `src/models/mod.rs`:
  - `SerialNumber` and its parsers, `Display` and `Add<i32>`;
  - the max-or-0 rule of `highest_serial`;
  - the `Dealer` and `ScraperLog` constructors;
  - the pagination binds.
- `serial.dfy` (module `Serial`), from `src/models/serial.rs`: the newer
  parser with its error enum, and the derived `Add`.
- `vinlookup.dfy` (module `VinLookup`), from `src/scraper/vinlookup.rs`:
  - the transliteration table and the weights;
  - the check-digit loop (`GetCheckSumChar`, a method with a loop, proved
    equal to `CheckSum`, which is proved equal to the regulation's formula
    `ReferenceCheck`);
  - `is_valid_vin`, `VinYear::from_serial`, the prefixes, and the
    candidate generator as written and as corrected (see Findings).
- `legacy_vinlookup.dfy` (module `LegacyVinLookup`), from
  `src/vinlookup.rs`: the older generator over a serial given as text. It
  pads the serial and always uses year character 'P'. Its tables
  (src/vinlookup.rs:54-91), its check-digit loop (108-128) and its
  `is_valid_vin` (138-145) are the same text as the scraper's, so they are
  defined once, in `VinLookup`.
- `car.dfy` (module `Cars`), from `src/models/car.rs`:
  - `Car` is a class, because `set_id` updates it in place.
  - The three stores are maps held by an `Env` object.
  - `to_d1`, `to_kv` and the candidate loop of `from_vinlookup` are
    methods. Each is proved equal to a function over a `Stores` value, and
    the lemmas are about those functions.
  - The sticker parser of `from_pdf` starts from the extracted text.
- `sticker_layout.dfy` (module `StickerLayout`): a sticker laid out the way
  `from_pdf` slices it (each label, its separator, the value, a line
  break). When the values are ASCII and hold no label, every label is
  found where the layout put it, and the parsed car holds the trimmed
  values: `from_pdf` reads back what the layout wrote.
- `scrape.dfy` (module `Scrape`): `attempt_to_scrape_from_serial`, and how
  the sticker fetch sorts HTTP replies into a sticker or an error.
- `repository.dfy` (module `Repository`): the SQL text and bind list that
  `Repository::query` builds.

The HTTP fetch, the PDF text extraction, the clock and the store failures
are parameters (`Cars.Ports`, `Cars.Faults`).

The shown files come from different revisions, and each function is modelled
as written in its own file. For example, the scraper calls `to_d1` with a
`Database` where `src/models/car.rs` takes a route context. Both reach the
same table, so the model passes the stores.

Where the specification and the code differ, the model follows the code:

- `to_d1` returns an error when the insert fails. It does not retry, and
  it does not adopt the id of a concurrent writer.
- `from_pdf` never returns `Err` or `Ok(None)`: every failure in it is a
  panic. So the `_ => continue` branch after it in `from_vinlookup` is
  never taken, and a sticker that does not parse ends the run with a panic.
- `from_vinlookup` moves on to the next candidate only when the fetch
  returns an error.

## Model

| member | source | states |
|---|---|---|
| Numbers.ParseDisplay | src/models/mod.rs:25-41 | parsing the decimal text of any `i32` gives it back |
| Text.TokensSplitAt | src/models/serial.rs:31-34 | splitting at a whitespace character splits the token list there |
| Ordering.SortDedupUnique | src/scraper/vinlookup.rs:137-142 | `sorted().dedup()` of any sequence whose elements are those of a strictly ascending `e` is `e` |
| Models.FromStrBlank | src/models/mod.rs:32-41 | `from_str` panics with the `unwrap` message exactly on blank input |
| Models.FromStrIgnoresPrefix | src/models/mod.rs:32-41 | tokens before the last are ignored, for success and for the value |
| Models.FromStrToString | src/models/mod.rs:25-41 | parsing the `Display` text of a serial gives the serial back |
| Models.FromStringAgrees | src/models/mod.rs:51-62 | `From<&String>` succeeds exactly when `from_str` does, with the same value |
| Models.FromStrPadded | src/models/mod.rs:32-41 | a number zero-padded to six digits parses as that number |
| Models.FromVinPadded | src/models/mod.rs:44-49 | a VIN whose characters from index 11 on are a zero-padded number gives that number |
| Models.FromVinShort | src/models/mod.rs:44-49 | a VIN shorter than 11 bytes panics on the slice |
| Models.Add | src/models/mod.rs:64-70 | without `i32` overflow, `SerialNumber(a) + r == SerialNumber(a + r)` |
| Models.HighestSerial | src/models/mod.rs:72-83 | the largest stored serial, or 0 when none is stored |
| Models.NewDealer | src/models/mod.rs:214-223 | no id, car count 0, the given code, address and zip |
| Models.NewScraperLog | src/models/mod.rs:95-105 | no id, the run ends at the clock reading, other fields as given |
| Models.PageBinds | src/models/mod.rs:261-272 | limit is the page size; offset is `(page - 1) * page_size` when that fits in `i32` |
| Models.PageBindsText | src/models/mod.rs:274-283 | the two text binds parse back to the limit and the offset |
| Serial.FromStr | src/models/serial.rs:27-41 | `NoLastElement` exactly on blank input; a parsed value renders without whitespace |
| Serial.FromString | src/models/serial.rs:43-47 | the `unwrap`: succeeds exactly when `from_str` does, with its value |
| Serial.Add | src/models/serial.rs:11-12 | the derived `Add` is the sum of the inner values without overflow, and always agrees with it modulo 2^32 |
| Serial.FromStrIgnoresPrefix | src/models/serial.rs:30-40 | a prefix ended by whitespace changes neither error nor value |
| Serial.FromStrBadToken | src/models/serial.rs:36-39 | a last token that is not an `i32` gives `ParseIntError` with its kind |
| Serial.FromStrToString | src/models/serial.rs:27-53 | parsing the `Display` text gives the serial back |
| Serial.AgreesWithModels | src/models/serial.rs:27-41 | both revisions of `from_str` accept the same texts with the same values |
| Serial.FromVinPadded | src/models/serial.rs:56-61 | a VIN ending in a zero-padded number, such as "...000123", gives that number (123) |
| VinLookup.CharValueTable | src/scraper/vinlookup.rs:68-101 | the value of each of the 33 table entries, and that I, O and Q have none |
| VinLookup.KeysAreTable | src/scraper/vinlookup.rs:68-101 | a character has a value exactly when it is one of the 33 keys |
| VinLookup.CheckChar | src/scraper/vinlookup.rs:159-164 | 'X' exactly for remainder 10, otherwise the decimal digit of the remainder |
| VinLookup.WeightedSumIgnoresSlot8 | src/scraper/vinlookup.rs:65-66 | weight 0 at index 8: the character there does not change the weighted sum |
| VinLookup.SumUpToLong | src/scraper/vinlookup.rs:152-157 | a legal text longer than 17 indexes past the weights |
| VinLookup.CheckSum | src/scraper/vinlookup.rs:145-165 | succeeds exactly on 17 legal characters, with the formula's check character; shorter text panics with its byte length |
| VinLookup.CheckSumLoopOutcome | src/scraper/vinlookup.rs:152-157 | the loop ends without panic exactly on 17 legal characters, with the weighted sum |
| VinLookup.GetCheckSumChar | src/scraper/vinlookup.rs:145-165 | the accumulating loop returns `CheckSum`, panics included |
| VinLookup.CheckSumIgnoresSlot8 | src/scraper/vinlookup.rs:152-157 | any legal character at index 8 gives the same outcome |
| VinLookup.IsValidVin | src/scraper/vinlookup.rs:175-182 | false for a byte length other than 17; panics exactly on 17 bytes with an illegal character; otherwise true exactly when index 8 holds the check character |
| VinLookup.FromSerial | src/scraper/vinlookup.rs:104-122 | (2024, 'R') above 411975, (2023, 'P') otherwise |
| VinLookup.Starts | src/scraper/vinlookup.rs:167-174 | 8 prefixes of 8 legal characters |
| VinLookup.SortedStartsIncreasing | src/scraper/vinlookup.rs:167-174 | the prefixes, reordered, are strictly ascending |
| VinLookup.Splice | src/scraper/vinlookup.rs:134 | splicing succeeds exactly when the checksum does, replacing index 8 only |
| VinLookup.SpliceAll | src/scraper/vinlookup.rs:134 | all candidates spliced in order, or the first panic |
| VinLookup.SpliceCandidate | src/scraper/vinlookup.rs:125-135 | whatever key is at index 8, splicing gives the same finished VIN |
| VinLookup.CompletedIsValid | src/scraper/vinlookup.rs:134 | every finished candidate has 17 characters and passes `is_valid_vin` |
| VinLookup.ExpectedIncreasing | src/scraper/vinlookup.rs:137-142 | the 8 finished candidates, by sorted prefix, are strictly ascending |
| VinLookup.SpliceAllCandidates | src/scraper/vinlookup.rs:125-136 | all 264 raw candidates splice without panic |
| VinLookup.FilledElems | src/scraper/vinlookup.rs:125-142 | the 264 spliced candidates are the 8 finished VINs, repeated |
| VinLookup.PossibleVinsForLegal | src/scraper/vinlookup.rs:125-143 | with an 8-character legal tail, the result is the 8 finished VINs in ascending order |
| VinLookup.PossibleVinsForOk | src/scraper/vinlookup.rs:125-143 | generation succeeds exactly for an 8-character legal tail |
| VinLookup.ShortTailPanics | src/scraper/vinlookup.rs:148-150 | a short tail panics with "Invalid Length" and the candidate's byte length |
| VinLookup.LongTailPanics | src/scraper/vinlookup.rs:152-156 | a long tail indexes past the weights |
| VinLookup.UnpaddedOkIffSixDigits | src/scraper/vinlookup.rs:125-143 | as written, generation succeeds exactly for serials 100000 to 999999 |
| VinLookup.UnpaddedPanics | src/scraper/vinlookup.rs:145-157 | as written, smaller serials panic on length and larger ones on the index |
| VinLookup.ShortSerialPanics | src/scraper/vinlookup.rs:125-150 | serial 12345 panics with "Invalid Length: 16" as written, and succeeds padded |
| VinLookup.PaddedOkIffInRange | src/scraper/vinlookup.rs:125-143 | padded, generation succeeds exactly for serials 0 to 999999 |
| VinLookup.PaddedAgreesOnSixDigits | src/scraper/vinlookup.rs:125-143 | on six-digit serials, the padded and written generators agree |
| VinLookup.PaddedCandidates | src/scraper/vinlookup.rs:125-143 | 8 ascending valid VINs, one per prefix, each ending in year char, 'G' and the padded serial |
| VinLookup.PadLegal | src/vinlookup.rs:98 | padding with '0' keeps text legal exactly when it was |
| LegacyVinLookup.OkIffShortLegal | src/vinlookup.rs:94-106 | generation succeeds exactly for at most six legal characters |
| LegacyVinLookup.Candidates | src/vinlookup.rs:94-106 | 8 ascending valid VINs, 'P' at 9, 'G' at 10, the padded serial after |
| LegacyVinLookup.DigitTextLegal | src/vinlookup.rs:98 | digit text is legal VIN text |
| LegacyVinLookup.AgreesWithScraper | src/vinlookup.rs:93-106 | for serials up to 411975 the older generator matches the corrected scraper generator |
| Cars.NewRecord | src/models/car.rs:26-55 | no id; the clock as creation date; `dead_until` and `last_attempt` dropped; the rest as given |
| Cars.NewIgnoresDates | src/models/car.rs:26-55 | the result does not depend on the given creation date, `dead_until` or `last_attempt` |
| Cars.Car.New | src/models/car.rs:26-55 | the object holds `NewRecord` of its arguments |
| Cars.Car.SetId | src/models/car.rs:57-59 | id becomes `Some(id)`, no other field changes |
| Cars.OptCode | src/models/car.rs:234-239 | the option code is empty or starts with a non-space |
| Cars.OptCodeOfPair | src/models/car.rs:234-239 | for "model/option", alone or before further '/' pieces, the option code is the trimmed option |
| Cars.OptCodeWithoutSlash | src/models/car.rs:234-239 | text without a '/' has the empty option code |
| Cars.ParseSticker | src/models/car.rs:214-273 | a slicing panic is the result; a parsed car has no id, model year "2023", a 5-byte sold-to, a trimmed VIN and that VIN's serial; description, colours, VIN and ship-to are the trimmed slices between the labels, the option code that of the model slice, and sold-to the first 5 bytes of the trimmed sold-to slice |
| Cars.ParseFields | src/models/car.rs:249-273 | succeeds exactly when the zip slice, the 5-byte sold-to prefix and the VIN's serial all succeed; each field is its trimmed slice |
| Cars.DealerZip | src/models/car.rs:256-257 | an address shorter than 5 bytes makes the wrapped `len() - 5` index panic; an ASCII address of 5 characters or more gives its last 5 |
| Cars.FromKv | src/models/car.rs:168-181 | a car exactly when the read works and the serial is stored, and then the stored car |
| StickerLayout.AnchorAt | src/models/car.rs:224-231 | in a laid-out sticker, `find` locates each label right after the text before it |
| StickerLayout.AsciiSlices | src/models/car.rs:232-255 | on ASCII text, the byte slices at the cuts are the character slices, and none panics when the cuts are in order |
| StickerLayout.RenderedSlices | src/models/car.rs:224-255 | the slices of a laid-out sticker are each value with its line break, and the 5 ship-to characters |
| StickerLayout.RenderedFields | src/models/car.rs:249-273 | those slices give the trimmed values, the trimmed option code and the first 5 sold-to characters |
| StickerLayout.ParseRendered | src/models/car.rs:214-273 | a laid-out sticker whose dealer address and sold-to value have 5 characters and whose VIN has a serial parses to exactly the car its values describe |
| Cars.MissingLabelPanics | src/models/car.rs:220-232 | a sticker missing one of the later labels panics |
| Cars.ToD1Existing | src/models/car.rs:102-113 | a stored serial returns its id and inserts nothing |
| Cars.ToD1Creates | src/models/car.rs:114-151 | otherwise one row is inserted under a fresh id; a second call returns it and inserts nothing |
| Cars.ToD1Valid | src/models/car.rs:102-160 | keeps ids unique and below the next id; only adds; maps the car's serial to the returned id |
| Cars.Car.ToD1 | src/models/car.rs:102-165 | the method's result and new stores are `ToD1Spec` of the old stores |
| Cars.ToKvRoundTrip | src/models/car.rs:184-211 | succeeds exactly with equal present ids and a working store; `from_kv` then returns the car |
| Cars.Car.ToKv | src/models/car.rs:184-211 | the method's result and new stores are `ToKvSpec` of the old stores |
| Cars.SaveParsedValid | src/models/car.rs:293-310 | saving a parsed car keeps the stores consistent, adding at most one table key |
| Cars.FetchedStepValid | src/models/car.rs:287-312 | a fetched sticker's step keeps the stores consistent and only adds |
| Cars.TryVinValid | src/models/car.rs:284-350 | each candidate's step keeps the stores consistent, never touches the key-value store |
| Cars.ScanValid | src/models/car.rs:283-353 | the whole loop keeps the stores consistent, only adds, never writes the key-value store, and adds at most one table key |
| Cars.ScanExhausted | src/models/car.rs:283-353 | when every fetch fails the loop gives `Ok(None)` and writes nothing |
| Cars.ScanRateLimited | src/models/car.rs:291-293 | a rate-limit body ends the run with "limits exceeded downstream", writing nothing |
| Cars.ScanBrokenEntry | src/models/car.rs:314-333 | a 54-byte bucket entry gives the "BROKEN" car of that VIN, writing nothing |
| Cars.ScanBucketGetFails | src/models/car.rs:349 | a bucket read failure ends the run with an error, writing nothing |
| Cars.ScanFetchedCar | src/models/car.rs:287-312 | a parsed fetched sticker is stored, and the returned car carries its serial's table id |
| Cars.Car.FetchedStepM | src/models/car.rs:287-312 | the fetched-sticker step, as `FetchedStep` specifies |
| Cars.Car.StoredStepM | src/models/car.rs:314-348 | the bucket-hit step, as `StoredStep` specifies, for any stores |
| Cars.Car.ScanM | src/models/car.rs:283-353 | the loop over the candidates, as `Scan` specifies |
| Cars.Car.FromVinlookup | src/models/car.rs:276-355 | generation then the loop, as `VinlookupSpec` specifies |
| Scrape.VinlookupFetch | src/scraper/vinlookup.rs:9-58 | a sticker exactly for a 2xx readable body other than the rate-limit text; other statuses give their code |
| Scrape.RateLimitNeverFetched | src/scraper/vinlookup.rs:41-49 | the fetch never passes the rate-limit body on as a sticker |
| Scrape.RateLimitSkipsCandidate | src/scraper/vinlookup.rs:41-49 | so a rate-limited candidate is skipped like any failed fetch |
| Scrape.Expect | src/scraper/vinlookup.rs:195-197 | `.expect` turns any failure into a panic and passes panics through |
| Scrape.AttemptToScrapeFromSerial | src/scraper/vinlookup.rs:184-221 | result and new stores are `AttemptSpec` of the old stores |
| Scrape.SaveFoundM | src/scraper/vinlookup.rs:199-215 | the saving steps, as `SaveFound` specifies |
| Scrape.AlreadySaved | src/scraper/vinlookup.rs:189-191 | a serial that the key-value store holds and reads back is an error naming the stored id, and nothing is written |
| Scrape.KvReadFailureRescrapes | src/scraper/vinlookup.rs:189-215 | when the key-value read fails, a stored serial is scraped again and its entry replaced by the car found |
| Scrape.ShortSerialAttemptPanics | src/scraper/vinlookup.rs:195-197 | as written, an unstored serial below 100000 panics with "Invalid Length" before any store is touched; padded, its candidates are scanned |
| Scrape.AsWrittenAgreesOnSixDigits | src/scraper/vinlookup.rs:184-221 | on six-digit serials the attempt as written and as corrected are the same |
| Scrape.ScanNoneUnchanged | src/models/car.rs:283-353 | the loop gives `Ok(None)` only with the stores unchanged |
| Scrape.ScanKeys | src/models/car.rs:287-312 | a car the loop returns has at most its own serial added to the table |
| Scrape.SaveFoundValid | src/scraper/vinlookup.rs:199-215 | saving keeps the stores consistent; on success the key-value store holds the car with its table id |
| Scrape.FoundCarIsSaved | src/scraper/vinlookup.rs:199-215 | because the id is set before `to_kv`, working stores always save the found car |
| Scrape.LookupValid | src/scraper/vinlookup.rs:195-197 | `from_vinlookup` keeps the stores consistent, leaves the key-value store alone, writes nothing when no car is found |
| Scrape.AfterLookupValid | src/scraper/vinlookup.rs:198-218 | the steps after the lookup keep the stores consistent and save the car under its id |
| Scrape.AttemptValid | src/scraper/vinlookup.rs:184-221 | consistent stores, at most one new table key, no writes on `Ok(None)`, on success the car stored with the returned id |
| Repository.New | src/repository.rs:20-24 | a repository over the given table |
| Repository.Query | src/repository.rs:33-63 | the `+=` steps build `QueryText`, and the binds are `Binds` |
| Repository.StartsWithSelect | src/repository.rs:33 | every statement starts with "SELECT * FROM " and the table name |
| Repository.NoOptions | src/repository.rs:33-54 | without options, the bare SELECT and no binds |
| Repository.SortDefaults | src/repository.rs:43-46 | a sort order alone adds nothing; the default order is ASC |
| Repository.OffsetWithoutLimit | src/repository.rs:48-54 | OFFSET is written without LIMIT |
| Repository.EmptyFiltersLeaveWhere | src/repository.rs:35-41 | an empty filter map still writes " WHERE " |
| Repository.WherePlaceholders | src/repository.rs:35-41 | the WHERE clause has one '?' per filter |
| Repository.PlaceholdersMatchBinds | src/repository.rs:33-63 | when the table name, filter keys and sort text hold no '?', the statement has exactly one '?' per bound value |

## Left out

- The HTTP client, its headers, and the network. `vinlookup` is a port,
  `Cars.Ports.fetch`. `Scrape.VinlookupFetch` sorts a reply into a result.
- PDF text extraction (`pdf_extract`) is the port `Cars.Ports.extract`.
  Its error is a text; `expect` puts it after "Couldn't parse pdf: ".
- The clock: every `Utc::now()` is one clock reading, `now`, passed in.
  Date formatting is not modelled.
- Logging (`console_debug!`, `println!`), and the `ScraperLog` that
  `attempt_to_scrape_from_serial` builds and drops.
- D1, KV and R2 as services. They are maps, and their failures are inputs
  (`Cars.Faults`).
- Cars.FromKv: a failed read is the fault `Cars.Faults.kvGetFails` and
  reads as no car. A value that does not deserialize also reads as no car
  in the source; the model's store holds only cars, so that case does not
  arise.
- The columns of a row other than serial and id. Rows are written through
  `to_d1` only.
- Cars.ToD1Spec: the insert's `Ok(Some(_))` arm is not modelled. The row
  type there is `()`, so that arm does not arise. An insert error is one
  failure message.
- `Dealer`, `ScraperLog` and `CarRepository` database methods, and the
  route table of `src/lib.rs`.
- The gap finders `first_unknown_serial_above/below` are called but
  defined in no file shown. `src/lib.rs` is not part of this model.
- `Repository::query` running the statement. Only the text and binds are
  modelled.
- Concurrency. Each operation runs alone, so a losing concurrent writer is
  not modelled.
- `phf` map iteration order. `VinLookup.Keys` lists the keys in
  declaration order. The result is sorted and deduplicated, so it does not
  depend on that order (`VinLookup.FilledElems`,
  `Ordering.SortDedupUnique`).
- `HashMap` iteration order of the query filters. The filters are a
  sequence, and both iterations visit it in the same order.
- `i32` arithmetic assumes a release build, which wraps on overflow. A
  debug build would panic instead.
- `usize` is 64 bits (`Cars.UsizeModulus`). Only the `len() - 5` of the
  dealer zip can leave its range, and it wraps (a release build). Text
  lengths are otherwise unbounded.
- Cars.DealerZip: the zip of a non-ASCII address of 5 bytes or more is
  given only by the byte slice it takes, not as characters.
- StickerLayout.ParseRendered: stated for stickers whose values are ASCII
  and hold no label. Other texts are parsed by the same functions, but no
  round trip is stated for them.
- `CarId` is an unbounded integer. The table never comes near `i32::MAX`
  ids.
- Models.Add: stated only for sums without `i32` overflow.
- Cars.Car.FromVinlookup: uses the corrected (padded) generator; see
  Findings. The code as written is `Cars.VinlookupSpecAsWritten`, and
  `Scrape.ShortSerialAttemptPanics` states where the two differ.

## Findings

| source | as written | input that shows it | evidently intended | confidence | as-written member | corrected member |
|---|---|---|---|---|---|---|
| src/scraper/vinlookup.rs:125-143 | `{:0>6}` formats a `SerialNumber` whose `Display` (src/models/mod.rs:25-29) uses `write!`, so the padding has no effect; serials of fewer than six digits give 16-character candidates and panic in `get_check_sum_char` | serial 12345: a 16-character candidate such as "5XYP2DGCAPG12345" panics with "Invalid Length: 16" | pad the serial to six digits, as `src/vinlookup.rs:98` does with a string serial | not executed | VinLookup.ShortSerialPanics | VinLookup.PaddedCandidates |

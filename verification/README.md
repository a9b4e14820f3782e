# Rockblock telemetry webhook — a Dafny model

This project models the webhook of an airborne anemometer ground station
(`app.py`). A satellite modem POSTs a device id (`imei`) and a hex string
(`data`). The handler checks the id, the presence of the data, its hex
decoding and its length, in that order. It unpacks the 50-byte binary block,
scales sixteen fixed-point channels into engineering units, and renders the
device epoch as UTC text. It then appends one message dictionary to an
in-memory history. Three readers serve that history: the latest message (or
a "No data received yet" placeholder), the whole history, and a CSV download
that answers 404 when the history is empty.

Everything is modelled as pure functions over immutable values. A request
becomes `Gateway.HandleRockblock(imei, data, receivedTime, history)`, which
returns `(reply, history')`.

Modules, leaves first:

- `Common`: `Option`, `byte`, the 2^16 and 2^32 bounds.
- `Hex`: `bytearray.fromhex` on ASCII text (`FromHex`). Also a declarative
  grammar of what it accepts (`WellFormed`) and the encoder `ToHex`.
- `Decimal`: `str()` of an int (`IntText`) and the zero-padded
  `strftime` fields (`Pad2`, `Pad4`), each with a reader.
- `Civil`: Unix time to the proleptic Gregorian UTC calendar.
  - `CivilFromDays` walks years and months from 1970.
  - `DaysFromCivil` numbers a date.
  - The two are proved inverse, and `UtcText` is proved to read back with
    `ParseUtc`.
- `Layout`: the native-order, native-alignment block read by
  `struct.unpack('IhffHhhhhhhhhhhhhhhhh', …)` on a little-endian host. It
  has padding at bytes 6-7. `Unpack` is paired with the sender's `Pack`.
- `Scaling`: the three divisor groups of unpacked values 5..11 (÷10), 12..14
  (÷1000) and 15..20 (÷100). `Scale` is paired with the sender's truncating
  `Unscale`.
- `Record`: the 23-key message dictionary, its key order and its values.
- `Store`: the history, the live and full readers, and the CSV download.
  `Split` is proved to read the CSV back.
- `Gateway`: the ordered checks, the reply literals, the handler, and runs of
  requests (`Serve`).

Facts of the code that shape the model:

- Any decoded length other than exactly 50 bytes is refused with code 17,
  whether shorter or longer. The block has no trailing free-text part.
- Text that is not hex raises inside the handler's `try` and lands in its
  catch-all, so it gets code 15.
- The only accepted device id is `300434065264590`.
- Latitude and longitude are unpacked with format `f`: 32-bit floats.

## Model

| member | source | states |
|---|---|---|
| Hex.FromHex | app.py:34 | a successful decode used only hex digits and whitespace, and yields at most half as many bytes as characters |
| Hex.FromHexCharacterized | app.py:34 | decoding succeeds exactly on the well-formed strings (whitespace never inside a digit pair, no dangling digit, nothing else), and then yields the digits read in pairs |
| Hex.FromHexToHex | app.py:34 | hex text of any bytes, in lower or upper case, decodes back to those bytes (digits are case-insensitive) |
| Hex.FromHexSkipsLeadingSpace | app.py:34 | ASCII whitespace before the digits changes nothing |
| Hex.BadCharacterRejected | app.py:34 | one character that is neither a hex digit nor whitespace makes decoding fail |
| Hex.OddDigitCountRejected | app.py:34 | a string of hex digits alone decodes exactly when its length is even |
| Decimal.IntText | app.py:110 | `str()` of an int starts with `-` exactly for a negative value and carries no leading zero, so the text is the canonical one |
| Decimal.IntTextRoundTrip | app.py:110 | the decimal text `str()` gives an integer reads back as that integer |
| Decimal.Pad4RoundTrip | app.py:53 | the four zero-padded year digits read back as the year |
| Civil.CivilFromDaysRoundTrip | app.py:53 | every day count after 1970-01-01 names a valid calendar date whose day number is that count |
| Civil.DaysFromCivilRoundTrip | app.py:53 | every valid date from 1970 on is the date of its own day number, so the calendar walk is a bijection |
| Civil.FromTimestampRoundTrip | app.py:53 | the broken-down UTC time of a timestamp (valid date, hour < 24, minute and second < 60) numbers back to the timestamp |
| Civil.ToTimestampRoundTrip | app.py:53 | every valid broken-down time is the UTC time of its own timestamp |
| Civil.YearOfUnsigned32 | app.py:53 | an unsigned 32-bit epoch falls in the years 1970..2106, so `%Y` always has four digits |
| Civil.UtcText | app.py:53 | the `%Y-%m-%dT%H:%M:%SZ` text of an epoch is always 20 characters |
| Civil.UtcTextRoundTrip | app.py:53 | the UTC text reads back to exactly the epoch it was made from |
| Civil.UtcTextOfZero | app.py:53 | epoch 0 renders as `1970-01-01T00:00:00Z` |
| Layout.Unpack | app.py:41 | the unpacked epoch is below 2^32, the satellite count and the sixteen channels are signed 16-bit, altitude is below 2^16, and each field is the little-endian word at its offset |
| Layout.UnpackPack | app.py:41 | unpacking a block packed from in-range fields returns every field unchanged |
| Layout.PackUnpack | app.py:41 | repacking an unpacked block gives the same 50 bytes except that the padding bytes 6-7 become zero |
| Layout.PaddingIgnored | app.py:41 | bytes 6 and 7 have no influence on the unpacked values |
| Layout.UnpackInjective | app.py:41 | two blocks that agree in their padding and unpack alike are identical, so no other byte is ignored |
| Scaling.Scale | app.py:44-50 | scaled channels times 10 (values 5..11), 1000 (values 12..14) and 100 (values 15..20) give back the raw integers |
| Scaling.UnscaleScale | app.py:44-50 | a sender's multiply-and-truncate recovers every raw channel from its scaled value |
| Scaling.ScaleUnscale | app.py:44-50 | a value sent through multiply-and-truncate and then scaled differs from the original by less than one unit of its group |
| Record.Build | app.py:53-80 | the message keeps the given reception time, the epoch and its UTC text, the satellite count, both float words and the altitude unscaled, and the sixteen channels scaled in key order |
| Record.CellsByKey | app.py:56-80 | the k-th value of a message is exactly what the dictionary literal stores under the k-th key |
| Record.FieldDefinedOnKeys | app.py:56-80 | the dictionary has a value under a key exactly when the key is one of the 23 listed |
| Record.KeysPlain | app.py:56-80 | no dictionary key contains a comma or a line break |
| Store.LiveData | app.py:92-94 | the live view is the placeholder `No data received yet` exactly when the history is empty, and otherwise the last message |
| Store.FullHistory | app.py:96-98 | the history endpoint returns every message, as many as were stored, each at its arrival position |
| Store.LiveDataIsNewest | app.py:92-98 | the live view is a message exactly when the full history is non-empty, and then it is the history's last entry |
| Store.Append | app.py:82 | appending keeps every earlier message in place and puts the new one last |
| Store.LiveDataAfterAppend | app.py:82-98 | after an append the live view is the appended message, and the full history still starts with the old one |
| Store.DownloadHistory | app.py:100-113 | the intended download is `No data available` with status 404 exactly when the history is empty; otherwise it has one chunk per message plus the header |
| Store.DownloadAsWritten | app.py:100-107 | as the code stands the download is the 404 text exactly on an empty history, and otherwise an internal error (status 500) with no CSV |
| Store.DownloadAbortsAsWritten | app.py:100-110 | on an empty history both definitions give the 404 text; on any other history the code as written aborts where the intended download has a header and one row per message |
| Store.SplitJoin | app.py:108-110 | splitting a comma-joined line whose values hold no comma gives the values back |
| Store.CsvReadsBack | app.py:100-110 | the body splits at newlines into the header, each message's row in arrival order, and a final empty piece; the header splits into the keys and each row into that message's values |
| Store.RowValueByKey | app.py:106-110 | in the downloaded document, value j of row k reads back as the text of what message k holds under header key j |
| Store.BuildClean | app.py:53-80 | a message built from any valid frame renders with no comma or newline, given a clean reception time and float text |
| Store.IntTextClean | app.py:110 | an integer's text holds no comma or newline |
| Store.UtcTextClean | app.py:53 | a UTC text holds no comma or newline |
| Gateway.Check | app.py:19-38 | a wrong or missing device id is refused with code 10 whatever the data; with the right id, absent or empty data is refused with code 16; every refusal has status 400 |
| Gateway.CheckCharacterized | app.py:33-38 | with the right id and non-empty data, code 15 is returned exactly for text outside the hex grammar, code 17 exactly for well-formed text whose digit count is not 100, and acceptance exactly for well-formed text of 100 digits |
| Gateway.HandleRockblock | app.py:17-90 | the reply is `OK,0` exactly when the request is admitted; any other reply is the refusal the checks chose, and leaves the history unchanged; `OK,0` grows it by one message at the end, which the live view then shows |
| Gateway.WrongDeviceRefused | app.py:25-27 | a wrong or absent device id gets `FAILED,10,Invalid login credentials` and leaves the history unchanged |
| Gateway.MissingDataRefused | app.py:29-31 | absent or empty data gets `FAILED,16,No data provided` and leaves the history unchanged |
| Gateway.NonHexRefused | app.py:88-90 | data that is not hex gets `FAILED,15,Error processing message data` and leaves the history unchanged |
| Gateway.WrongLengthRefused | app.py:36-38 | the hex text of any non-empty byte string other than 50 bytes gets `FAILED,17,Invalid message length` and leaves the history unchanged |
| Gateway.BlankDataRefused | app.py:29-38 | non-empty data made only of whitespace passes the presence check and is refused for length |
| Gateway.FrameAccepted | app.py:41-86 | a packed frame sent as hex in either case gets `OK,0`, appends exactly the message built from that frame, and becomes the live view |
| Gateway.AdmittedMessage | app.py:33-80 | an admitted payload, however spaced or cased, is well-formed hex of 100 digits, and the message appended is built from those digits read in pairs |
| Gateway.HandleAppendsContribution | app.py:82 | one request appends its own message if admitted and nothing otherwise |
| Gateway.ServeAppendsAdmitted | app.py:82-98 | after any run of requests the full history is the old history followed by exactly the admitted messages in arrival order |
| Gateway.ContributionClean | app.py:41-82 | the message an admitted request appends renders with no comma or newline |
| Gateway.ServedHistoryClean | app.py:82-110 | every history a run of requests builds from a clean one renders clean, so the CSV read-back applies to it |
| Gateway.ServeAcknowledgesAdmitted | app.py:82-86 | in a run of requests each one is answered `OK,0` exactly when it is admitted |

## Left out

- HTTP plumbing is left out: routing, `request.args`, `jsonify`, `Response`, the CSV mimetype and the `Content-Disposition` header. Flask's default status 200 for a bare string is modelled as the status of `OK,0`. A request is modelled as two optional strings. A reply is its body text and status.
- The `csv.DictWriter` at app.py:107 raises before the first chunk; see Findings. The rest of the model uses the intended download, Store.DownloadHistory.
- `print` logging is left out.
- The wall clock behind `received_time` (app.py:57) is left out. It enters as the parameter `receivedTime`.
- IEEE-754 is left out. Latitude and longitude stay as their raw 32-bit words, and the scaled channels are exact reals. Python's binary float division rounds. That rounding is not modelled.
- `str()` of a float in the CSV is left out. It is the function parameter `showFloat`.
- Non-ASCII text needs nothing extra: CPython's `bytearray.fromhex` raises `ValueError` at the first non-ASCII character of a `str`, and the model's decoder refuses it the same way.
- `datetime.UTC` needs Python 3.11 or later. An older interpreter would fail every decode with code 15. The model assumes 3.11 or later.
- Concurrency is left out. The code has no locking, and the model is sequential. `generate_csv` reads the history lazily while the response streams. The model renders one snapshot.
- Scaling.Unscale and Layout.Pack model a sender: the test-data generator script. That script is not part of this model. They encode the inverse the decoder is checked against.
- Store.CsvReadsBack: the source quotes nothing. The read-back holds only when no rendered value contains a comma or a newline, and the lemma requires exactly that. Gateway.ServedHistoryClean shows the handler only builds such histories when the reception time and the float text hold no separator.

## Findings

| source | as written | input that shows it | evidently intended | confidence | as-written member | corrected member |
|---|---|---|---|---|---|---|
| app.py:107 | `generate_csv` first builds `csv.DictWriter(Response(), …)`; a bare `Response` has no `write` method, so `csv.writer` raises `TypeError` before the header at app.py:108 is yielded, and the server answers 500 | any non-empty history, e.g. after one accepted report | stream the header and one row per message (app.py:108-110); the unused writer is dropped | not executed; medium (rests on `Response` defining no `write`) | Store.DownloadAsWritten, Store.DownloadAbortsAsWritten | Store.DownloadHistory |

/**
 * The in-memory message history and its three readers: the latest message,
 * the whole history, and the CSV download.
 */
module Store {
  import Decimal
  import Civil
  import Record
  import Layout

  /** Messages in arrival order; the process starts with none. */
  type History = seq<Record.TelemetryRecord>

  const NoDataMessage: string := "No data received yet"

  /** What the live-data endpoint returns: the newest message or a placeholder object. */
  datatype LiveView =
    | Latest(record: Record.TelemetryRecord)
    | Placeholder(message: string)

  /** The newest message, or the placeholder when nothing has arrived. */
  function LiveData(h: History): (v: LiveView)
    ensures v.Placeholder? <==> |h| == 0
    ensures v.Placeholder? ==> v.message == NoDataMessage
    ensures v.Latest? ==> v.record == h[|h| - 1]
  {
    if |h| > 0 then Latest(h[|h| - 1]) else Placeholder(NoDataMessage)
  }

  /** The whole history, oldest first. */
  function FullHistory(h: History): (all: History)
    ensures |all| == |h|
    ensures forall k :: 0 <= k < |h| ==> all[k] == h[k]
  {
    h
  }

  /** The live view is the newest entry of the full history, when there is one. */
  lemma LiveDataIsNewest(h: History)
    ensures LiveData(h).Latest? <==> |FullHistory(h)| > 0
    ensures LiveData(h).Latest? ==> LiveData(h).record == FullHistory(h)[|FullHistory(h)| - 1]
  {
  }

  /** Adds a message after all earlier ones. */
  function Append(h: History, r: Record.TelemetryRecord): (h': History)
    ensures |h'| == |h| + 1 && h'[..|h|] == h && h'[|h|] == r
  {
    h + [r]
  }

  /** After an append the live view is the appended message, whatever came before. */
  lemma LiveDataAfterAppend(h: History, r: Record.TelemetryRecord)
    ensures LiveData(Append(h, r)) == Latest(r)
    ensures FullHistory(Append(h, r))[..|h|] == FullHistory(h)
  {
  }

  // ---------------------------------------------------------------------------
  // CSV download

  const NotFoundBody: string := "No data available"
  const NotFoundStatus: nat := 404

  /** Status the WSGI server answers when the streamed body raises before its first chunk. */
  const InternalErrorStatus: nat := 500

  /**
   * The download: a 404 text response, the CSV document as the chunks its
   * generator yields, or a stream whose generator raised before yielding.
   */
  datatype Download =
    | NotFound(body: string, status: nat)
    | Csv(chunks: seq<string>)
    | Aborted(status: nat)

  /** `sep.join(xs)`. */
  function Join(xs: seq<string>, sep: char): string {
    if |xs| == 0 then []
    else if |xs| == 1 then xs[0]
    else xs[0] + [sep] + Join(xs[1..], sep)
  }

  /** Splits at every `sep`; the inverse of `Join` for pieces free of `sep`. */
  function Split(s: string, sep: char): (parts: seq<string>)
    ensures |parts| > 0
    decreases |s|
  {
    if |s| == 0 then [[]]
    else
      var rest := Split(s[1..], sep);
      if s[0] == sep then [[]] + rest else [[s[0]] + rest[0]] + rest[1..]
  }

  lemma {:induction false} SplitWithout(x: string, sep: char)
    requires sep !in x
    ensures Split(x, sep) == [x]
    decreases |x|
  {
    if |x| > 0 {
      SplitWithout(x[1..], sep);
      assert [x[0]] + x[1..] == x;
    }
  }

  lemma {:induction false} SplitAfter(x: string, sep: char, t: string)
    requires sep !in x
    ensures Split(x + [sep] + t, sep) == [x] + Split(t, sep)
    decreases |x|
  {
    var s := x + [sep] + t;
    if |x| == 0 {
      assert s[1..] == t;
    } else {
      assert s[1..] == x[1..] + [sep] + t;
      SplitAfter(x[1..], sep, t);
      assert [x[0]] + x[1..] == x;
    }
  }

  /** Joining pieces that do not contain the separator and splitting again gives the pieces back. */
  lemma {:induction false} SplitJoin(xs: seq<string>, sep: char)
    requires |xs| > 0
    requires forall i :: 0 <= i < |xs| ==> sep !in xs[i]
    ensures Split(Join(xs, sep), sep) == xs
    decreases |xs|
  {
    if |xs| == 1 {
      SplitWithout(xs[0], sep);
    } else {
      SplitJoin(xs[1..], sep);
      SplitAfter(xs[0], sep, Join(xs[1..], sep));
      assert [xs[0]] + xs[1..] == xs;
    }
  }

  /** The text of one value, as `str()` gives it; floats go through `showFloat`. */
  function Show(c: Record.Cell, showFloat: Record.Cell -> string): string {
    match c
    case Text(s) => s
    case Int(i) => Decimal.IntText(i)
    case Single(_) => showFloat(c)
    case Float(_) => showFloat(c)
  }

  function ShowAll(cs: seq<Record.Cell>, showFloat: Record.Cell -> string): (ts: seq<string>)
    ensures |ts| == |cs|
    ensures forall k :: 0 <= k < |cs| ==> ts[k] == Show(cs[k], showFloat)
  {
    seq(|cs|, k requires 0 <= k < |cs| => Show(cs[k], showFloat))
  }

  /** The header line's text: the keys of the first message joined by commas. */
  function Header(first: Record.TelemetryRecord): string {
    Join(Record.Keys(first), ',')
  }

  /** One message's line text: its values in key order, unquoted, joined by commas. */
  function RowText(r: Record.TelemetryRecord, showFloat: Record.Cell -> string): string {
    Join(ShowAll(Record.Cells(r), showFloat), ',')
  }

  /** Header then one row per message, in arrival order. */
  function Table(h: History, showFloat: Record.Cell -> string): (t: seq<string>)
    requires |h| > 0
    ensures |t| == |h| + 1 && t[0] == Header(h[0])
    ensures forall k :: 0 <= k < |h| ==> t[k + 1] == RowText(h[k], showFloat)
  {
    [Header(h[0])] + seq(|h|, k requires 0 <= k < |h| => RowText(h[k], showFloat))
  }

  /** Each text followed by a newline: the chunks the generator yields. */
  function Terminate(texts: seq<string>): (chunks: seq<string>)
    ensures |chunks| == |texts|
    ensures forall i :: 0 <= i < |texts| ==> chunks[i] == texts[i] + "\n"
  {
    seq(|texts|, i requires 0 <= i < |texts| => texts[i] + "\n")
  }

  /**
   * The download endpoint: 404 on an empty history; otherwise the header
   * (the keys of the first message, which every message shares) and one
   * row per message in arrival order.
   */
  function DownloadHistory(h: History, showFloat: Record.Cell -> string): (d: Download)
    ensures d.NotFound? <==> |h| == 0
    ensures d.Csv? <==> |h| > 0
    ensures d.NotFound? ==> d.body == NotFoundBody && d.status == NotFoundStatus
    ensures d.Csv? ==> |d.chunks| == |h| + 1
  {
    if |h| == 0 then NotFound(NotFoundBody, NotFoundStatus)
    else Csv(Terminate(Table(h, showFloat)))
  }

  /**
   * The download endpoint as the code stands: the generator first builds a
   * `csv.DictWriter` over a bare `Response()`, which has no `write` method,
   * so the writer's constructor raises `TypeError` before the header is
   * yielded, and the server answers with an internal error.
   */
  function DownloadAsWritten(h: History): (d: Download)
    ensures d.NotFound? <==> |h| == 0
    ensures d.Aborted? <==> |h| > 0
    ensures d.NotFound? ==> d.body == NotFoundBody && d.status == NotFoundStatus
    ensures d.Aborted? ==> d.status == InternalErrorStatus
  {
    if |h| == 0 then NotFound(NotFoundBody, NotFoundStatus)
    else Aborted(InternalErrorStatus)
  }

  /**
   * The two definitions agree on an empty history; on every other history
   * the code as written yields no CSV at all, where the intended download
   * has the header and one row per message.
   */
  lemma DownloadAbortsAsWritten(h: History, showFloat: Record.Cell -> string)
    ensures |h| == 0 ==> DownloadAsWritten(h) == DownloadHistory(h, showFloat)
    ensures |h| > 0 ==> DownloadAsWritten(h).Aborted? && DownloadAsWritten(h).status == InternalErrorStatus
    ensures |h| > 0 ==> DownloadHistory(h, showFloat).Csv? && |DownloadHistory(h, showFloat).chunks| == |h| + 1
  {
  }

  /** The response body: the chunks one after another. */
  function Concat(chunks: seq<string>): string {
    if |chunks| == 0 then [] else chunks[0] + Concat(chunks[1..])
  }

  /** Text that can stand in a cell without being mistaken for a separator. */
  predicate Clean(s: string) {
    ',' !in s && '\n' !in s
  }

  /** True when every value of `r` renders without a comma or newline. */
  predicate CleanRecord(r: Record.TelemetryRecord, showFloat: Record.Cell -> string) {
    forall k :: 0 <= k < |Record.FieldNames| ==> Clean(Show(Record.Cells(r)[k], showFloat))
  }

  lemma {:induction false} SplitLines(texts: seq<string>)
    requires forall i :: 0 <= i < |texts| ==> '\n' !in texts[i]
    ensures Split(Concat(Terminate(texts)), '\n') == texts + [[]]
    decreases |texts|
  {
    if |texts| > 0 {
      var chunks := Terminate(texts);
      var tail := texts[1..];
      SplitLines(tail);
      assert chunks[1..] == Terminate(tail);
      SplitAfter(texts[0], '\n', Concat(chunks[1..]));
      assert Concat(chunks) == texts[0] + ['\n'] + Concat(chunks[1..]);
      assert [texts[0]] + (tail + [[]]) == texts + [[]];
    }
  }

  lemma {:induction false} JoinClean(xs: seq<string>, sep: char)
    requires forall i :: 0 <= i < |xs| ==> Clean(xs[i])
    requires sep != '\n'
    ensures '\n' !in Join(xs, sep)
    decreases |xs|
  {
    if |xs| > 1 {
      JoinClean(xs[1..], sep);
    }
  }

  lemma HeaderReadsBack(first: Record.TelemetryRecord)
    ensures '\n' !in Header(first)
    ensures Split(Header(first), ',') == Record.Keys(first)
  {
    var keys := Record.Keys(first);
    forall i | 0 <= i < |keys|
      ensures Clean(keys[i])
    {
      Record.KeysPlain(first, i);
    }
    JoinReadsBack(keys, ',');
  }

  lemma JoinReadsBack(xs: seq<string>, sep: char)
    requires |xs| > 0 && sep != '\n'
    requires forall i :: 0 <= i < |xs| ==> Clean(xs[i]) && sep !in xs[i]
    ensures '\n' !in Join(xs, sep)
    ensures Split(Join(xs, sep), sep) == xs
  {
    JoinClean(xs, sep);
    SplitJoin(xs, sep);
  }

  lemma RowReadsBack(r: Record.TelemetryRecord, showFloat: Record.Cell -> string)
    requires CleanRecord(r, showFloat)
    ensures '\n' !in RowText(r, showFloat)
    ensures Split(RowText(r, showFloat), ',') == ShowAll(Record.Cells(r), showFloat)
  {
    var ts := ShowAll(Record.Cells(r), showFloat);
    JoinClean(ts, ',');
    SplitJoin(ts, ',');
  }

  /**
   * Reading the downloaded document back: splitting the body at newlines
   * yields the header, then each message's row in arrival order (and the
   * empty text after the final newline), and splitting a row at commas
   * yields that message's values in key order.
   */
  lemma CsvReadsBack(h: History, showFloat: Record.Cell -> string)
    requires |h| > 0
    requires forall k :: 0 <= k < |h| ==> CleanRecord(h[k], showFloat)
    ensures DownloadHistory(h, showFloat).Csv?
    ensures Split(Concat(DownloadHistory(h, showFloat).chunks), '\n') == Table(h, showFloat) + [[]]
    ensures Split(Table(h, showFloat)[0], ',') == Record.Keys(h[0])
    ensures forall k :: 0 <= k < |h| ==>
      Split(Table(h, showFloat)[k + 1], ',') == ShowAll(Record.Cells(h[k]), showFloat)
  {
    var t := Table(h, showFloat);
    HeaderReadsBack(h[0]);
    forall k | 0 <= k < |h|
      ensures '\n' !in RowText(h[k], showFloat)
      ensures Split(RowText(h[k], showFloat), ',') == ShowAll(Record.Cells(h[k]), showFloat)
    {
      RowReadsBack(h[k], showFloat);
    }
    forall i | 0 <= i < |t|
      ensures '\n' !in t[i]
    {
      if i > 0 {
        assert t[i] == RowText(h[i - 1], showFloat);
      }
    }
    SplitLines(t);
  }

  /**
   * Value `j` of row `k` is the `str()` of what message `k` holds under the
   * header's key `j`: each row is read back key by key, as the generator
   * writes it.
   */
  lemma RowValueByKey(h: History, showFloat: Record.Cell -> string, k: nat, j: nat)
    requires |h| > 0
    requires forall i :: 0 <= i < |h| ==> CleanRecord(h[i], showFloat)
    requires k < |h| && j < |Record.FieldNames|
    ensures j < |Split(Table(h, showFloat)[0], ',')| && j < |Split(Table(h, showFloat)[k + 1], ',')|
    ensures Record.Field(h[k], Split(Table(h, showFloat)[0], ',')[j]).Some?
    ensures Split(Table(h, showFloat)[k + 1], ',')[j] ==
      Show(Record.Field(h[k], Split(Table(h, showFloat)[0], ',')[j]).value, showFloat)
  {
    CsvReadsBack(h, showFloat);
    Record.CellsByKey(h[k], j);
  }

  /**
   * Every message the handler builds renders clean, given a clean reception
   * time and a float rendering that writes no separator.
   */
  lemma BuildClean(f: Layout.Frame, receivedTime: string, showFloat: Record.Cell -> string)
    requires Layout.Valid(f) && Clean(receivedTime)
    requires forall c :: Clean(showFloat(c))
    ensures CleanRecord(Record.Build(f, receivedTime), showFloat)
  {
    var r := Record.Build(f, receivedTime);
    UtcTextClean(r.sentTime);
    IntTextClean(r.unixEpoch);
    IntTextClean(r.siv);
    IntTextClean(r.altitude);
  }

  /** The decimal text of an integer never holds a separator. */
  lemma IntTextClean(i: int)
    ensures Clean(Decimal.IntText(i))
  {
  }

  /** Nor does the UTC text of a timestamp. */
  lemma UtcTextClean(s: string)
    requires Civil.ParseUtc(s).Some?
    ensures Clean(s)
  {
    assert Civil.DigitsAt(s);
    forall i | 0 <= i < |s|
      ensures s[i] != ',' && s[i] != '\n'
    {
      if i !in {4, 7, 10, 13, 16, 19} {
        assert Decimal.IsDigit(s[i]);
      }
    }
  }
}

/**
 * The satellite-modem webhook: checks the device id, the presence of the
 * data, its hex decoding and its length, in that order, and on success
 * appends one decoded message to the history.
 */
module Gateway {
  import opened Common
  import Hex
  import Layout
  import Record
  import Store

  /** The one device whose reports are accepted. */
  const DeviceImei: string := "300434065264590"

  /** A response: body text and HTTP status. */
  datatype Reply = Reply(body: string, status: nat)

  const Accepted: Reply := Reply("OK,0", 200)
  const InvalidCredentials: Reply := Reply("FAILED,10,Invalid login credentials", 400)
  const NoDataProvided: Reply := Reply("FAILED,16,No data provided", 400)
  const InvalidLength: Reply := Reply("FAILED,17,Invalid message length", 400)
  const ProcessingError: Reply := Reply("FAILED,15,Error processing message data", 400)

  /** Outcome of checking and decoding one request, before the history is touched. */
  datatype Verdict =
    | Admit(record: Record.TelemetryRecord)
    | Reject(reply: Reply)

  /** Unpacks, scales and dates a 50-byte block. */
  function Decode(bytes: seq<byte>, receivedTime: string): Record.TelemetryRecord
    requires |bytes| == Layout.FrameSize
  {
    Record.Build(Layout.Unpack(bytes), receivedTime)
  }

  /**
   * The checks of the webhook, in order. A hex error is caught by the
   * handler's catch-all and answered with code 15; a decoded block that is
   * not exactly 50 bytes, shorter or longer, is answered with code 17.
   */
  function Check(imei: Option<string>, data: Option<string>, receivedTime: string): (v: Verdict)
    ensures imei != Some(DeviceImei) ==> v == Reject(InvalidCredentials)
    ensures imei == Some(DeviceImei) && (data == None || data == Some("")) ==> v == Reject(NoDataProvided)
    ensures v.Reject? ==> v.reply.status == 400
  {
    if imei != Some(DeviceImei) then Reject(InvalidCredentials)
    else if data.None? || data.value == "" then Reject(NoDataProvided)
    else
      match Hex.FromHex(data.value)
      case None => Reject(ProcessingError)
      case Some(bytes) =>
        if |bytes| != Layout.FrameSize then Reject(InvalidLength)
        else Admit(Decode(bytes, receivedTime))
  }

  /**
   * Which requests reach which verdict, in terms of the declarative hex
   * grammar: code 15 exactly for ill-formed text, admission exactly for
   * well-formed text of 100 hex digits.
   */
  lemma CheckCharacterized(data: string, receivedTime: string)
    requires data != ""
    ensures Check(Some(DeviceImei), Some(data), receivedTime) == Reject(ProcessingError) <==> !Hex.WellFormed(data)
    ensures Check(Some(DeviceImei), Some(data), receivedTime) == Reject(InvalidLength) <==>
      Hex.WellFormed(data) && |Hex.Digits(data)| != 2 * Layout.FrameSize
    ensures Check(Some(DeviceImei), Some(data), receivedTime).Admit? <==>
      Hex.WellFormed(data) && |Hex.Digits(data)| == 2 * Layout.FrameSize
  {
    Hex.FromHexCharacterized(data);
  }

  /**
   * One POST to the webhook against history `h`: the reply and the history
   * afterwards. Only an accepted request changes the history, and then only
   * by adding its message at the end.
   */
  function HandleRockblock(imei: Option<string>, data: Option<string>, receivedTime: string,
                           h: Store.History): (out: (Reply, Store.History))
    ensures out.0 == Accepted <==> Check(imei, data, receivedTime).Admit?
    ensures out.0 != Accepted ==> out.1 == h && Check(imei, data, receivedTime) == Reject(out.0)
    ensures out.0 == Accepted ==>
      |out.1| == |h| + 1 && out.1[..|h|] == h &&
      Store.LiveData(out.1) == Store.Latest(Check(imei, data, receivedTime).record)
  {
    match Check(imei, data, receivedTime)
    case Reject(reply) => (reply, h)
    case Admit(r) =>
      Store.LiveDataAfterAppend(h, r);
      (Accepted, Store.Append(h, r))
  }

  /** A wrong or missing device id is refused first, whatever the data. */
  lemma WrongDeviceRefused(imei: Option<string>, data: Option<string>, receivedTime: string, h: Store.History)
    requires imei != Some(DeviceImei)
    ensures HandleRockblock(imei, data, receivedTime, h) == (InvalidCredentials, h)
  {
  }

  /** With the right device id, absent or empty data is refused before any decoding. */
  lemma MissingDataRefused(data: Option<string>, receivedTime: string, h: Store.History)
    requires data == None || data == Some("")
    ensures HandleRockblock(Some(DeviceImei), data, receivedTime, h) == (NoDataProvided, h)
  {
  }

  /** Text that is not hex (a stray character, an odd digit count) is answered with code 15. */
  lemma NonHexRefused(data: string, receivedTime: string, h: Store.History)
    requires data != "" && Hex.FromHex(data).None?
    ensures HandleRockblock(Some(DeviceImei), Some(data), receivedTime, h) == (ProcessingError, h)
  {
  }

  /** Any non-empty byte string other than exactly 50 bytes is answered with code 17. */
  lemma WrongLengthRefused(bytes: seq<byte>, upper: bool, receivedTime: string, h: Store.History)
    requires |bytes| != Layout.FrameSize && |bytes| > 0
    ensures HandleRockblock(Some(DeviceImei), Some(Hex.ToHex(bytes, upper)), receivedTime, h) == (InvalidLength, h)
  {
    Hex.FromHexToHex(bytes, upper);
  }

  /** Data made of whitespace alone decodes to no bytes and fails the length check. */
  lemma BlankDataRefused(data: string, receivedTime: string, h: Store.History)
    requires data != ""
    requires forall i :: 0 <= i < |data| ==> Hex.IsSpace(data[i])
    ensures HandleRockblock(Some(DeviceImei), Some(data), receivedTime, h) == (InvalidLength, h)
  {
    Hex.FromHexSkipsLeadingSpace(data, "");
    assert data + "" == data;
  }

  /**
   * End to end: a frame packed by a sender and sent as hex in either case is
   * accepted; the message appended last carries the frame's fields, its
   * channels scaled by their groups' divisors, and is what the live view
   * then shows.
   */
  lemma FrameAccepted(f: Layout.Frame, upper: bool, receivedTime: string, h: Store.History)
    requires Layout.Valid(f)
    ensures var (reply, h') := HandleRockblock(Some(DeviceImei), Some(Hex.ToHex(Layout.Pack(f), upper)), receivedTime, h);
      && reply == Accepted
      && h' == h + [Record.Build(f, receivedTime)]
      && Store.LiveData(h') == Store.Latest(Record.Build(f, receivedTime))
  {
    Hex.FromHexToHex(Layout.Pack(f), upper);
    Layout.UnpackPack(f);
  }

  /**
   * Whatever the spelling of an admitted payload (spaced pairs, mixed case),
   * it is well-formed hex of exactly 100 digits, and the message admitted is
   * the one built from those digits read in pairs.
   */
  lemma AdmittedMessage(data: string, receivedTime: string)
    ensures Check(Some(DeviceImei), Some(data), receivedTime).Admit? ==>
      Hex.WellFormed(data) && |Hex.Digits(data)| == 2 * Layout.FrameSize
    ensures Check(Some(DeviceImei), Some(data), receivedTime).Admit? ==>
      forall i :: 0 <= i < |Hex.Digits(data)| ==> Hex.IsHexDigit(Hex.Digits(data)[i])
    ensures Check(Some(DeviceImei), Some(data), receivedTime).Admit? ==>
      Check(Some(DeviceImei), Some(data), receivedTime).record ==
        Record.Build(Layout.Unpack(Hex.Pairs(Hex.Digits(data))), receivedTime)
  {
    Hex.FromHexCharacterized(data);
  }

  /** One request as the webhook receives it. */
  datatype Request = Request(imei: Option<string>, data: Option<string>, receivedTime: string)

  /** Serves requests one after another from history `h`. */
  function Serve(reqs: seq<Request>, h: Store.History): (out: (seq<Reply>, Store.History))
    ensures |out.0| == |reqs|
    decreases |reqs|
  {
    if |reqs| == 0 then ([], h)
    else
      var q := reqs[0];
      var step := HandleRockblock(q.imei, q.data, q.receivedTime, h);
      var rest := Serve(reqs[1..], step.1);
      ([step.0] + rest.0, rest.1)
  }

  /** The message request `q` contributes: one if admitted, none otherwise. */
  function Contribution(q: Request): seq<Record.TelemetryRecord> {
    match Check(q.imei, q.data, q.receivedTime)
    case Admit(r) => [r]
    case Reject(_) => []
  }

  /** The messages of the admitted requests, in request order. */
  function Admitted(reqs: seq<Request>): seq<Record.TelemetryRecord>
    decreases |reqs|
  {
    if |reqs| == 0 then [] else Contribution(reqs[0]) + Admitted(reqs[1..])
  }

  lemma HandleAppendsContribution(q: Request, h: Store.History)
    ensures HandleRockblock(q.imei, q.data, q.receivedTime, h).1 == h + Contribution(q)
  {
  }

  /** Whether the webhook admits request `q`. */
  predicate Admits(q: Request) {
    Check(q.imei, q.data, q.receivedTime).Admit?
  }

  /**
   * The history is an append-only log: after any run of requests it is the
   * old history followed by exactly the admitted messages, in the order
   * their requests arrived.
   */
  lemma {:induction false} ServeAppendsAdmitted(reqs: seq<Request>, h: Store.History)
    ensures Store.FullHistory(Serve(reqs, h).1) == h + Admitted(reqs)
    decreases |reqs|
  {
    if |reqs| > 0 {
      var q := reqs[0];
      var h1 := HandleRockblock(q.imei, q.data, q.receivedTime, h).1;
      ServeAppendsAdmitted(reqs[1..], h1);
      HandleAppendsContribution(q, h);
      ServeStep(reqs, h);
      AdmittedStep(reqs);
      Regroup(h, Contribution(q), Admitted(reqs[1..]), h1);
    }
  }

  lemma Regroup<T>(h: seq<T>, c: seq<T>, a: seq<T>, h1: seq<T>)
    requires h1 == h + c
    ensures h + (c + a) == h1 + a
  {
  }

  lemma ServeStep(reqs: seq<Request>, h: Store.History)
    requires |reqs| > 0
    ensures Serve(reqs, h).1 == Serve(reqs[1..], HandleRockblock(reqs[0].imei, reqs[0].data, reqs[0].receivedTime, h).1).1
  {
  }

  lemma AdmittedStep(reqs: seq<Request>)
    requires |reqs| > 0
    ensures Admitted(reqs) == Contribution(reqs[0]) + Admitted(reqs[1..])
  {
  }

  /** An admitted request's message renders clean when its reception time does. */
  lemma ContributionClean(q: Request, showFloat: Record.Cell -> string)
    requires Store.Clean(q.receivedTime)
    requires forall c :: Store.Clean(showFloat(c))
    ensures forall k :: 0 <= k < |Contribution(q)| ==> Store.CleanRecord(Contribution(q)[k], showFloat)
  {
    if Check(q.imei, q.data, q.receivedTime).Admit? {
      var bytes := Hex.FromHex(q.data.value).value;
      Store.BuildClean(Layout.Unpack(bytes), q.receivedTime, showFloat);
    }
  }

  /**
   * Every history a run of requests builds from an empty one (or any clean
   * one) holds only clean messages, so the CSV download of it reads back
   * header by key and row by message.
   */
  lemma {:induction false} ServedHistoryClean(reqs: seq<Request>, h: Store.History, showFloat: Record.Cell -> string)
    requires forall k :: 0 <= k < |h| ==> Store.CleanRecord(h[k], showFloat)
    requires forall i :: 0 <= i < |reqs| ==> Store.Clean(reqs[i].receivedTime)
    requires forall c :: Store.Clean(showFloat(c))
    ensures forall k :: 0 <= k < |Serve(reqs, h).1| ==> Store.CleanRecord(Serve(reqs, h).1[k], showFloat)
    decreases |reqs|
  {
    if |reqs| > 0 {
      var q := reqs[0];
      var h1 := HandleRockblock(q.imei, q.data, q.receivedTime, h).1;
      HandleAppendsContribution(q, h);
      ContributionClean(q, showFloat);
      assert forall k :: 0 <= k < |h1| ==> Store.CleanRecord(h1[k], showFloat) by {
        forall k | 0 <= k < |h1|
          ensures Store.CleanRecord(h1[k], showFloat)
        {
          if k >= |h| {
            assert h1[k] == Contribution(q)[k - |h|];
          }
        }
      }
      assert forall i :: 0 <= i < |reqs[1..]| ==> Store.Clean(reqs[1..][i].receivedTime) by {
        forall i | 0 <= i < |reqs[1..]|
          ensures Store.Clean(reqs[1..][i].receivedTime)
        {
          assert reqs[1..][i] == reqs[i + 1];
        }
      }
      ServedHistoryClean(reqs[1..], h1, showFloat);
      ServeStep(reqs, h);
    }
  }

  /** Each request of a run is acknowledged with "OK,0" exactly when it is admitted. */
  lemma {:induction false} ServeAcknowledgesAdmitted(reqs: seq<Request>, h: Store.History)
    ensures forall i :: 0 <= i < |reqs| ==> (Serve(reqs, h).0[i] == Accepted <==> Admits(reqs[i]))
    decreases |reqs|
  {
    if |reqs| > 0 {
      var q := reqs[0];
      var (reply, h1) := HandleRockblock(q.imei, q.data, q.receivedTime, h);
      ServeAcknowledgesAdmitted(reqs[1..], h1);
      var replies := Serve(reqs, h).0;
      assert replies == [reply] + Serve(reqs[1..], h1).0;
      forall i | 0 <= i < |reqs|
        ensures replies[i] == Accepted <==> Admits(reqs[i])
      {
        if i > 0 {
          assert reqs[1..][i - 1] == reqs[i];
        }
      }
    }
  }
}

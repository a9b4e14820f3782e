/**
 * The message dictionary the webhook builds for each accepted frame, its
 * 23 keys in insertion order, and the value of each key.
 */
module Record {
  import opened Common
  import Layout
  import Scaling
  import Civil

  /**
   * One decoded message. Latitude and longitude are the 32-bit words of the
   * single-precision floats as they arrived; scaled channels are exact reals.
   */
  datatype TelemetryRecord = TelemetryRecord(
    receivedTime: string,
    sentTime: string,
    unixEpoch: nat,
    siv: int,
    latitude: nat,
    longitude: nat,
    altitude: nat,
    pressureMbar: real,
    temperaturePhtC: real,
    temperatureCjC: real,
    temperatureTctipC: real,
    rollDeg: real,
    pitchDeg: real,
    yawDeg: real,
    vavg1Mps: real,
    vavg2Mps: real,
    vavg3Mps: real,
    vstd1Mps: real,
    vstd2Mps: real,
    vstd3Mps: real,
    vpk1Mps: real,
    vpk2Mps: real,
    vpk3Mps: real)

  /** A dictionary value, by the Python type it has. */
  datatype Cell =
    | Text(s: string)
    | Int(i: int)
    | Single(bits: nat)
    | Float(x: real)

  /** The dictionary keys, in the order the dictionary literal lists them. */
  const FieldNames: seq<string> := [
    "received_time", "sent_time", "unix_epoch", "siv", "latitude", "longitude", "altitude",
    "pressure_mbar", "temperature_pht_c", "temperature_cj_c", "temperature_tctip_c",
    "roll_deg", "pitch_deg", "yaw_deg",
    "vavg_1_mps", "vavg_2_mps", "vavg_3_mps",
    "vstd_1_mps", "vstd_2_mps", "vstd_3_mps",
    "vpk_1_mps", "vpk_2_mps", "vpk_3_mps"]

  /** The keys of a message dictionary; every message has the same ones. */
  function Keys(r: TelemetryRecord): seq<string> {
    FieldNames
  }

  /** No key holds a comma or a line break. */
  lemma KeysPlain(r: TelemetryRecord, i: nat)
    requires i < |Keys(r)|
    ensures ',' !in Keys(r)[i] && '\n' !in Keys(r)[i]
  {
  }

  /** The sixteen scaled channels of a record, in key order. */
  function Readings(r: TelemetryRecord): seq<real> {
    [r.pressureMbar, r.temperaturePhtC, r.temperatureCjC, r.temperatureTctipC,
     r.rollDeg, r.pitchDeg, r.yawDeg,
     r.vavg1Mps, r.vavg2Mps, r.vavg3Mps,
     r.vstd1Mps, r.vstd2Mps, r.vstd3Mps,
     r.vpk1Mps, r.vpk2Mps, r.vpk3Mps]
  }

  /** The values of a record, one per key of `FieldNames`, in the same order. */
  function Cells(r: TelemetryRecord): (cs: seq<Cell>)
    ensures |cs| == |FieldNames|
    ensures cs[0] == Text(r.receivedTime) && cs[1] == Text(r.sentTime)
    ensures cs[2] == Int(r.unixEpoch) && cs[3] == Int(r.siv)
    ensures cs[4] == Single(r.latitude) && cs[5] == Single(r.longitude) && cs[6] == Int(r.altitude)
    ensures forall k :: 0 <= k < 16 ==> cs[7 + k] == Float(Readings(r)[k])
  {
    [Text(r.receivedTime), Text(r.sentTime), Int(r.unixEpoch), Int(r.siv),
     Single(r.latitude), Single(r.longitude), Int(r.altitude)] +
    seq(16, k requires 0 <= k < 16 => Float(Readings(r)[k]))
  }

  /**
   * `message_data[key]`: the value the dictionary literal gives each key,
   * and `None` for a key the dictionary does not have.
   */
  function Field(r: TelemetryRecord, key: string): Option<Cell> {
    if key == "received_time" then Some(Text(r.receivedTime))
    else if key == "sent_time" then Some(Text(r.sentTime))
    else if key == "unix_epoch" then Some(Int(r.unixEpoch))
    else if key == "siv" then Some(Int(r.siv))
    else if key == "latitude" then Some(Single(r.latitude))
    else if key == "longitude" then Some(Single(r.longitude))
    else if key == "altitude" then Some(Int(r.altitude))
    else if key == "pressure_mbar" then Some(Float(r.pressureMbar))
    else if key == "temperature_pht_c" then Some(Float(r.temperaturePhtC))
    else if key == "temperature_cj_c" then Some(Float(r.temperatureCjC))
    else if key == "temperature_tctip_c" then Some(Float(r.temperatureTctipC))
    else if key == "roll_deg" then Some(Float(r.rollDeg))
    else if key == "pitch_deg" then Some(Float(r.pitchDeg))
    else if key == "yaw_deg" then Some(Float(r.yawDeg))
    else if key == "vavg_1_mps" then Some(Float(r.vavg1Mps))
    else if key == "vavg_2_mps" then Some(Float(r.vavg2Mps))
    else if key == "vavg_3_mps" then Some(Float(r.vavg3Mps))
    else if key == "vstd_1_mps" then Some(Float(r.vstd1Mps))
    else if key == "vstd_2_mps" then Some(Float(r.vstd2Mps))
    else if key == "vstd_3_mps" then Some(Float(r.vstd3Mps))
    else if key == "vpk_1_mps" then Some(Float(r.vpk1Mps))
    else if key == "vpk_2_mps" then Some(Float(r.vpk2Mps))
    else if key == "vpk_3_mps" then Some(Float(r.vpk3Mps))
    else None
  }

  /**
   * The k-th value of a record is the value the dictionary holds under the
   * k-th key, so a row written in key order pairs every value with its key.
   */
  lemma CellsByKey(r: TelemetryRecord, k: nat)
    requires k < |FieldNames|
    ensures Field(r, FieldNames[k]) == Some(Cells(r)[k])
  {
  }

  /** The dictionary has a value exactly under the keys `FieldNames` lists. */
  lemma FieldDefinedOnKeys(r: TelemetryRecord, key: string)
    ensures Field(r, key).Some? <==> key in FieldNames
  {
  }

  /**
   * The dictionary built from an unpacked frame: the wall-clock reception
   * time as given, the UTC text of the epoch, the five leading values as
   * read and the sixteen channels scaled.
   */
  function Build(f: Layout.Frame, receivedTime: string): (r: TelemetryRecord)
    requires Layout.Valid(f)
    ensures r.receivedTime == receivedTime
    ensures r.unixEpoch == f.epoch && Civil.ParseUtc(r.sentTime) == Some(f.epoch)
    ensures r.siv == f.siv && r.altitude == f.altitude
    ensures r.latitude == f.latitudeBits && r.longitude == f.longitudeBits
    ensures Readings(r) == Scaling.Scale(f.channels)
  {
    Civil.UtcTextRoundTrip(f.epoch);
    var v := Scaling.Scale(f.channels);
    TelemetryRecord(
      receivedTime, Civil.UtcText(f.epoch), f.epoch, f.siv,
      f.latitudeBits, f.longitudeBits, f.altitude,
      v[0], v[1], v[2], v[3], v[4], v[5], v[6],
      v[7], v[8], v[9],
      v[10], v[11], v[12],
      v[13], v[14], v[15])
  }
}

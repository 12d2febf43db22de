/**
 * The records the REST backend returns, as the front end's interfaces declare
 * them. Timestamps are milliseconds since the epoch; optional numeric and
 * boolean fields are `None` when the JSON holds `null` or omits them.
 */
module Domain {
  import opened Wrappers
  import opened JsNumber

  datatype User = User(
    id: string,
    fullname: Option<string>,
    email: string,
    address: Option<string>,
    kind: string,
    status: string)

  datatype Patient = Patient(id: string, user: User, device: Option<Device>)

  datatype Device = Device(
    id: string,
    serialNumber: string,
    model: string,
    patient: Option<Patient>,
    status: string)

  /** A family member with the patients linked to it (a missing list reads as empty). */
  datatype Family = Family(id: string, user: User, patients: seq<Patient>)

  datatype Doctor = Doctor(id: string, user: User)

  /** One telemetry record of a session. */
  datatype SessionData = SessionData(
    id: string,
    airflowValue: Option<Num>,
    respBaseline: Option<Num>,
    respDiffAbs: Option<Num>,
    respRate: Option<Num>,
    bpm: Option<Num>,
    spo2: Option<Num>,
    resp2Adc: Option<Num>,
    resp2Positive: Option<bool>,
    micAirValue: Option<Num>,
    recordedAt: int)

  datatype Session = Session(
    id: string,
    patient: Patient,
    device: Device,
    startedAt: int,
    endedAt: Option<int>,
    records: seq<SessionData>)

  /** The numeric fields a `pick` callback (`r => r.bpm ?? null`, ...) selects. */
  datatype Metric = Airflow | RespBaseline | RespDiffAbs | RespRate | Bpm | Spo2 | Resp2Adc | MicAir

  function Pick(r: SessionData, m: Metric): Option<Num> {
    match m
    case Airflow => r.airflowValue
    case RespBaseline => r.respBaseline
    case RespDiffAbs => r.respDiffAbs
    case RespRate => r.respRate
    case Bpm => r.bpm
    case Spo2 => r.spo2
    case Resp2Adc => r.resp2Adc
    case MicAir => r.micAirValue
  }

  function RecordedAt(r: SessionData): int { r.recordedAt }

  function StartedAt(s: Session): int { s.startedAt }

  function SessionId(s: Session): string { s.id }
}

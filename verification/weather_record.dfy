/**
 * The flat observation record (`WeatherData`) that every component passes
 * around: nullable strings, Java `int`s and `double`s.  Doubles are carried
 * as opaque IEEE-754 bit patterns, since nothing in the core computes with
 * them.
 */
module WeatherRecord {
  import opened Base

  /** A Java `double`, kept as its bit pattern and never interpreted. */
  datatype Double = Double(bits: bv64)

  /** `0.0`, the default of a `double` field (all bits clear). */
  const Zero: Double := Double(0)

  datatype WeatherData = WeatherData(
    id: Option<string>,
    name: Option<string>,
    state: Option<string>,
    timeZone: Option<string>,
    lat: Double,
    lon: Double,
    localDateTime: Option<string>,
    localDateTimeFull: Option<string>,
    airTemp: Double,
    apparentT: Double,
    cloud: Option<string>,
    dewpt: Double,
    press: Double,
    relHum: int,
    windDir: Option<string>,
    windSpdKmh: int,
    windSpdKt: int
  )

  /** The seventeen fields, named as on the wire. */
  datatype Field =
    | Id | Name | State | TimeZone | Lat | Lon | LocalDateTime | LocalDateTimeFull
    | AirTemp | ApparentT | Cloud | Dewpt | Press | RelHum | WindDir | WindSpdKmh | WindSpdKt

  /** How a field is stored: a nullable string, a `double` or an `int`. */
  datatype Kind = TextKind | RealKind | WholeKind

  function KindOf(f: Field): Kind {
    match f
    case Lat | Lon | AirTemp | ApparentT | Dewpt | Press => RealKind
    case RelHum | WindSpdKmh | WindSpdKt => WholeKind
    case _ => TextKind
  }

  /** The contents of one field. */
  datatype FieldValue = TextValue(text: Option<string>) | RealValue(number: Double) | WholeValue(whole: int)

  predicate Fits(f: Field, v: FieldValue) {
    match KindOf(f)
    case TextKind => v.TextValue?
    case RealKind => v.RealValue?
    case WholeKind => v.WholeValue?
  }

  /** The Java field name, which is also the key in the file and in JSON. */
  function FieldName(f: Field): string {
    match f
    case Id => "id"
    case Name => "name"
    case State => "state"
    case TimeZone => "time_zone"
    case Lat => "lat"
    case Lon => "lon"
    case LocalDateTime => "local_date_time"
    case LocalDateTimeFull => "local_date_time_full"
    case AirTemp => "air_temp"
    case ApparentT => "apparent_t"
    case Cloud => "cloud"
    case Dewpt => "dewpt"
    case Press => "press"
    case RelHum => "rel_hum"
    case WindDir => "wind_dir"
    case WindSpdKmh => "wind_spd_kmh"
    case WindSpdKt => "wind_spd_kt"
  }

  /**
   * The `switch` on a key: the field with that exact name, or `None` for a
   * key that names no field.
   */
  function FieldOfKey(key: string): (r: Option<Field>)
    ensures r.Some? ==> FieldName(r.value) == key
    ensures r.None? ==> forall f :: FieldName(f) != key
  {
    if key == "id" then Some(Id)
    else if key == "name" then Some(Name)
    else if key == "state" then Some(State)
    else if key == "time_zone" then Some(TimeZone)
    else if key == "lat" then Some(Lat)
    else if key == "lon" then Some(Lon)
    else if key == "local_date_time" then Some(LocalDateTime)
    else if key == "local_date_time_full" then Some(LocalDateTimeFull)
    else if key == "air_temp" then Some(AirTemp)
    else if key == "apparent_t" then Some(ApparentT)
    else if key == "cloud" then Some(Cloud)
    else if key == "dewpt" then Some(Dewpt)
    else if key == "press" then Some(Press)
    else if key == "rel_hum" then Some(RelHum)
    else if key == "wind_dir" then Some(WindDir)
    else if key == "wind_spd_kmh" then Some(WindSpdKmh)
    else if key == "wind_spd_kt" then Some(WindSpdKt)
    else None
  }

  /** Field names are distinct, so every field is found under its own name. */
  lemma FieldOfName(f: Field)
    ensures FieldOfKey(FieldName(f)) == Some(f)
  {
  }

  function Get(d: WeatherData, f: Field): (v: FieldValue)
    ensures Fits(f, v)
  {
    match f
    case Id => TextValue(d.id)
    case Name => TextValue(d.name)
    case State => TextValue(d.state)
    case TimeZone => TextValue(d.timeZone)
    case Lat => RealValue(d.lat)
    case Lon => RealValue(d.lon)
    case LocalDateTime => TextValue(d.localDateTime)
    case LocalDateTimeFull => TextValue(d.localDateTimeFull)
    case AirTemp => RealValue(d.airTemp)
    case ApparentT => RealValue(d.apparentT)
    case Cloud => TextValue(d.cloud)
    case Dewpt => RealValue(d.dewpt)
    case Press => RealValue(d.press)
    case RelHum => WholeValue(d.relHum)
    case WindDir => TextValue(d.windDir)
    case WindSpdKmh => WholeValue(d.windSpdKmh)
    case WindSpdKt => WholeValue(d.windSpdKt)
  }

  /** A record is exactly the values of its seventeen fields. */
  lemma RecordExtensionality(a: WeatherData, b: WeatherData)
    requires forall f :: Get(a, f) == Get(b, f)
    ensures a == b
  {
    assert Get(a, Id) == Get(b, Id);
    assert Get(a, Name) == Get(b, Name);
    assert Get(a, State) == Get(b, State);
    assert Get(a, TimeZone) == Get(b, TimeZone);
    assert Get(a, LocalDateTime) == Get(b, LocalDateTime);
    assert Get(a, LocalDateTimeFull) == Get(b, LocalDateTimeFull);
    assert Get(a, Cloud) == Get(b, Cloud);
    assert Get(a, WindDir) == Get(b, WindDir);
    assert Get(a, Lat) == Get(b, Lat);
    assert Get(a, Lon) == Get(b, Lon);
    assert Get(a, AirTemp) == Get(b, AirTemp);
    assert Get(a, ApparentT) == Get(b, ApparentT);
    assert Get(a, Dewpt) == Get(b, Dewpt);
    assert Get(a, Press) == Get(b, Press);
    assert Get(a, RelHum) == Get(b, RelHum);
    assert Get(a, WindSpdKmh) == Get(b, WindSpdKmh);
    assert Get(a, WindSpdKt) == Get(b, WindSpdKt);
  }

  /** An assignment `data.<f> = v`: field `f` reads `v`, every other field is untouched. */
  function Set(d: WeatherData, f: Field, v: FieldValue): (r: WeatherData)
    requires Fits(f, v)
    ensures Get(r, f) == v
    ensures forall g :: g != f ==> Get(r, g) == Get(d, g)
  {
    match f
    case Id => d.(id := v.text)
    case Name => d.(name := v.text)
    case State => d.(state := v.text)
    case TimeZone => d.(timeZone := v.text)
    case Lat => d.(lat := v.number)
    case Lon => d.(lon := v.number)
    case LocalDateTime => d.(localDateTime := v.text)
    case LocalDateTimeFull => d.(localDateTimeFull := v.text)
    case AirTemp => d.(airTemp := v.number)
    case ApparentT => d.(apparentT := v.number)
    case Cloud => d.(cloud := v.text)
    case Dewpt => d.(dewpt := v.number)
    case Press => d.(press := v.number)
    case RelHum => d.(relHum := v.whole)
    case WindDir => d.(windDir := v.text)
    case WindSpdKmh => d.(windSpdKmh := v.whole)
    case WindSpdKt => d.(windSpdKt := v.whole)
  }

  /** What `new WeatherData()` leaves in a field: `null`, `0.0` or `0`. */
  function Default(f: Field): (v: FieldValue)
    ensures Fits(f, v)
  {
    match KindOf(f)
    case TextKind => TextValue(None)
    case RealKind => RealValue(Zero)
    case WholeKind => WholeValue(0)
  }

  /** `new WeatherData()`: every field holds its default. */
  function Empty(): (d: WeatherData)
    ensures forall f :: Get(d, f) == Default(f)
  {
    WeatherData(None, None, None, None, Zero, Zero, None, None, Zero, Zero, None, Zero, Zero, 0, None, 0, 0)
  }
}

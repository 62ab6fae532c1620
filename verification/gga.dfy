/** Decoding of one stripped `$GPGGA` (GPS fix data) line into a fix: the
    line is split on commas and the fields are taken by their position in
    the NMEA 0183 GGA sentence. */
module Gga {
  import opened Text
  import opened Coordinates

  const Talker := "$GPGGA"
  const MinFields := 10

  // Positions of the fields the reader uses.
  const LatitudeField := 2
  const LatitudeHemisphereField := 3
  const LongitudeField := 4
  const LongitudeHemisphereField := 5
  const SatellitesField := 7
  const AltitudeField := 9

  /** A decoded fix. Altitude and satellite count stay the raw field text. */
  datatype Fix = Fix(latitude: real, longitude: real, altitude: string, satellites: string)

  /** What the reader does with a line: `NotGga` and `TooFewFields` fail
      the guard and write nothing, `NoFix` (empty latitude) writes nothing
      either, `Unparsable` is a coordinate that `float` rejects (the
      program stops there), `Accepted` is written to the log. */
  datatype Decoded = NotGga | TooFewFields | NoFix | Unparsable | Accepted(fix: Fix)

  function DecodeGga(line: string): Decoded
  {
    var data := Split(line, ',');
    if !(StartsWith(line, Talker) && |data| >= MinFields) then
      if StartsWith(line, Talker) then TooFewFields else NotGga
    else if data[LatitudeField] == "" then NoFix
    else if !Convertible(data[LatitudeField], 2) || !Convertible(data[LongitudeField], 3) then Unparsable
    else
      Accepted(Fix(ToDecimalDegrees(data[LatitudeField], data[LatitudeHemisphereField], 2, "S"),
                   ToDecimalDegrees(data[LongitudeField], data[LongitudeHemisphereField], 3, "W"),
                   data[AltitudeField],
                   data[SatellitesField]))
  }

  /** Only a line that starts with `$GPGGA` gives anything but `NotGga`,
      and it has too few fields exactly when it holds fewer than nine
      commas; a fix needs at least nine. */
  lemma DecodeGuards(line: string)
    ensures !StartsWith(line, Talker) ==> DecodeGga(line) == NotGga
    ensures DecodeGga(line) == TooFewFields <==> StartsWith(line, Talker) && Occurrences(line, ',') < MinFields - 1
    ensures DecodeGga(line).Accepted? ==> StartsWith(line, Talker) && Occurrences(line, ',') >= MinFields - 1
  {
    SplitSpec(line, ',');
  }

  /** Decoding a sentence assembled from comma-free fields reads each
      value from its fixed position: latitude and its hemisphere from
      fields 2 and 3, longitude and its hemisphere from 4 and 5, the
      satellite count from 7 and the altitude from 9; fewer than ten fields
      or an empty latitude give no fix. */
  lemma {:induction false} DecodeFields(fields: seq<string>)
    requires |fields| >= 1 && StartsWith(fields[0], Talker)
    requires forall i :: 0 <= i < |fields| ==> ',' !in fields[i]
    ensures var d := DecodeGga(Join(fields, ','));
      && (|fields| < MinFields ==> d == TooFewFields)
      && (|fields| >= MinFields && fields[2] == "" ==> d == NoFix)
      && (|fields| >= MinFields && fields[2] != "" && !(Convertible(fields[2], 2) && Convertible(fields[4], 3)) ==> d == Unparsable)
      && (|fields| >= MinFields && fields[2] != "" && Convertible(fields[2], 2) && Convertible(fields[4], 3) ==>
            d == Accepted(Fix(ToDecimalDegrees(fields[2], fields[3], 2, "S"),
                              ToDecimalDegrees(fields[4], fields[5], 3, "W"),
                              fields[9], fields[7])))
  {
    SplitJoin(fields, ',');
    JoinStartsWith(fields, ',', Talker);
  }

  /** Angles as a receiver encodes them in a sentence. */
  datatype Position = Position(degrees: nat, minutes: nat, fraction: nat, fractionDigits: nat, hemisphere: string)

  predicate Encodable(p: Position, degreeDigits: nat)
  {
    p.degrees < Pow10(degreeDigits) && p.minutes < 100 && p.fraction < Pow10(p.fractionDigits) && ',' !in p.hemisphere
  }

  function EncodePosition(p: Position, degreeDigits: nat): string
  {
    EncodeDegreesMinutes(p.degrees, degreeDigits, p.minutes, p.fraction, p.fractionDigits)
  }

  /** The signed decimal degrees a position stands for. */
  function SignedAngle(p: Position, negative: string): real
  {
    var a := Angle(p.degrees, p.minutes, p.fraction, p.fractionDigits);
    if p.hemisphere == negative then -a else a
  }

  /** A coordinate field written for a position converts back to that
      position's signed decimal degrees. */
  lemma DecodePosition(p: Position, degreeDigits: nat, negative: string)
    requires 1 <= degreeDigits && Encodable(p, degreeDigits)
    ensures Convertible(EncodePosition(p, degreeDigits), degreeDigits)
    ensures ToDecimalDegrees(EncodePosition(p, degreeDigits), p.hemisphere, degreeDigits, negative) == SignedAngle(p, negative)
  {
    ConvertEncoded(p.degrees, degreeDigits, p.minutes, p.fraction, p.fractionDigits, p.hemisphere, negative);
  }

  /** A GGA sentence as a receiver writes it: time, latitude, longitude,
      fix quality, satellites, dilution, altitude and any further fields. */
  function EncodeGga(time: string, latitude: Position, longitude: Position, quality: string,
                     satellites: string, dilution: string, altitude: string, trailer: seq<string>): string
  {
    Join([Talker, time, EncodePosition(latitude, 2), latitude.hemisphere,
          EncodePosition(longitude, 3), longitude.hemisphere, quality, satellites, dilution, altitude] + trailer, ',')
  }

  /** Decoding what a receiver encoded gives back its position in decimal
      degrees (negative exactly for `S` latitudes and `W` longitudes), its
      altitude text and its satellite text. */
  lemma DecodeEncoded(time: string, latitude: Position, longitude: Position, quality: string,
                      satellites: string, dilution: string, altitude: string, trailer: seq<string>)
    requires Encodable(latitude, 2) && Encodable(longitude, 3)
    requires ',' !in time && ',' !in quality && ',' !in satellites && ',' !in dilution && ',' !in altitude
    requires forall i :: 0 <= i < |trailer| ==> ',' !in trailer[i]
    ensures DecodeGga(EncodeGga(time, latitude, longitude, quality, satellites, dilution, altitude, trailer))
         == Accepted(Fix(SignedAngle(latitude, "S"), SignedAngle(longitude, "W"), altitude, satellites))
  {
    var lat := EncodePosition(latitude, 2);
    var lon := EncodePosition(longitude, 3);
    DecodePosition(latitude, 2, "S");
    DecodePosition(longitude, 3, "W");
    EncodedFields(time, latitude, longitude, quality, satellites, dilution, altitude, trailer);
  }

  /** The field-position half of `DecodeEncoded`. */
  lemma EncodedFields(time: string, latitude: Position, longitude: Position, quality: string,
                      satellites: string, dilution: string, altitude: string, trailer: seq<string>)
    requires Encodable(latitude, 2) && Encodable(longitude, 3)
    requires Convertible(EncodePosition(latitude, 2), 2) && Convertible(EncodePosition(longitude, 3), 3)
    requires ',' !in time && ',' !in quality && ',' !in satellites && ',' !in dilution && ',' !in altitude
    requires forall i :: 0 <= i < |trailer| ==> ',' !in trailer[i]
    ensures DecodeGga(EncodeGga(time, latitude, longitude, quality, satellites, dilution, altitude, trailer))
         == Accepted(Fix(ToDecimalDegrees(EncodePosition(latitude, 2), latitude.hemisphere, 2, "S"),
                         ToDecimalDegrees(EncodePosition(longitude, 3), longitude.hemisphere, 3, "W"),
                         altitude, satellites))
  {
    var lat := EncodePosition(latitude, 2);
    var lon := EncodePosition(longitude, 3);
    var fields := [Talker, time, lat, latitude.hemisphere, lon, longitude.hemisphere,
                   quality, satellites, dilution, altitude] + trailer;
    NoCommaInEncoding(latitude, 2);
    NoCommaInEncoding(longitude, 3);
    CommaFreeFields([Talker, time, lat, latitude.hemisphere, lon, longitude.hemisphere,
                     quality, satellites, dilution, altitude], trailer);
    assert |lat| > 0;
    assert fields[0] == Talker && fields[2] == lat && fields[3] == latitude.hemisphere && fields[4] == lon
        && fields[5] == longitude.hemisphere && fields[7] == satellites && fields[9] == altitude;
    assert EncodeGga(time, latitude, longitude, quality, satellites, dilution, altitude, trailer) == Join(fields, ',');
    DecodeFields(fields);
  }

  /** Appending comma-free fields to comma-free fields. */
  lemma CommaFreeFields(head: seq<string>, trailer: seq<string>)
    requires forall i :: 0 <= i < |head| ==> ',' !in head[i]
    requires forall i :: 0 <= i < |trailer| ==> ',' !in trailer[i]
    ensures forall i :: 0 <= i < |head + trailer| ==> ',' !in (head + trailer)[i]
  {
    forall i | 0 <= i < |head + trailer| ensures ',' !in (head + trailer)[i] {
      if i >= |head| { assert (head + trailer)[i] == trailer[i - |head|]; }
    }
  }

  lemma NoCommaInEncoding(p: Position, degreeDigits: nat)
    ensures ',' !in EncodePosition(p, degreeDigits)
  {
    var d := Pad(p.degrees, degreeDigits);
    var m := Pad(p.minutes, 2);
    var f := Pad(p.fraction, p.fractionDigits);
    var s := EncodePosition(p, degreeDigits);
    assert s == d + m + "." + f;
    forall i | 0 <= i < |s| ensures s[i] != ',' {
      if i < |d| { assert s[i] == d[i]; }
      else if i < |d| + |m| { assert s[i] == m[i - |d|]; }
      else if i > |d| + |m| { assert s[i] == f[i - |d| - |m| - 1]; }
    }
  }
}

# GT-U7 GPS reader, modelled in Dafny

The reader is one script, `main_reader.py`. It looks for a GT-U7 GPS
receiver on the serial ports COM1 to COM100. A port is taken when the
first line read from it starts with `$GPRMC`. The script then reads the
receiver's NMEA 0183 output. Each pass of its main loop skips lines until
one starts with `$GPGGA` and decodes that GGA sentence. When the sentence
gives a fix, the script writes one fix record to a log. A fix record holds
a timestamp, the latitude and longitude in signed decimal degrees, the
altitude field and the satellite-count field. When a read raises
`SerialException`, the script writes one exception record and runs
discovery again over the whole port range.

The model has six modules:

- `Options`: the `Option` type that discovery and the read loop share.
- `Text`: Python's `str.startswith`, `str.strip` (with Python's whitespace
  set) and `str.split(',')`, plus a `Join` that inverts `Split`.
- `Coordinates`: `float` on digit strings, as exact reals. Also the
  degree-minute to decimal-degree conversion, and an encoder for fields in
  the form a receiver writes them.
- `Gga`: `DecodeGga` gives the outcome of one stripped line. `NotGga` and
  `TooFewFields` fail the guard. `NoFix` means an empty latitude.
  `Unparsable` means `float` raises. `Accepted` carries a `Fix`. Lemmas
  characterise every branch and give a round trip from the encoder.
- `Discovery`: a sweep over the ports (`Sweep`, a `for` loop) and the
  discovery loop (`Connect`). The start-up copy (lines 33-54) and the
  reconnect copy (lines 142-163) differ only in their console messages.
  Both are this one `Connect`, so they behave the same by construction.
- `Acquisition`: the main loop as a two-state machine, `Acquiring` and
  `Streaming(port)`. `Trace` is its specification function and `Run` is
  the imperative loop proved equal to it.

The outside world is a finite `Environment` with three parts:

- `sweeps`: one probe oracle per discovery sweep. It says what probing each
  `COM<n>` gives during that sweep.
- `input`: the reads on whichever port is connected.
- `clock`: the clock readings, one per pass of the main loop.

The script itself never ends. The model stops when one of these runs out
(`StillSweeping`, `AwaitingInput`), or where the script would crash because
`float` rejects a coordinate (`Crashed`).

The code does not range-check coordinates. A latitude field `9960.000`
decodes to 100.0 degrees (`Coordinates.LatitudeNotRangeChecked`), and
nothing rejects it. The model follows the code here, not the
[-90, 90] / [-180, 180] ranges one might expect of a fix.

## Model

| member | source | states |
|---|---|---|
| Text.StartsWith | main_reader.py:42 | Python's `str.startswith` (also at lines 80 and 85); no contract of its own, used by `Gga.DecodeGuards` and `Text.JoinStartsWith` |
| Text.Strip | main_reader.py:41 | Python's `str.strip()`; no contract of its own, characterised by `Text.StripSpec` |
| Text.StripSpec | main_reader.py:41 | `Strip(s)` is a slice of `s` with no whitespace at either end, everything it drops is whitespace, and stripping twice is stripping once |
| Text.Split | main_reader.py:84 | Python's `str.split(',')`: at least one field; characterised by `Text.SplitSpec` and `Text.SplitJoin` |
| Text.SplitSpec | main_reader.py:84 | `split(',')` gives one more field than there are commas, no field holds a comma, and joining the fields with commas gives back the line |
| Text.SplitJoin | main_reader.py:84 | splitting a comma-joined list of comma-free fields gives back exactly those fields |
| Coordinates.IsDecimal | main_reader.py:98-107 | the texts `float` accepts in the model (digits with at most one point); no contract of its own, used by `Coordinates.DecimalOfDigits` and `Coordinates.DecimalOfParts` |
| Coordinates.DecimalValue | main_reader.py:98-107 | `float` on such a text is never negative; its value is stated by `Coordinates.DecimalOfDigits` and `Coordinates.DecimalOfParts` |
| Coordinates.DecimalOfDigits | main_reader.py:98-107 | `float` of a non-empty digit string is the number the digits spell |
| Coordinates.DecimalOfParts | main_reader.py:98-107 | `float` of digits, a point and digits is the whole part plus the fraction digits over their power of ten |
| Coordinates.Head | main_reader.py:98 | the slice `raw[:n]` (also line 105), the whole text when it is shorter than `n`; no contract of its own, used by `Coordinates.EncodedDegrees` |
| Coordinates.Tail | main_reader.py:99 | the slice `raw[n:]` (also line 106), empty when the text is shorter than `n`; no contract of its own, used by `Coordinates.EncodedMinutes` |
| Coordinates.Convertible | main_reader.py:98-107 | `float` accepts both the degree part and the minute part, so the conversion does not raise; no contract of its own, shown to hold for every encoded field by `Coordinates.ConvertEncoded` |
| Coordinates.ToDecimalDegrees | main_reader.py:98-110 | the result is non-positive when the hemisphere field is exactly the negative one (`S`, `W`) and non-negative otherwise; for fields in the receiver's DDMM.MMMM / DDDMM.MMMM form its value is stated by `Coordinates.ConvertEncoded` |
| Coordinates.ConvertEncoded | main_reader.py:98-110 | a field written as degrees, two-digit minutes and a fraction converts to exactly degrees + minutes/60, negated exactly when the hemisphere field equals `S`/`W` |
| Coordinates.EncodedDegrees | main_reader.py:98-110 | the first 2 or 3 characters of an encoded field are a decimal whose value is the degrees |
| Coordinates.EncodedMinutes | main_reader.py:98-110 | the rest of an encoded field is a decimal whose value is the minutes plus the fraction |
| Coordinates.TextbookLatitude | main_reader.py:98-102 | a field `4807.038` with `N` gives 48.1173 and with `S` gives -48.1173 |
| Coordinates.TextbookLongitude | main_reader.py:105-110 | a field `01131.000` with `E` gives 11 + 31/60 and with `W` gives its negation |
| Coordinates.LatitudeNotRangeChecked | main_reader.py:98-102 | the conversion accepts a field `9960.000` with `N` and yields 100.0: no latitude range check |
| Gga.DecodeGga | main_reader.py:84-110 | the decoding of one stripped line; no contract of its own, its outcome for every line is stated by `Gga.DecodeGuards` and `Gga.DecodeFields`, and for every sentence a receiver writes by `Gga.DecodeEncoded` |
| Gga.DecodeGuards | main_reader.py:84-85 | a line not starting with `$GPGGA` is `NotGga`; one starting with it has too few fields exactly when it holds fewer than nine commas; a fix needs the prefix and at least nine commas |
| Gga.DecodeFields | main_reader.py:84-110 | for every comma-free field list: fewer than ten fields gives no record, an empty field 2 gives `NoFix`, an unconvertible field 2 or 4 gives `Unparsable`, else the fix reads latitude/hemisphere from fields 2/3, longitude/hemisphere from 4/5, satellites from 7 and altitude from 9 |
| Gga.DecodePosition | main_reader.py:98-110 | an encoded coordinate field converts back to the signed angle of the position it encodes |
| Gga.DecodeEncoded | main_reader.py:84-110 | decoding a GGA sentence built from positions and field texts gives back those positions in signed decimal degrees, the altitude text and the satellite text |
| Discovery.IsGps | main_reader.py:41-42 | a probed port is a GPS receiver when it replied and its first line, stripped, starts with `$GPRMC`; no contract of its own, used by `Discovery.FirstGpsSpec` |
| Discovery.FirstGps | main_reader.py:35-51 | the port found, if any, lies between the starting port and COM100 |
| Discovery.FirstGpsSpec | main_reader.py:35-51 | the port found is a GPS port (its first stripped line starts with `$GPRMC`) and no lower port from the start is one; none found means no port from the start to COM100 is one |
| Discovery.Sweep | main_reader.py:35-51 | the port found is the first GPS port, and the ports probed are COM1 up to it in ascending order, or all hundred when none is found |
| Discovery.Discover | main_reader.py:33-54 | a connection is made in one of the sweeps, to that sweep's first GPS port |
| Discovery.DiscoverEarlier | main_reader.py:33-54 | every sweep before the one that connects found no GPS port |
| Discovery.DiscoverFirst | main_reader.py:33-54 | the first sweep that finds a GPS port connects, to that sweep's first GPS port |
| Discovery.DiscoverNone | main_reader.py:33-54 | discovery is still sweeping exactly when every sweep came up empty |
| Discovery.Connect | main_reader.py:33-54 | the discovery loop (also lines 142-163) connects where `Discover` says; it probes complete sweeps of COM1..COM100, excluding no port, then COM1 up to the port connected to |
| Acquisition.IsGgaLine | main_reader.py:80-81 | a line the read loop keeps: it starts with `$GPGGA` once stripped; no contract of its own, used by `Acquisition.NextEvent` |
| Acquisition.EndsRead | main_reader.py:80-81 | the read loop ends at a kept line or at a read raising SerialException (line 126); no contract of its own, used by `Acquisition.NextEvent` and `Acquisition.ReadUntilGga` |
| Acquisition.NextEvent | main_reader.py:79-81 | the read loop ends at the first read that is a `$GPGGA` line or a failure, and every read before it is discarded |
| Acquisition.ReadUntilGga | main_reader.py:79-81 | the read loop stops at the first GGA line or failure, every read before it being discarded, and agrees with `NextEvent` |
| Acquisition.InsertedNextEvent | main_reader.py:79-81 | a read that neither fails nor starts with `$GPGGA`, inserted at position k, leaves the read loop's stopping read the same: its index is unchanged before k and one later from k on, and no stop stays no stop |
| Acquisition.Trace | main_reader.py:59-171 | the main loop as a specification function; no contract of its own, its passes are stated by `Acquisition.FailurePass`, `Acquisition.FixPass`, `Acquisition.RejectedPass`, `Acquisition.FixesThenFailure`, `Acquisition.DiscardedLineIgnored` and `Acquisition.LogBound`, and `Acquisition.Run` is proved equal to it |
| Acquisition.Run | main_reader.py:59-171 | the program's log, final state and stop reason are exactly those `Trace` gives from `Acquiring` |
| Acquisition.FailurePass | main_reader.py:126-163 | a failure writes one exception record stamped with the current reading, and the reader goes back to discovery |
| Acquisition.FixPass | main_reader.py:84-118 | a line giving a fix writes one fix record stamped with the current reading, and streaming goes on |
| Acquisition.RejectedPass | main_reader.py:84-95 | a `$GPGGA` line with fewer than ten fields or an empty latitude writes nothing, uses up the pass's clock reading, and streaming goes on |
| Acquisition.FixesThenFailure | main_reader.py:59-171 | n `$GPGGA` lines, each giving a fix or dropped for too few fields or an empty latitude, then a failure: one fix record per line giving a fix, stamped with the reading of that line's pass, then exactly one exception record on the reading after the n, then discovery runs again |
| Acquisition.PassRecords | main_reader.py:116-118 | the fix records a run of passes writes, one per line giving a fix, stamped with that pass's reading; no contract of its own, described by `Acquisition.AllFixes`, `Acquisition.NoFixes` and `Acquisition.PassRecordsConcat` |
| Acquisition.PassRecord | main_reader.py:116-118 | the record one pass writes: a fix record for a line giving a fix, none otherwise; no contract of its own, used by `Acquisition.HandledPass` and `Acquisition.FixesThenFailure` |
| Acquisition.AllFixes | main_reader.py:116-118 | when every line gives a fix there are exactly as many fix records as lines, the j-th holding the j-th line's fix and the j-th reading |
| Acquisition.NoFixes | main_reader.py:94-95 | lines that give no fix write no record |
| Acquisition.PassRecordsConcat | main_reader.py:59-124 | the records of two runs of lines are those of the first followed by those of the second, which reads the clock from where the first stopped |
| Acquisition.DiscardedLineIgnored | main_reader.py:79-95 | a line not starting with `$GPGGA` once stripped, arriving anywhere in the input, changes nothing in the log, state or stop reason |
| Acquisition.LogBound | main_reader.py:116-132 | each pass appends at most one record, so the log has no more records than clock readings |

## Left out

- File handling: the `gps_data` folder, the file names, opening, flushing, closing and the midnight rotation (lines 7-24, 61-73, 135-136, 165-174). The log is the sequence of records the file would receive.
- Record formatting: the `strftime` timestamps and the `:.6f` rendering of coordinates. Timestamps are opaque clock readings and coordinates are exact reals.
- Floating point: `float` and the division by 60.0 are exact real arithmetic, so rounding and the sign of `-0.0` are not modelled.
- `float` inputs other than digits with at most one point (sign, exponent, surrounding whitespace, `inf`, `nan`, underscores) are treated as rejected, so they lead to `Crashed` here.
- Non-ASCII decimal digits: Python's `float` accepts the decimal digits of other scripts (for example Arabic-Indic `٤٨`), but `Coordinates.IsDigit` admits only `0` to `9`. On such a field the model stops with `Crashed` where the script would write a fix record.
- pyserial: opening ports, baud rate, timeouts and `reset_input_buffer` are not modelled. The effect of each is folded into the probe results and the read timeline. The port is never closed.
- UTF-8 decoding and its `UnicodeDecodeError`: lines are already text. An uncaught exception other than a rejected coordinate is not modelled.
- The one-second and sixty-second sleeps, the clock itself and the time zone.
- Console output.
- The infinite loops: the environment is finite, and the model stops when it runs out.
- NMEA checksums: the code does not check them either.

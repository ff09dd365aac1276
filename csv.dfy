/**
  The text format of the sensor CSV file: the mapping from platform sensor
  types to the three literal sensor names, the rendering of one sample as a
  `timestamp,kind,x,y,z` record, and a decoder that reads a session's text
  back, proved to invert the rendering.
 */
module SensorCsv {

  datatype Option<T> = None | Some(value: T)

  /** Sensor type codes of the platform's sensor framework. */
  const TypeAccelerometer: int := 1
  const TypeMagneticField: int := 2
  const TypeGyroscope: int := 4

  datatype SensorKind = Accelerometer | Gyroscope | Magnetometer

  /** The kind of an event's sensor type; None for any other type. */
  function KindOf(sensorType: int): (k: Option<SensorKind>)
    ensures k.Some? <==> sensorType in {TypeAccelerometer, TypeGyroscope, TypeMagneticField}
    ensures k.Some? ==> TypeCode(k.value) == sensorType
  {
    if sensorType == TypeAccelerometer then Some(Accelerometer)
    else if sensorType == TypeGyroscope then Some(Gyroscope)
    else if sensorType == TypeMagneticField then Some(Magnetometer)
    else None
  }

  /** The platform type code of each kind (the inverse of KindOf). */
  function TypeCode(k: SensorKind): int
  {
    match k
    case Accelerometer => TypeAccelerometer
    case Gyroscope => TypeGyroscope
    case Magnetometer => TypeMagneticField
  }

  /** The literal name written into the Sensor column: never empty, and free
      of the column and line separators. */
  function Name(k: SensorKind): (n: string)
    ensures |n| > 0 && CleanField(n)
  {
    match k
    case Accelerometer => "Accelerometer"
    case Gyroscope => "Gyroscope"
    case Magnetometer => "Magnetometer"
  }

  /** Reads a Sensor column back. */
  function KindByName(s: string): (k: Option<SensorKind>)
    ensures k.Some? ==> Name(k.value) == s
  {
    if s == "Accelerometer" then Some(Accelerometer)
    else if s == "Gyroscope" then Some(Gyroscope)
    else if s == "Magnetometer" then Some(Magnetometer)
    else None
  }

  lemma KindOfTypeCode(k: SensorKind)
    ensures KindOf(TypeCode(k)) == Some(k)
    ensures KindByName(Name(k)) == Some(k)
  {
  }

  // ----- decimal rendering of the millisecond timestamp (a Kotlin Long) -----

  predicate IsDigit(c: char) { '0' <= c <= '9' }

  predicate AllDigits(s: string) { forall i :: 0 <= i < |s| ==> IsDigit(s[i]) }

  function DigitChar(d: nat): (c: char)
    requires d < 10
    ensures IsDigit(c) && c as int - '0' as int == d
  {
    ('0' as int + d) as char
  }

  function DigitValue(c: char): nat
    requires IsDigit(c)
  {
    c as int - '0' as int
  }

  function NatToString(n: nat): (s: string)
    ensures |s| >= 1 && AllDigits(s)
    ensures n >= 10 ==> s[0] != '0'
    decreases n
  {
    if n < 10 then [DigitChar(n)] else NatToString(n / 10) + [DigitChar(n % 10)]
  }

  /** How a string template renders a `Long`: a minus sign, then the digits. */
  function LongToString(n: int): (s: string)
    ensures |s| >= 1
    ensures n < 0 <==> s[0] == '-'
    ensures forall i :: 0 < i < |s| ==> IsDigit(s[i])
    ensures n >= 0 ==> AllDigits(s)
    ensures n < 0 ==> AllDigits(s[1..])
    ensures CleanField(s)
  {
    if n < 0 then "-" + NatToString(-n) else NatToString(n)
  }

  function ParseNat(s: string): nat
    requires |s| >= 1 && AllDigits(s)
    decreases |s|
  {
    if |s| == 1 then DigitValue(s[0])
    else 10 * ParseNat(s[..|s| - 1]) + DigitValue(s[|s| - 1])
  }

  function ParseLong(s: string): Option<int>
  {
    if |s| >= 2 && s[0] == '-' && AllDigits(s[1..]) then Some(0 - ParseNat(s[1..]))
    else if |s| >= 1 && AllDigits(s) then Some(ParseNat(s))
    else None
  }

  lemma {:induction false} ParseNatToString(n: nat)
    ensures ParseNat(NatToString(n)) == n
    decreases n
  {
    if n >= 10 {
      var s := NatToString(n);
      assert s[..|s| - 1] == NatToString(n / 10);
      ParseNatToString(n / 10);
    }
  }

  lemma ParseLongToString(n: int)
    ensures ParseLong(LongToString(n)) == Some(n)
  {
    if n < 0 {
      assert LongToString(n)[1..] == NatToString(-n);
      ParseNatToString(-n);
    } else {
      ParseNatToString(n);
    }
  }

  // ----- splitting on a separator, and its inverse -----

  /** Splits at every occurrence of `sep`; "" gives [""], as a CSV reader does. */
  function Split(s: string, sep: char): (parts: seq<string>)
    ensures |parts| >= 1
    decreases |s|
  {
    if s == [] then [[]]
    else
      var rest := Split(s[1..], sep);
      if s[0] == sep then [[]] + rest else [[s[0]] + rest[0]] + rest[1..]
  }

  function Join(parts: seq<string>, sep: char): string
    requires |parts| >= 1
  {
    if |parts| == 1 then parts[0] else parts[0] + [sep] + Join(parts[1..], sep)
  }

  lemma {:induction false} SplitNoSeparator(a: string, sep: char)
    requires sep !in a
    ensures Split(a, sep) == [a]
    decreases |a|
  {
    if a != [] {
      SplitNoSeparator(a[1..], sep);
      assert [a[0]] + a[1..] == a;
    }
  }

  lemma {:induction false} SplitAtFirst(a: string, sep: char, b: string)
    requires sep !in a
    ensures Split(a + [sep] + b, sep) == [a] + Split(b, sep)
    decreases |a|
  {
    if a == [] {
      assert a + [sep] + b == [sep] + b;
      assert ([sep] + b)[1..] == b;
    } else {
      assert (a + [sep] + b)[1..] == a[1..] + [sep] + b;
      SplitAtFirst(a[1..], sep, b);
      assert [a[0]] + a[1..] == a;
    }
  }

  lemma {:induction false} SplitJoin(parts: seq<string>, sep: char)
    requires |parts| >= 1
    requires forall i :: 0 <= i < |parts| ==> sep !in parts[i]
    ensures Split(Join(parts, sep), sep) == parts
    decreases |parts|
  {
    if |parts| == 1 {
      SplitNoSeparator(parts[0], sep);
    } else {
      SplitJoin(parts[1..], sep);
      SplitAtFirst(parts[0], sep, Join(parts[1..], sep));
      assert [parts[0]] + parts[1..] == parts;
    }
  }

  // ----- records -----

  /** One accepted sensor event: its arrival time, kind and three axis values.
      The axis values are kept as the text the platform renders for a float. */
  datatype Sample = Sample(timestamp: int, kind: SensorKind, x: string, y: string, z: string)

  const HeaderLine: string := "Timestamp,Sensor,X,Y,Z"
  const Header: string := HeaderLine + "\n"

  const HeaderTitles: seq<string> := ["Timestamp", "Sensor", "X", "Y", "Z"]

  lemma HeaderJoin()
    ensures |HeaderTitles| == 5 && HeaderLine == Join(HeaderTitles, ',')
    ensures forall i :: 0 <= i < |HeaderTitles| ==> CleanField(HeaderTitles[i])
  {
    JoinFive("Timestamp", "Sensor", "X", "Y", "Z", ',');
  }

  /** The header line splits at its commas into the five column titles. */
  lemma HeaderColumns()
    ensures Split(HeaderLine, ',') == HeaderTitles
  {
    HeaderJoin();
    SplitJoin(HeaderTitles, ',');
  }

  /** The header is exactly one line, followed by its line break. */
  lemma HeaderIsOneLine()
    ensures Split(Header, '\n') == [HeaderLine, []]
  {
    HeaderJoin();
    NotInJoin(HeaderTitles, ',', '\n');
    assert Header == HeaderLine + ['\n'] + [];
    SplitAtFirst(HeaderLine, '\n', []);
  }

  /** The five columns of a sample's record, in order. */
  function Fields(s: Sample): seq<string>
  {
    [LongToString(s.timestamp), Name(s.kind), s.x, s.y, s.z]
  }

  /** The record `timestamp,kind,x,y,z` of one sample, without its line break.
      For a clean sample it splits at its commas into exactly its five columns. */
  function Line(s: Sample): (l: string)
    ensures CleanSample(s) ==> '\n' !in l && Split(l, ',') == Fields(s)
  {
    var l := LongToString(s.timestamp) + "," + Name(s.kind) + "," + s.x + "," + s.y + "," + s.z;
    var f := Fields(s);
    JoinFive(f[0], f[1], f[2], f[3], f[4], ',');
    assert Join(f, ',') == l by {
      assert f == [f[0], f[1], f[2], f[3], f[4]];
    }
    if CleanSample(s) then
      SplitJoin(f, ',');
      NotInJoin(f, ',', '\n');
      l
    else
      l
  }

  /** The record appended to the buffer for one sample: for a clean sample,
      exactly one line followed by its line break. */
  function Record(s: Sample): (r: string)
    ensures CleanSample(s) ==> Split(r, '\n') == [Line(s), []]
  {
    var r := Line(s) + "\n";
    if CleanSample(s) then
      assert r == Line(s) + ['\n'] + [];
      SplitAtFirst(Line(s), '\n', []);
      r
    else
      r
  }

  /** The records of several samples, in order. */
  function Records(ss: seq<Sample>): string
  {
    if ss == [] then [] else Record(ss[0]) + Records(ss[1..])
  }

  lemma {:induction false} RecordsAppend(ss: seq<Sample>, s: Sample)
    ensures Records(ss + [s]) == Records(ss) + Record(s)
    decreases |ss|
  {
    if ss == [] {
      assert [s][1..] == [];
    } else {
      assert (ss + [s])[1..] == ss[1..] + [s];
      RecordsAppend(ss[1..], s);
    }
  }

  /** A float rendered by the platform never holds a comma or a line break. */
  predicate CleanField(f: string) { ',' !in f && '\n' !in f }

  predicate CleanSample(s: Sample) { CleanField(s.x) && CleanField(s.y) && CleanField(s.z) }

  function ParseSample(line: string): Option<Sample>
  {
    var f := Split(line, ',');
    if |f| != 5 then None
    else
      match (ParseLong(f[0]), KindByName(f[1]))
      case (Some(t), Some(k)) => Some(Sample(t, k, f[2], f[3], f[4]))
      case _ => None
  }

  function ParseSamples(lines: seq<string>): Option<seq<Sample>>
  {
    if lines == [] then Some([])
    else
      match (ParseSample(lines[0]), ParseSamples(lines[1..]))
      case (Some(s), Some(rest)) => Some([s] + rest)
      case _ => None
  }

  /** Reads back the text of one session: the header line, then one sample per
      line, every line terminated by a line break. */
  function DecodeSession(text: string): Option<seq<Sample>>
  {
    var lines := Split(text, '\n');
    if |lines| >= 2 && lines[0] == HeaderLine && lines[|lines| - 1] == [] then
      ParseSamples(lines[1..|lines| - 1])
    else None
  }

  lemma JoinFive(a: string, b: string, c: string, d: string, e: string, sep: char)
    ensures Join([a, b, c, d, e], sep) == a + [sep] + b + [sep] + c + [sep] + d + [sep] + e
  {
    assert [a, b, c, d, e][1..] == [b, c, d, e];
    assert [b, c, d, e][1..] == [c, d, e];
    assert [c, d, e][1..] == [d, e];
    assert [d, e][1..] == [e];
    assert Join([d, e], sep) == d + [sep] + e;
    assert Join([c, d, e], sep) == c + [sep] + (d + [sep] + e);
    assert Join([b, c, d, e], sep) == b + [sep] + (c + [sep] + (d + [sep] + e));
    assert Join([a, b, c, d, e], sep) == a + [sep] + (b + [sep] + (c + [sep] + (d + [sep] + e)));
  }

  lemma {:induction false} NotInJoin(parts: seq<string>, sep: char, ch: char)
    requires |parts| >= 1 && ch != sep
    requires forall i :: 0 <= i < |parts| ==> ch !in parts[i]
    ensures ch !in Join(parts, sep)
    decreases |parts|
  {
    if |parts| > 1 {
      NotInJoin(parts[1..], sep, ch);
    }
  }

  /** The record of a clean sample is one line, and reads back as that sample. */
  lemma RecordRoundTrip(s: Sample)
    requires CleanSample(s)
    ensures '\n' !in Line(s)
    ensures ParseSample(Line(s)) == Some(s)
  {
    assert Split(Line(s), ',') == Fields(s);
    ParseLongToString(s.timestamp);
    KindOfTypeCode(s.kind);
  }

  function Lines(ss: seq<Sample>): (ls: seq<string>)
    ensures |ls| == |ss|
  {
    if ss == [] then [] else [Line(ss[0])] + Lines(ss[1..])
  }

  lemma LineBreakBetween(line: string, rest: string)
    ensures (line + "\n") + rest == line + ['\n'] + rest
  {
  }

  /** The records of clean samples split at line breaks into their lines,
      then one empty piece after the last line break. */
  lemma {:induction false} SplitRecords(ss: seq<Sample>)
    requires forall i :: 0 <= i < |ss| ==> CleanSample(ss[i])
    ensures Split(Records(ss), '\n') == Lines(ss) + [[]]
    decreases |ss|
  {
    if ss != [] {
      var line, rest := Line(ss[0]), Records(ss[1..]);
      SplitRecords(ss[1..]);
      LineBreakBetween(line, rest);
      SplitAtFirst(line, '\n', rest);
      assert Lines(ss)[1..] == Lines(ss[1..]);
    }
  }

  /** The lines of clean samples parse back as those samples, in order. */
  lemma {:induction false} ParseLines(ss: seq<Sample>)
    requires forall i :: 0 <= i < |ss| ==> CleanSample(ss[i])
    ensures ParseSamples(Lines(ss)) == Some(ss)
    decreases |ss|
  {
    if ss != [] {
      RecordRoundTrip(ss[0]);
      ParseLines(ss[1..]);
      assert Lines(ss)[1..] == Lines(ss[1..]);
      assert [ss[0]] + ss[1..] == ss;
    }
  }

  lemma SplitHeader(body: string)
    ensures Split(Header + body, '\n') == [HeaderLine] + Split(body, '\n')
  {
    assert Header + body == HeaderLine + ['\n'] + body;
    SplitAtFirst(HeaderLine, '\n', body);
  }

  lemma DecodeFromLines(text: string, middle: seq<string>)
    requires Split(text, '\n') == [HeaderLine] + (middle + [[]])
    ensures DecodeSession(text) == ParseSamples(middle)
  {
    var lines := Split(text, '\n');
    assert lines[1..|lines| - 1] == middle;
  }

  /** Read back, a session's text gives exactly its samples in arrival order. */
  lemma DecodeRoundTrip(ss: seq<Sample>)
    requires forall i :: 0 <= i < |ss| ==> CleanSample(ss[i])
    ensures DecodeSession(Header + Records(ss)) == Some(ss)
  {
    SplitRecords(ss);
    ParseLines(ss);
    SplitHeader(Records(ss));
    DecodeFromLines(Header + Records(ss), Lines(ss));
  }
}

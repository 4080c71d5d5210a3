/**
 * Telemetry snapshots of the Tello client: the `CommandModeState` data class, its documented
 * default values, and the parsing constructor that reads one `key:value;key:value;...` datagram.
 */
module TelloState {
  import opened Wrappers
  import opened KotlinText

  /** The sixteen fields of a snapshot, one per known telemetry key. */
  datatype Field =
    | Pitch | Roll | Yaw | VelX | VelY | VelZ | TempLow | TempHigh | Tof | Height
    | Battery | Baro | Time | AccelX | AccelY | AccelZ

  /** The telemetry key of each field (the velocity keys are `v` followed by `g` and the axis). */
  function Key(f: Field): string
  {
    match f
    case Pitch => "pitch"
    case Roll => "roll"
    case Yaw => "yaw"
    case VelX => ['v', 'g', 'x']
    case VelY => ['v', 'g', 'y']
    case VelZ => ['v', 'g', 'z']
    case TempLow => "templ"
    case TempHigh => "temph"
    case Tof => "tof"
    case Height => "h"
    case Battery => "bat"
    case Baro => "baro"
    case Time => "time"
    case AccelX => "agx"
    case AccelY => "agy"
    case AccelZ => "agz"
  }

  /** The parser's key table: which field, if any, a key selects. */
  function FieldFor(key: string): (f: Option<Field>)
    ensures f.Some? ==> Key(f.value) == key
    ensures f.None? ==> forall g: Field :: Key(g) != key
  {
    if key == "pitch" then Some(Pitch)
    else if key == "roll" then Some(Roll)
    else if key == "yaw" then Some(Yaw)
    else if key == ['v', 'g', 'x'] then Some(VelX)
    else if key == ['v', 'g', 'y'] then Some(VelY)
    else if key == ['v', 'g', 'z'] then Some(VelZ)
    else if key == "templ" then Some(TempLow)
    else if key == "temph" then Some(TempHigh)
    else if key == "tof" then Some(Tof)
    else if key == "h" then Some(Height)
    else if key == "bat" then Some(Battery)
    else if key == "baro" then Some(Baro)
    else if key == "time" then Some(Time)
    else if key == "agx" then Some(AccelX)
    else if key == "agy" then Some(AccelY)
    else if key == "agz" then Some(AccelZ)
    else None
  }

  /** Distinct fields have distinct keys, so the table finds every field by its own key. */
  lemma FieldForKey(f: Field)
    ensures FieldFor(Key(f)) == Some(f)
  {
  }

  predicate IsFloatField(f: Field)
  {
    f == Baro || f == Time || f == AccelX || f == AccelY || f == AccelZ
  }

  /**
   * A snapshot. Integer fields are Kotlin `Int`s, the battery a Kotlin `Byte`; the
   * floating-point fields hold the text they were assigned from.
   */
  datatype Snapshot = Snapshot(
    pitch: int32, roll: int32, yaw: int32,
    velX: int32, velY: int32, velZ: int32,
    templ: int32, temph: int32, tof: int32, h: int32,
    bat: int8,
    baro: string, time: string, agx: string, agy: string, agz: string)

  /** The value of one field, for stating properties field by field. */
  datatype Value = IntValue(n: int) | FloatText(text: string)

  function Get(s: Snapshot, f: Field): Value
  {
    match f
    case Pitch => IntValue(s.pitch as int)
    case Roll => IntValue(s.roll as int)
    case Yaw => IntValue(s.yaw as int)
    case VelX => IntValue(s.velX as int)
    case VelY => IntValue(s.velY as int)
    case VelZ => IntValue(s.velZ as int)
    case TempLow => IntValue(s.templ as int)
    case TempHigh => IntValue(s.temph as int)
    case Tof => IntValue(s.tof as int)
    case Height => IntValue(s.h as int)
    case Battery => IntValue(s.bat as int)
    case Baro => FloatText(s.baro)
    case Time => FloatText(s.time)
    case AccelX => FloatText(s.agx)
    case AccelY => FloatText(s.agy)
    case AccelZ => FloatText(s.agz)
  }

  /** The data class's default values: the drone's start-up sentinels, not all zero. */
  function Defaults(): Snapshot
  {
    Snapshot(0, 0, -45, 0, 0, 0, 0, 0, 0, 0, 92, "584.55", "0.0", "0.0", "0.0", "0.0")
  }

  /** Why the parsing constructor throws. */
  datatype ParseError =
    | MissingValue(key: string)           // a known key without `:` (`kv[1]` is out of bounds)
    | BadNumber(key: string, text: string) // `toInt()` / `toByte()` rejects the value

  /** What a value text decodes to for a field: `toInt()`, `toByte()`, or the text itself. */
  function Decode(f: Field, raw: string): (v: Option<Value>)
    ensures IsFloatField(f) ==> v == Some(FloatText(raw))
    ensures f == Battery ==> (v.Some? <==> ParseByte(raw).Some?)
    ensures v.Some? && f == Battery ==> v.value.IntValue? && -0x80 <= v.value.n < 0x80
    ensures !IsFloatField(f) && f != Battery ==> (v.Some? <==> ParseInt(raw).Some?)
    ensures v.Some? && !IsFloatField(f) ==> v.value.IntValue? && InInt32(v.value.n)
    ensures v.Some? && f == Battery ==> v.value == IntValue(ParseByte(raw).value as int)
    ensures v.Some? && !IsFloatField(f) && f != Battery ==> v.value == IntValue(ParseInt(raw).value as int)
  {
    if IsFloatField(f) then Some(FloatText(raw))
    else if f == Battery then
      match ParseByte(raw)
      case None => None
      case Some(b) => Some(IntValue(b as int))
    else
      match ParseInt(raw)
      case None => None
      case Some(n) => Some(IntValue(n as int))
  }

  function SetInt(s: Snapshot, f: Field, n: int32): Snapshot
    requires !IsFloatField(f) && f != Battery
  {
    match f
    case Pitch => s.(pitch := n)
    case Roll => s.(roll := n)
    case Yaw => s.(yaw := n)
    case VelX => s.(velX := n)
    case VelY => s.(velY := n)
    case VelZ => s.(velZ := n)
    case TempLow => s.(templ := n)
    case TempHigh => s.(temph := n)
    case Tof => s.(tof := n)
    case Height => s.(h := n)
  }

  function SetText(s: Snapshot, f: Field, t: string): Snapshot
    requires IsFloatField(f)
  {
    match f
    case Baro => s.(baro := t)
    case Time => s.(time := t)
    case AccelX => s.(agx := t)
    case AccelY => s.(agy := t)
    case AccelZ => s.(agz := t)
  }

  /** One arm of the `when`: convert the value text and assign it to the field. */
  function Assign(s: Snapshot, f: Field, raw: string): (r: Result<Snapshot, ParseError>)
    ensures r.Err? <==> Decode(f, raw).None?
    ensures r.Err? ==> r.error == BadNumber(Key(f), raw)
    ensures r.Ok? ==> Some(Get(r.value, f)) == Decode(f, raw)
    ensures r.Ok? ==> forall g :: g != f ==> Get(r.value, g) == Get(s, g)
  {
    if IsFloatField(f) then Ok(SetText(s, f, raw))
    else if f == Battery then
      match ParseByte(raw)
      case None => Err(BadNumber(Key(f), raw))
      case Some(b) => Ok(s.(bat := b))
    else
      match ParseInt(raw)
      case None => Err(BadNumber(Key(f), raw))
      case Some(n) => Ok(SetInt(s, f, n))
  }

  /** The key of a segment: the text before its first `:`. */
  function KeyOf(segment: string): string
  {
    SplitFirst(segment, ':')[0]
  }

  /** One iteration of the parsing loop. */
  function ApplySegment(s: Snapshot, segment: string): (r: Result<Snapshot, ParseError>)
    ensures FieldFor(KeyOf(segment)).None? ==> r == Ok(s)
    ensures FieldFor(KeyOf(segment)).Some? && ':' !in segment ==> r == Err(MissingValue(KeyOf(segment)))
    ensures r.Ok? ==> forall g :: Key(g) != KeyOf(segment) ==> Get(r.value, g) == Get(s, g)
  {
    var kv := SplitFirst(segment, ':');
    match FieldFor(kv[0])
    case None => Ok(s)
    case Some(f) => if |kv| < 2 then Err(MissingValue(kv[0])) else Assign(s, f, kv[1])
  }

  /** The segments applied left to right; the first failure ends the parse. */
  function ApplyAll(s: Snapshot, segments: seq<string>): Result<Snapshot, ParseError>
    decreases |segments|
  {
    if segments == [] then Ok(s)
    else
      match ApplyAll(s, segments[..|segments| - 1])
      case Err(e) => Err(e)
      case Ok(t) => ApplySegment(t, segments[|segments| - 1])
  }

  /** `CommandModeState(data)`: the defaults, updated by every `;`-separated segment. */
  function Parse(data: string): Result<Snapshot, ParseError>
  {
    ApplyAll(Defaults(), Split(data, ';'))
  }

  /** The parsing constructor as the Kotlin code runs it: a loop over the segments. */
  method ParseState(data: string) returns (r: Result<Snapshot, ParseError>)
    ensures r == Parse(data)
  {
    var segments := Split(data, ';');
    var state := Defaults();
    for i := 0 to |segments|
      invariant ApplyAll(Defaults(), segments[..i]) == Ok(state)
    {
      var kv := SplitFirst(segments[i], ':');
      var field := FieldFor(kv[0]);
      var next: Result<Snapshot, ParseError>;
      if field.None? {
        next := Ok(state);
      } else if |kv| < 2 {
        next := Err(MissingValue(kv[0]));
      } else {
        next := Assign(state, field.value, kv[1]);
      }
      ApplyAllStep(Defaults(), segments, i);
      if next.Err? {
        r := next;
        FailureIsFinal(Defaults(), segments, i + 1);
        return;
      }
      state := next.value;
    }
    assert segments[..|segments|] == segments;
    r := Ok(state);
  }

  /** Applying one more segment. */
  lemma ApplyAllStep(s: Snapshot, segments: seq<string>, i: nat)
    requires i < |segments|
    ensures ApplyAll(s, segments[..i + 1]) ==
      match ApplyAll(s, segments[..i])
      case Err(e) => Err(e)
      case Ok(t) => ApplySegment(t, segments[i])
  {
    assert segments[..i + 1][..i] == segments[..i];
  }

  /** Once a segment fails, so does the whole parse, with that segment's error. */
  lemma {:induction false} FailureIsFinal(s: Snapshot, segments: seq<string>, n: nat)
    requires n <= |segments|
    requires ApplyAll(s, segments[..n]).Err?
    ensures ApplyAll(s, segments) == ApplyAll(s, segments[..n])
    decreases |segments| - n
  {
    if n < |segments| {
      assert segments[..n + 1][..n] == segments[..n];
      FailureIsFinal(s, segments, n + 1);
    } else {
      assert segments[..n] == segments;
    }
  }

  /** Segments whose keys are all unknown (or empty) leave the snapshot as it was. */
  lemma {:induction false} UnknownKeysChangeNothing(s: Snapshot, segments: seq<string>)
    requires forall i :: 0 <= i < |segments| ==> FieldFor(KeyOf(segments[i])).None?
    ensures ApplyAll(s, segments) == Ok(s)
    decreases |segments|
  {
    if segments != [] {
      UnknownKeysChangeNothing(s, segments[..|segments| - 1]);
    }
  }

  /** Text with no known key, such as `""` or `"a:1;b"`, parses to the defaults. */
  lemma ParseWithoutKnownKeys(data: string)
    requires forall seg :: seg in Split(data, ';') ==> FieldFor(KeyOf(seg)).None?
    ensures Parse(data) == Ok(Defaults())
    ensures Parse(data).value.yaw == -45 && Parse(data).value.bat == 92
    ensures Parse(data).value.baro == "584.55"
    ensures forall f :: f != Yaw && f != Battery && f != Baro ==>
              Get(Parse(data).value, f) in {IntValue(0), FloatText("0.0")}
  {
    var segments := Split(data, ';');
    assert forall i :: 0 <= i < |segments| ==> segments[i] in segments;
    UnknownKeysChangeNothing(Defaults(), segments);
  }

  /**
   * When a key occurs more than once, its last occurrence decides the field: a segment
   * `key:raw` followed only by segments with other keys leaves the field holding `raw`'s value.
   */
  lemma {:induction false} LastWriteWins(s: Snapshot, segments: seq<string>, j: nat, f: Field, raw: string)
    requires j < |segments| && segments[j] == Key(f) + ":" + raw
    requires forall k :: j < k < |segments| ==> KeyOf(segments[k]) != Key(f)
    requires ApplyAll(s, segments).Ok?
    ensures Decode(f, raw) == Some(Get(ApplyAll(s, segments).value, f))
    decreases |segments|
  {
    var prefix := segments[..|segments| - 1];
    var last := segments[|segments| - 1];
    assert ApplyAll(s, segments) == ApplySegment(ApplyAll(s, prefix).value, last);
    var t := ApplyAll(s, prefix).value;
    if j == |segments| - 1 {
      ApplyKnownSegment(t, f, raw);
    } else {
      LastWriteWins(s, prefix, j, f, raw);
      assert Get(ApplySegment(t, last).value, f) == Get(t, f);
    }
  }

  /** A segment `key:raw` with a known key assigns `raw` to that key's field. */
  lemma ApplyKnownSegment(s: Snapshot, f: Field, raw: string)
    ensures ApplySegment(s, Key(f) + ":" + raw) == Assign(s, f, raw)
  {
    KeyHasNoSeparator(f);
    SplitFirstOf(Key(f), ':', raw);
    FieldForKey(f);
  }

  /** No key holds the segment separator `;` or the key-value separator `:`. */
  lemma KeyHasNoSeparator(f: Field)
    ensures ';' !in Key(f) && ':' !in Key(f)
  {
    match f
    case Pitch =>
    case Roll =>
    case Yaw =>
    case VelX =>
    case VelY =>
    case VelZ =>
    case TempLow =>
    case TempHigh =>
    case Tof =>
    case Height =>
    case Battery =>
    case Baro =>
    case Time =>
    case AccelX =>
    case AccelY =>
    case AccelZ =>
  }

  /** The segment `key:value` that sets a field. */
  function Segment(f: Field, value: string): string
  {
    Key(f) + ":" + value
  }

  /** Text without `;` is a single segment. */
  lemma ParseSingleSegment(segment: string)
    requires ';' !in segment
    ensures Parse(segment) == ApplySegment(Defaults(), segment)
  {
    assert Split(segment, ';') == [segment] by {
      assert Join([segment], ';') == segment;
      SplitJoin([segment], ';');
    }
    ApplyAllStep(Defaults(), [segment], 0);
    assert [segment][..0 + 1] == [segment];
  }

  /** A printed `Int` contains neither separator. */
  lemma NoSeparatorsInNumber(n: int32)
    ensures ';' !in IntToString(n) && ':' !in IntToString(n)
  {
    IntToStringChars(n, ';');
    IntToStringChars(n, ':');
  }

  /**
   * Fields named in the text take the text's values and every other field keeps its default:
   * `"pitch:5;roll:-3;bat:77"` and every text of that shape.
   */
  lemma ParseExample(p: int32, r: int32, b: int8)
    ensures Parse(Segment(Pitch, IntToString(p)) + ";" + Segment(Roll, IntToString(r)) + ";"
                  + Segment(Battery, IntToString(b as int32)))
         == Ok(Defaults().(pitch := p, roll := r, bat := b))
  {
    var seg1, seg2, seg3 := Segment(Pitch, IntToString(p)), Segment(Roll, IntToString(r)),
                            Segment(Battery, IntToString(b as int32));
    NumberSegment(Pitch, p);
    NumberSegment(Roll, r);
    NumberSegment(Battery, b as int32);
    ExampleSegments(Defaults(), p, r, b);
    ParseThree(seg1, seg2, seg3, Defaults().(pitch := p), Defaults().(pitch := p, roll := r),
               Defaults().(pitch := p, roll := r).(bat := b));
  }

  lemma ExampleSegments(s: Snapshot, p: int32, r: int32, b: int8)
    ensures ApplySegment(s, Segment(Pitch, IntToString(p))) == Ok(s.(pitch := p))
    ensures ApplySegment(s.(pitch := p), Segment(Roll, IntToString(r))) == Ok(s.(pitch := p, roll := r))
    ensures ApplySegment(s.(pitch := p, roll := r), Segment(Battery, IntToString(b as int32)))
         == Ok(s.(pitch := p, roll := r).(bat := b))
  {
    ApplyIntSegment(s, Pitch, p);
    ApplyIntSegment(s.(pitch := p), Roll, r);
    ApplyBatterySegment(s.(pitch := p, roll := r), b);
  }

  lemma NumberSegment(f: Field, n: int32)
    ensures ';' !in Segment(f, IntToString(n))
  {
    NoSeparatorsInNumber(n);
    KeyHasNoSeparator(f);
  }

  /** A segment that sets an integer field to a printed `Int` stores that `Int`. */
  lemma ApplyIntSegment(s: Snapshot, f: Field, n: int32)
    requires !IsFloatField(f) && f != Battery
    ensures ApplySegment(s, Segment(f, IntToString(n))) == Ok(SetInt(s, f, n))
  {
    ApplyKnownSegment(s, f, IntToString(n));
    ParseIntToString(n);
  }

  /** A segment that sets the battery to a printed `Byte` stores that `Byte`. */
  lemma ApplyBatterySegment(s: Snapshot, b: int8)
    ensures ApplySegment(s, Segment(Battery, IntToString(b as int32))) == Ok(s.(bat := b))
  {
    ApplyKnownSegment(s, Battery, IntToString(b as int32));
    ParseIntToString(b as int32);
  }

  /** Three segments applied in order to the defaults. */
  lemma ParseThree(a: string, b: string, c: string, s1: Snapshot, s2: Snapshot, s3: Snapshot)
    requires ';' !in a && ';' !in b && ';' !in c
    requires ApplySegment(Defaults(), a) == Ok(s1)
    requires ApplySegment(s1, b) == Ok(s2)
    requires ApplySegment(s2, c) == Ok(s3)
    ensures Parse(a + ";" + b + ";" + c) == Ok(s3)
  {
    SplitThree(a, b, c);
    ApplyThree(Defaults(), a, b, c);
  }

  lemma SplitThree(a: string, b: string, c: string)
    requires ';' !in a && ';' !in b && ';' !in c
    ensures Split(a + ";" + b + ";" + c, ';') == [a, b, c]
  {
    var parts := [a, b, c];
    assert parts[1..] == [b, c] && parts[1..][1..] == [c];
    assert Join([b, c], ';') == b + ";" + c;
    assert Join(parts, ';') == a + ";" + (b + ";" + c);
    assert a + ";" + (b + ";" + c) == a + ";" + b + ";" + c;
    SplitJoin(parts, ';');
  }

  lemma ApplyThree(s: Snapshot, a: string, b: string, c: string)
    requires ApplySegment(s, a).Ok? && ApplySegment(ApplySegment(s, a).value, b).Ok?
    ensures ApplyAll(s, [a, b, c]) == ApplySegment(ApplySegment(ApplySegment(s, a).value, b).value, c)
  {
    var segments := [a, b, c];
    ApplyAllStep(s, segments, 0);
    ApplyAllStep(s, segments, 1);
    ApplyAllStep(s, segments, 2);
    assert segments[..0] == [] && segments[..3] == segments;
  }

  /** Text of one segment that sets field `f`: parsing it is assigning its value. */
  lemma ParseOneSegment(f: Field, value: string)
    requires ';' !in value
    ensures Parse(Segment(f, value)) == Assign(Defaults(), f, value)
  {
    KeyHasNoSeparator(f);
    assert ';' !in Segment(f, value);
    ParseSingleSegment(Segment(f, value));
    ApplyKnownSegment(Defaults(), f, value);
  }

  /** The value is everything after the first `:`: `"pitch:1:2"` tries to read `"1:2"` as a number. */
  lemma ParseValueAfterFirstColon(f: Field, a: string, b: string)
    requires ':' !in a && ';' !in a && ';' !in b
    ensures Parse(Key(f) + ":" + a + ":" + b)
         == if IsFloatField(f) then Ok(SetText(Defaults(), f, a + ":" + b)) else Err(BadNumber(Key(f), a + ":" + b))
  {
    var value := a + ":" + b;
    assert Key(f) + ":" + a + ":" + b == Segment(f, value);
    ParseOneSegment(f, value);
    NonDigitIsNoNumber(value, |a|);
  }

  /** A known key without `:` throws (`kv[1]` does not exist). */
  lemma ParseMissingValue(f: Field)
    ensures Parse(Key(f)) == Err(MissingValue(Key(f)))
  {
    KeyHasNoSeparator(f);
    ParseSingleSegment(Key(f));
    FieldForKey(f);
  }

  /** An integer field throws on a value beyond the `Int` range. */
  lemma ParseIntOutOfRange(f: Field, n: nat)
    requires !IsFloatField(f) && f != Battery && n > INT32_MAX
    ensures Parse(Key(f) + ":" + NatToDecimal(n)) == Err(BadNumber(Key(f), NatToDecimal(n)))
  {
    var t := NatToDecimal(n);
    assert ';' !in t by { assert forall i :: 0 <= i < |t| ==> IsDigit(t[i]); }
    ParseOneSegment(f, t);
    assert IsDigit(t[0]);
  }

  /** An integer field throws on a negative decimal value below `Int.MIN_VALUE`. */
  lemma ParseIntBelowRange(f: Field, n: nat)
    requires !IsFloatField(f) && f != Battery && n > -INT32_MIN
    ensures Parse(Key(f) + ":-" + NatToDecimal(n)) == Err(BadNumber(Key(f), "-" + NatToDecimal(n)))
  {
    var t := "-" + NatToDecimal(n);
    assert ';' !in t by { assert forall i :: 1 <= i < |t| ==> t[i] == t[1..][i - 1]; }
    assert Key(f) + ":-" + NatToDecimal(n) == Segment(f, t);
    ParseOneSegment(f, t);
    assert t[1..] == NatToDecimal(n);
  }

  /** The battery field throws on an `Int` outside the `Byte` range -128..127. */
  lemma ParseBatteryOutOfRange(n: int32)
    requires n < -0x80 || n >= 0x80
    ensures Parse("bat:" + IntToString(n)) == Err(BadNumber("bat", IntToString(n)))
  {
    var t := IntToString(n);
    NoSeparatorsInNumber(n);
    assert "bat:" + t == Segment(Battery, t);
    ParseOneSegment(Battery, t);
    ParseIntToString(n);
  }
}

/** The script's two clock-time conversions: `_ts_from_time`, which reads
    "H:MM:SS.fff" style text as seconds, and `_time2str`, which writes
    seconds as "HH:MM:SS.fff". Seconds are exact reals. */
module Timestamps {
  import opened Wrappers
  import opened Text

  /** The readings of the colon-separated pieces taken left to right, each
      step multiplying what was read so far by 60 and adding the next
      reading; `None` as soon as one reading is not a number. */
  function Base60(readings: seq<Option<real>>): Option<real> {
    if readings == [] then Some(0.0)
    else
      match Base60(readings[..|readings| - 1])
      case None => None
      case Some(r) =>
        match readings[|readings| - 1]
        case None => None
        case Some(v) => Some(r * 60.0 + v)
  }

  /** `read` applied to each piece. */
  function ReadEach(pieces: seq<string>, read: string -> Option<real>): (r: seq<Option<real>>)
    ensures |r| == |pieces|
  {
    seq(|pieces|, i requires 0 <= i < |pieces| => read(pieces[i]))
  }

  /** `float()` of each piece. */
  function Readings(pieces: seq<string>): (r: seq<Option<real>>)
    ensures |r| == |pieces|
  {
    ReadEach(pieces, ParseFloat)
  }

  /** What `_ts_from_time(s)` returns; `None` where it raises ValueError. */
  function ParseTime(s: string): Option<real> {
    Base60(Readings(Split(s, ':')))
  }

  /** One reading that is not a number makes the whole reading fail. */
  lemma {:induction false} Base60Fails(readings: seq<Option<real>>, i: nat)
    requires i < |readings| && readings[i] == None
    ensures Base60(readings) == None
  {
    if i < |readings| - 1 {
      var init := readings[..|readings| - 1];
      assert init[i] == readings[i];
      Base60Fails(init, i);
    }
  }

  /** Reading one more number multiplies by 60 and adds it. */
  lemma {:induction false} Base60Snoc(readings: seq<Option<real>>, r: real, v: real)
    requires Base60(readings) == Some(r)
    ensures Base60(readings + [Some(v)]) == Some(r * 60.0 + v)
  {
    var rs := readings + [Some(v)];
    assert rs[..|rs| - 1] == readings;
  }

  /** The same step, on a prefix of the readings. */
  lemma {:induction false} Base60Step(readings: seq<Option<real>>, i: nat, r: real)
    requires i < |readings| && readings[i].Some?
    requires Base60(readings[..i]) == Some(r)
    ensures Base60(readings[..i + 1]) == Some(r * 60.0 + readings[i].value)
  {
    Base60Snoc(readings[..i], r, readings[i].value);
    assert readings[..i] + [Some(readings[i].value)] == readings[..i + 1];
  }

  /** `_ts_from_time`: the loop over `s.split(':')` that keeps `ret`. */
  method TsFromTime(s: string) returns (r: Option<real>)
    ensures r == ParseTime(s)
  {
    r := ReadClock(Split(s, ':'), ParseFloat);
  }

  /** The loop of `_ts_from_time`, with `float` as `read`. */
  method ReadClock(pieces: seq<string>, read: string -> Option<real>) returns (r: Option<real>)
    ensures r == Base60(ReadEach(pieces, read))
  {
    ghost var readings := ReadEach(pieces, read);
    var ret := 0.0;
    var i := 0;
    while i < |pieces|
      invariant 0 <= i <= |pieces|
      invariant Base60(readings[..i]) == Some(ret)
    {
      var f := read(pieces[i]);
      assert f == readings[i];
      if f.None? {
        Base60Fails(readings, i);
        return None;
      }
      Base60Step(readings, i, ret);
      ret := ret * 60.0 + f.value;
      i := i + 1;
    }
    assert readings[..i] == readings;
    return Some(ret);
  }

  /** Three numbers read as x*3600 + y*60 + z. */
  lemma {:induction false} Base60Three(x: real, y: real, z: real, total: real)
    requires total == x * 3600.0 + y * 60.0 + z
    ensures Base60([Some(x), Some(y), Some(z)]) == Some(total)
  {
    var rs: seq<Option<real>> := [];
    assert Base60(rs) == Some(0.0);
    Base60Snoc(rs, 0.0, x);
    assert rs + [Some(x)] == [Some(x)];
    Base60Snoc([Some(x)], 0.0 * 60.0 + x, y);
    assert [Some(x)] + [Some(y)] == [Some(x), Some(y)];
    Base60Snoc([Some(x), Some(y)], (0.0 * 60.0 + x) * 60.0 + y, z);
    assert [Some(x), Some(y)] + [Some(z)] == [Some(x), Some(y), Some(z)];
    assert ((0.0 * 60.0 + x) * 60.0 + y) * 60.0 + z == total;
  }

  /** Splitting "a:b:c" at ':' gives back the three colon-free pieces. */
  lemma {:induction false} SplitThree(a: string, b: string, c: string)
    requires Free(a, ':') && Free(b, ':') && Free(c, ':')
    ensures Split(a + ":" + b + ":" + c, ':') == [a, b, c]
  {
    assert a + ":" + b + ":" + c == a + [':'] + (b + [':'] + c);
    SplitPiece(a, ':', b + [':'] + c);
    SplitPiece(b, ':', c);
    SplitFree(c, ':');
  }

  /** "a:b:c" with three numeric, colon-free pieces reads as a*3600 + b*60 + c. */
  lemma {:induction false} ThreeFields(a: string, b: string, c: string, x: real, y: real, z: real, total: real)
    requires Free(a, ':') && Free(b, ':') && Free(c, ':')
    requires ParseFloat(a) == Some(x) && ParseFloat(b) == Some(y) && ParseFloat(c) == Some(z)
    requires total == x * 3600.0 + y * 60.0 + z
    ensures ParseTime(a + ":" + b + ":" + c) == Some(total)
  {
    SplitThree(a, b, c);
    assert Readings([a, b, c]) == [Some(x), Some(y), Some(z)];
    Base60Three(x, y, z, total);
  }

  /** Seconds split into whole hours, minutes and the rest, as `divmod`
      does: `divmod(t, 60)` then `divmod(minutes, 60)`. */
  datatype Clock = Clock(hours: int, minutes: int, seconds: real)

  function ClockOf(t: real): Clock {
    var m := (t / 60.0).Floor;
    Clock(m / 60, m % 60, t - 60.0 * m as real)
  }

  /** The split puts minutes in 0..59 and seconds in [0, 60) and loses
      nothing: the fields add back up to t. */
  lemma {:induction false} ClockParts(t: real)
    ensures var c := ClockOf(t);
      && 0 <= c.minutes < 60
      && 0.0 <= c.seconds < 60.0
      && (c.hours * 3600 + c.minutes * 60) as real + c.seconds == t
  {
    var m := (t / 60.0).Floor;
    assert m as real <= t / 60.0 < m as real + 1.0;
    assert m == 60 * (m / 60) + m % 60;
  }

  /** The seconds field: `%02d` (truncating the float) when `precision` is
      not positive, else `%0{3+precision}.{precision}f`. */
  function SecondsText(sec: real, precision: int): string {
    if precision <= 0 then FormatInt(sec.Floor, 2)
    else FormatFixed(sec, precision, 3 + precision)
  }

  /** `_time2str(t, precision)`. The script's default precision is 3. */
  function Time2Str(t: real, precision: int): string {
    var c := ClockOf(t);
    FormatInt(c.hours, 2) + ":" + FormatInt(c.minutes, 2) + ":" + SecondsText(c.seconds, precision)
  }

  lemma {:induction false} FormatIntNoColon(n: int, w: nat)
    ensures Free(FormatInt(n, w), ':')
  {
    FormatIntShape(n, w);
  }

  lemma {:induction false} FormatFixedNoColon(x: real, p: nat, w: nat)
    ensures Free(FormatFixed(x, p, w), ':')
  {
    FormatFixedChars(x, p, w);
  }

  /** `_time2str` reads back as the time it wrote whenever its seconds
      field does: the hours and minutes fields always read back exactly. */
  lemma {:induction false} ClockRoundTrip(t: real, precision: int)
    requires var c := ClockOf(t);
      Free(SecondsText(c.seconds, precision), ':')
      && ParseFloat(SecondsText(c.seconds, precision)) == Some(c.seconds)
    ensures ParseTime(Time2Str(t, precision)) == Some(t)
  {
    var c := ClockOf(t);
    ClockParts(t);
    var a, b := FormatInt(c.hours, 2), FormatInt(c.minutes, 2);
    assert Free(a, ':') && Free(b, ':') by {
      FormatIntNoColon(c.hours, 2);
      FormatIntNoColon(c.minutes, 2);
    }
    assert ParseFloat(a) == Some(c.hours as real) && ParseFloat(b) == Some(c.minutes as real) by {
      FloatOfFormatInt(c.hours, 2);
      FloatOfFormatInt(c.minutes, 2);
    }
    assert Time2Str(t, precision) == a + ":" + b + ":" + SecondsText(c.seconds, precision);
    ThreeFields(a, b, SecondsText(c.seconds, precision), c.hours as real, c.minutes as real, c.seconds, t);
  }

  /** A whole number of seconds written with precision 0 reads back as the
      same number, negative ones included. */
  lemma {:induction false} WholeRoundTrip(t: int)
    ensures ParseTime(Time2Str(t as real, 0)) == Some(t as real)
  {
    var c := ClockOf(t as real);
    var s := c.seconds.Floor;
    assert s as real == c.seconds by {
      var m := (t as real / 60.0).Floor;
      assert c.seconds == (t - 60 * m) as real;
    }
    assert SecondsText(c.seconds, 0) == FormatInt(s, 2);
    assert Free(FormatInt(s, 2), ':') by {
      FormatIntNoColon(s, 2);
    }
    assert ParseFloat(FormatInt(s, 2)) == Some(s as real) by {
      FloatOfFormatInt(s, 2);
    }
    ClockRoundTrip(t as real, 0);
  }

  /** k thousandths as k / 1000. */
  lemma {:induction false} Thousandths(k: int)
    ensures Shifted(k, 3) == k as real / 1000.0
  {
    assert Shifted(k, 1) == k as real / 10.0;
    assert Shifted(k, 2) == k as real / 100.0;
  }

  /** A time of a whole number of milliseconds written with the default
      precision reads back as the same time. */
  lemma {:induction false} MilliRoundTrip(k: int)
    ensures ParseTime(Time2Str(Shifted(k, 3), 3)) == Some(Shifted(k, 3))
  {
    var t := Shifted(k, 3);
    var c := ClockOf(t);
    var rest := k - 60000 * (t / 60.0).Floor;
    assert c.seconds == Shifted(rest, 3) by {
      Thousandths(k);
      Thousandths(rest);
    }
    assert SecondsText(c.seconds, 3) == FormatFixed(c.seconds, 3, 6);
    assert Free(FormatFixed(c.seconds, 3, 6), ':') by {
      FormatFixedNoColon(c.seconds, 3, 6);
    }
    assert ParseFloat(FormatFixed(c.seconds, 3, 6)) == Some(c.seconds) by {
      FloatOfFormatFixed(rest, 3, 6);
    }
    ClockRoundTrip(t, 3);
  }

  /** 60000 thousandths are written "60.000". */
  lemma {:induction false} SixtySeconds()
    ensures FormatFixed(60.0, 3, 6) == "60.000"
    ensures FixedDigits(60000, 3) == "60.000"
  {
    assert Decimal(60000) == "60000" by {
      assert Decimal(6) == "6";
      assert Decimal(60) == "60";
      assert Decimal(600) == "600";
      assert Decimal(6000) == "6000";
    }
    assert Unshift(60.0, 3) == 60000.0;
    assert FixedUnits(60.0, 3) == 60000;
  }

  /** Seconds in [59.9995, 60) round to 60000 thousandths. */
  lemma {:induction false} RoundsToSixty(t: real)
    requires 59.9995 <= t < 60.0
    ensures FixedUnits(t, 3) == 60000
  {
    assert Unshift(t, 3) == 1000.0 * t by {
      assert Unshift(t, 1) == 10.0 * t;
      assert Unshift(t, 2) == 100.0 * t;
    }
  }

  /** `%06.3f` rounds after the minute has been split off, so seconds just
      short of a full minute come out as "60.000" and the minute is not
      carried. */
  lemma {:induction false} MinuteNotCarried(t: real)
    requires 59.9995 <= t < 60.0
    ensures Time2Str(t, 3) == "00:00:60.000"
  {
    var c := ClockOf(t);
    assert c == Clock(0, 0, t) by {
      UnderAMinute(t);
    }
    assert FormatInt(c.hours, 2) == "00" && FormatInt(c.minutes, 2) == "00" by {
      assert Decimal(0) == "0";
    }
    assert SecondsText(c.seconds, 3) == "60.000" by {
      SecondsNearSixty(t);
    }
    ClockFields(t, 3, "00", "00", "60.000");
  }

  /** Less than a minute is no hours, no minutes and all seconds. */
  lemma {:induction false} UnderAMinute(t: real)
    requires 0.0 <= t < 60.0
    ensures ClockOf(t) == Clock(0, 0, t)
  {
    assert 0.0 <= t / 60.0 < 1.0;
    assert (t / 60.0).Floor == 0;
  }

  /** `_time2str` joins its three fields with colons. */
  lemma {:induction false} ClockFields(t: real, precision: int, hh: string, mm: string, ss: string)
    requires FormatInt(ClockOf(t).hours, 2) == hh && FormatInt(ClockOf(t).minutes, 2) == mm
    requires SecondsText(ClockOf(t).seconds, precision) == ss
    ensures Time2Str(t, precision) == hh + ":" + mm + ":" + ss
  {
  }

  /** The seconds field of such a time. */
  lemma {:induction false} SecondsNearSixty(t: real)
    requires 59.9995 <= t < 60.0
    ensures SecondsText(t, 3) == "60.000"
  {
    RoundsToSixty(t);
    SixtySeconds();
  }
}

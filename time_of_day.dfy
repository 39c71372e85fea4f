/**
 * Times of day written as "HH:MM": how `datetime.strptime(s, "%H:%M")`
 * accepts them (`validar_horario`) and how `strftime("%H:%M")` writes the
 * clock reading the scheduler compares against (`agora_hhmm`).
 */
module TimeOfDay {
  import opened Wrappers

  /** A clock reading truncated to the minute. */
  datatype Time = Time(hour: nat, minute: nat) {
    predicate Valid() { hour < 24 && minute < 60 }
  }

  predicate IsDigit(c: char) { '0' <= c <= '9' }

  function DigitValue(c: char): nat
    requires IsDigit(c)
  {
    c as int - '0' as int
  }

  function DigitChar(d: nat): char
    requires d < 10
  {
    ('0' as int + d) as char
  }

  /** One or two decimal digits. */
  predicate Digits12(t: string) {
    || (|t| == 1 && IsDigit(t[0]))
    || (|t| == 2 && IsDigit(t[0]) && IsDigit(t[1]))
  }

  function FieldValue(t: string): nat
    requires Digits12(t)
  {
    if |t| == 1 then DigitValue(t[0]) else 10 * DigitValue(t[0]) + DigitValue(t[1])
  }

  /** The `%H` directive, the pattern `2[0-3]|[0-1]\d|\d`, matching all of `t`. */
  predicate HourField(t: string) {
    || (|t| == 2 && t[0] == '2' && '0' <= t[1] <= '3')
    || (|t| == 2 && '0' <= t[0] <= '1' && IsDigit(t[1]))
    || (|t| == 1 && IsDigit(t[0]))
  }

  /** The `%M` directive, the pattern `[0-5]\d|\d`, matching all of `t`. */
  predicate MinuteField(t: string) {
    || (|t| == 2 && '0' <= t[0] <= '5' && IsDigit(t[1]))
    || (|t| == 1 && IsDigit(t[0]))
  }

  /**
   * `strptime(s, "%H:%M")`: the hour field is one or two characters, so the
   * colon sits at index 1 or 2; the match must then reach the end of `s`
   * (otherwise "unconverted data remains").
   */
  function ParseTime(s: string): (r: Option<Time>)
    ensures r.Some? ==> r.value.Valid()
  {
    if |s| >= 2 && s[1] == ':' && HourField(s[..1]) && MinuteField(s[2..]) then
      Some(Time(FieldValue(s[..1]), FieldValue(s[2..])))
    else if |s| >= 3 && s[2] == ':' && HourField(s[..2]) && MinuteField(s[3..]) then
      Some(Time(FieldValue(s[..2]), FieldValue(s[3..])))
    else
      None
  }

  /**
   * `validar_horario`: the parse succeeds. A valid time is three to five
   * characters with a colon inside and digits at both ends.
   */
  predicate ValidTime(s: string)
    ensures ValidTime(s) ==> 3 <= |s| <= 5 && IsDigit(s[0]) && IsDigit(s[|s| - 1])
    ensures ValidTime(s) ==> s[1] == ':' || s[2] == ':'
  {
    ParseTime(s).Some?
  }

  /**
   * Reference reading of "%H:%M": one or two digits, a colon, one or two
   * digits, whose values are the hour and the minute of `t`.
   */
  predicate Reads(s: string, t: Time) {
    exists i | 1 <= i <= 2 && i < |s| ::
      && s[i] == ':'
      && Digits12(s[..i]) && Digits12(s[i + 1..])
      && FieldValue(s[..i]) == t.hour && FieldValue(s[i + 1..]) == t.minute
  }

  lemma HourFieldMeaning(t: string)
    ensures HourField(t) <==> Digits12(t) && FieldValue(t) < 24
  {
    if Digits12(t) && |t| == 2 {
      assert FieldValue(t) == 10 * DigitValue(t[0]) + DigitValue(t[1]);
    }
  }

  lemma MinuteFieldMeaning(t: string)
    ensures MinuteField(t) <==> Digits12(t) && FieldValue(t) < 60
  {
    if Digits12(t) && |t| == 2 {
      assert FieldValue(t) == 10 * DigitValue(t[0]) + DigitValue(t[1]);
    }
  }

  /** The parse yields `t` exactly when `s` reads as `t` and `t` is a time of day. */
  lemma ParseTimeMeaning(s: string, t: Time)
    ensures ParseTime(s) == Some(t) <==> t.Valid() && Reads(s, t)
  {
    if |s| >= 2 {
      HourFieldMeaning(s[..1]);
      MinuteFieldMeaning(s[2..]);
    }
    if |s| >= 3 {
      HourFieldMeaning(s[..2]);
      MinuteFieldMeaning(s[3..]);
    }
    if t.Valid() && Reads(s, t) {
      var i :| 1 <= i <= 2 && i < |s| && s[i] == ':'
        && Digits12(s[..i]) && Digits12(s[i + 1..])
        && FieldValue(s[..i]) == t.hour && FieldValue(s[i + 1..]) == t.minute;
      if i == 2 {
        assert s[1] != ':';
      }
    }
    if ParseTime(s) == Some(t) {
      if |s| >= 2 && s[1] == ':' && HourField(s[..1]) && MinuteField(s[2..]) {
        assert Reads(s, t) by {
          assert 1 < |s| && s[1] == ':';
        }
      } else {
        assert Reads(s, t) by {
          assert 2 < |s| && s[2] == ':';
        }
      }
    }
  }

  /** The pattern admits one- and two-digit fields and refuses out-of-range values. */
  lemma ValidTimeExamples()
    ensures ValidTime("9:05") && ValidTime("09:5") && ValidTime("23:59") && ValidTime("0:0")
    ensures !ValidTime("25:99") && !ValidTime("24:00") && !ValidTime("12:60")
    ensures !ValidTime("12:345") && !ValidTime("123:45") && !ValidTime(" 9:05") && !ValidTime("")
  {
  }

  function Pad2(n: nat): string
    requires n < 100
  {
    [DigitChar(n / 10), DigitChar(n % 10)]
  }

  /** `strftime("%H:%M")`: both fields zero-padded to two digits. */
  function FormatHHMM(t: Time): (r: string)
    requires t.Valid()
    ensures |r| == 5
  {
    Pad2(t.hour) + ":" + Pad2(t.minute)
  }

  /** Every clock reading parses back to itself. */
  lemma FormatThenParse(t: Time)
    requires t.Valid()
    ensures ParseTime(FormatHHMM(t)) == Some(t)
  {
    var s := FormatHHMM(t);
    assert s[..2] == Pad2(t.hour) && s[2] == ':' && s[3..] == Pad2(t.minute);
    assert Reads(s, t);
    ParseTimeMeaning(s, t);
  }

  /**
   * A valid time string is the clock's own rendering of the time it denotes
   * exactly when it is five characters long, i.e. zero-padded.
   */
  lemma ParseThenFormat(s: string)
    requires ValidTime(s)
    ensures FormatHHMM(ParseTime(s).value) == s <==> |s| == 5
  {
    var t := ParseTime(s).value;
    if |s| == 5 {
      ParseTimeMeaning(s, t);
      var i :| 1 <= i <= 2 && i < |s| && s[i] == ':'
        && Digits12(s[..i]) && Digits12(s[i + 1..])
        && FieldValue(s[..i]) == t.hour && FieldValue(s[i + 1..]) == t.minute;
      assert i == 2;
      var f := FormatHHMM(t);
      assert f[0] == s[0] && f[1] == s[1] && f[2] == s[2] && f[3] == s[3] && f[4] == s[4];
    }
  }
}

/** The elapsed-time stamp `[HH:MM:SS]` put in front of every log line:
    twoDigit and timeFmt. */
module Clock {
  import opened Decimal

  datatype Option<T> = None | Some(value: T)

  /** The hours, minutes and seconds fields a stamp is built from. */
  datatype Fields = Fields(hours: int, minutes: int, seconds: int)

  /** A leading '0' does not change the value of a digit string. */
  lemma LeadingZero(d: string)
    ensures Value("0" + d) == Value(d)
    decreases |d|
  {
    if d != [] {
      var z := "0" + d;
      assert z[..|z| - 1] == "0" + d[..|d| - 1];
      LeadingZero(d[..|d| - 1]);
    } else {
      assert "0" + d == [DigitChar(0)];
    }
  }

  /** twoDigit: a value of 0..99 as exactly two decimal digits, zero-padded
      below 10; wider values are written in full; a negative value gets a
      "0" in front of its minus sign. */
  function TwoDigit(x: int): (r: string)
    ensures 0 <= x <= 99 ==> |r| == 2 && AllDigits(r) && Value(r) == x
    ensures 0 <= x <= 99 ==> (r[0] == '0' <==> x <= 9)
    ensures x >= 100 ==> |r| >= 3 && AllDigits(r) && Value(r) == x && r[0] != '0'
    ensures x < 0 ==> |r| >= 3 && r[..2] == "0-" && AllDigits(r[2..]) && Value(r[2..]) == -x && r[2] != '0'
  {
    if x > 9 then Itoa(x)
    else
      var digits := Itoa(x);
      var r := "0" + digits;
      if x < 0 then
        assert r[..2] == "0-" && r[2..] == digits[1..];
        r
      else
        LeadingZero(digits);
        r
  }

  /** Floor division of a whole number of seconds by a positive divisor, which
      is what math.Floor(float64(s) / d) computes. Dafny's `/` with a
      positive divisor already rounds toward negative infinity. */
  lemma HourMinuteSplit(s: int)
    ensures s / 60 == 60 * (s / 3600) + (s % 3600) / 60
    ensures 0 <= s / 60 - 60 * (s / 3600) < 60
    ensures s % 60 == (s % 3600) % 60
    ensures s / 60 - 60 * (s / 3600) == (s / 60) % 60
  {
    var h, r := s / 3600, s % 3600;
    var q, t := r / 60, r % 60;
    assert s == 60 * (60 * h + q) + t;
    assert 0 <= t < 60;
    assert s / 60 == 60 * h + q;
    assert 0 <= q < 60;
  }

  /** The three fields as timeFmt computes them. The seconds field subtracts
      hours*60 where hours*3600 was meant, so it carries 3540 extra seconds
      for every whole hour. */
  function FieldsAsWritten(s: int): (f: Fields)
    ensures f.hours == s / 3600
    ensures 0 <= f.minutes < 60 && f.hours * 3600 + f.minutes * 60 + s % 60 == s
    ensures f.seconds == s % 60 + 3540 * f.hours
  {
    HourMinuteSplit(s);
    var hours := s / 3600;
    var minutes := s / 60 - hours * 60;
    Fields(hours, minutes, s - minutes * 60 - hours * 60)
  }

  /** The fields with the seconds computed as evidently intended:
      s - minutes*60 - hours*3600. */
  function FieldsCorrected(s: int): (f: Fields)
    ensures f.hours == s / 3600
    ensures 0 <= f.minutes < 60 && 0 <= f.seconds < 60
    ensures f.hours * 3600 + f.minutes * 60 + f.seconds == s
  {
    HourMinuteSplit(s);
    var hours := s / 3600;
    var minutes := s / 60 - hours * 60;
    Fields(hours, minutes, s - minutes * 60 - hours * 3600)
  }

  /** The stamp around three already formatted fields. */
  function Bracket(a: string, b: string, c: string): string {
    "[" + a + ":" + b + ":" + c + "]"
  }

  /** Reads a ten-character stamp `[HH:MM:SS]` back into seconds. */
  function ReadStamp(r: string): Option<int> {
    if |r| == 10 && r[0] == '[' && r[3] == ':' && r[6] == ':' && r[9] == ']'
       && AllDigits(r[1..3]) && AllDigits(r[4..6]) && AllDigits(r[7..9])
    then Some(Value(r[1..3]) * 3600 + Value(r[4..6]) * 60 + Value(r[7..9]))
    else None
  }

  /** Where the three fields of a stamp sit, whatever their widths. */
  lemma BracketLayout(a: string, b: string, c: string)
    ensures var r := Bracket(a, b, c);
      |r| == |a| + |b| + |c| + 4 && r[0] == '[' && r[|r| - 1] == ']'
      && r[1..1 + |a|] == a && r[1 + |a|] == ':'
      && r[2 + |a|..2 + |a| + |b|] == b && r[2 + |a| + |b|] == ':'
      && r[3 + |a| + |b|..|r| - 1] == c
      && r[..3 + |a| + |b|] == "[" + a + ":" + b + ":"
  {
  }

  /** A stamp of three two-digit fields reads back as their seconds. */
  lemma ReadBracket(a: string, b: string, c: string)
    requires |a| == 2 && |b| == 2 && |c| == 2 && AllDigits(a) && AllDigits(b) && AllDigits(c)
    ensures ReadStamp(Bracket(a, b, c)) == Some(Value(a) * 3600 + Value(b) * 60 + Value(c))
  {
    var r := Bracket(a, b, c);
    BracketLayout(a, b, c);
    assert |r| == 10 && r[1..3] == a && r[4..6] == b && r[7..9] == c;
    assert r[0] == '[' && r[3] == ':' && r[6] == ':' && r[9] == ']';
  }

  /** How wide twoDigit writes each field of timeFmt as written: the minutes
      always take two characters, and hours and seconds both do exactly for
      elapsed times under one hour. */
  lemma FieldWidths(s: int)
    ensures var f := FieldsAsWritten(s);
      |TwoDigit(f.minutes)| == 2 && |TwoDigit(f.hours)| >= 2 && |TwoDigit(f.seconds)| >= 2
      && (|TwoDigit(f.hours)| == 2 && |TwoDigit(f.seconds)| == 2 <==> 0 <= s < 3600)
  {
    var f := FieldsAsWritten(s);
    if 0 <= s < 3600 {
      assert f.hours == 0 && f.seconds == s % 60;
    } else if s < 0 {
      assert f.hours < 0;
    } else {
      assert f.hours >= 1 && f.seconds >= 3540;
    }
  }

  /** timeFmt as written. Every field is at least two characters wide, and
      the stamp has the ten-character `[HH:MM:SS]` width exactly for elapsed
      times under one hour: a negative time widens the hours, and from one
      hour on the seconds field is at least 3540. */
  function TimeFmt(s: int): (r: string)
    ensures |r| >= 10 && r[0] == '[' && r[|r| - 1] == ']'
    ensures |r| == 10 <==> 0 <= s < 3600
  {
    var f := FieldsAsWritten(s);
    var a, b, c := TwoDigit(f.hours), TwoDigit(f.minutes), TwoDigit(f.seconds);
    FieldWidths(s);
    BracketLayout(a, b, c);
    Bracket(a, b, c)
  }

  /** timeFmt with the seconds formula corrected. */
  function TimeFmtCorrected(s: int): string {
    var f := FieldsCorrected(s);
    Bracket(TwoDigit(f.hours), TwoDigit(f.minutes), TwoDigit(f.seconds))
  }

  /** Under an hour the stamp is `[00:MM:SS]` with the minutes and seconds of
      s, and it reads back as s. */
  lemma TimeFmtUnderOneHour(s: int)
    requires 0 <= s < 3600
    ensures var r := TimeFmt(s);
      ReadStamp(r) == Some(s)
      && Value(r[1..3]) == 0 && Value(r[4..6]) == s / 60 && Value(r[7..9]) == s % 60
  {
    var f := FieldsAsWritten(s);
    HourMinuteSplit(s);
    var a, b, c := TwoDigit(f.hours), TwoDigit(f.minutes), TwoDigit(f.seconds);
    BracketLayout(a, b, c);
    ReadBracket(a, b, c);
  }

  /** From one hour on (and below 100 hours) the seconds field is
      s % 60 + 3540 * hours: at least four digits wide, so the stamp is no
      longer of the form `[HH:MM:SS]`. */
  lemma TimeFmtFromOneHour(s: int)
    requires 3600 <= s < 360000
    ensures var r := TimeFmt(s);
      |r| >= 12 && ReadStamp(r) == None
      && r[..7] == "[" + TwoDigit(s / 3600) + ":" + TwoDigit((s / 60) % 60) + ":"
      && AllDigits(r[7..|r| - 1]) && Value(r[7..|r| - 1]) == s % 60 + 3540 * (s / 3600)
      && r[7] != '0'
  {
    var f := FieldsAsWritten(s);
    HourMinuteSplit(s);
    assert 1 <= f.hours <= 99 && f.minutes == (s / 60) % 60 && f.seconds >= 3540;
    var a, b, c := TwoDigit(f.hours), TwoDigit(f.minutes), TwoDigit(f.seconds);
    assert |a| == 2 && |b| == 2 && |c| >= 3;
    BracketLayout(a, b, c);
  }

  /** For every elapsed time below 100 hours the corrected stamp is
      `[HH:MM:SS]` with the hours, minutes and seconds of s, and reads back as s. */
  lemma TimeFmtCorrectedRoundTrip(s: int)
    requires 0 <= s < 360000
    ensures var r := TimeFmtCorrected(s);
      ReadStamp(r) == Some(s)
      && Value(r[1..3]) == s / 3600 && Value(r[4..6]) == (s / 60) % 60 && Value(r[7..9]) == s % 60
  {
    var f := FieldsCorrected(s);
    HourMinuteSplit(s);
    var a, b, c := TwoDigit(f.hours), TwoDigit(f.minutes), TwoDigit(f.seconds);
    BracketLayout(a, b, c);
    ReadBracket(a, b, c);
  }

  /** The two agree for every elapsed time under an hour. */
  lemma AgreeUnderOneHour(s: int)
    requires 0 <= s < 3600
    ensures TimeFmt(s) == TimeFmtCorrected(s)
  {
    assert FieldsAsWritten(s) == FieldsCorrected(s);
  }
}

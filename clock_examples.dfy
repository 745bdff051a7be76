/** Two stamps worked out in full: the start of the run, and the first
    elapsed time at which the seconds field of timeFmt goes wrong. Each step
    is a lemma of its own, so that no proof has to evaluate a whole stamp. */
module ClockExamples {
  import opened Decimal
  import opened Clock

  lemma TwoDigitZero()
    ensures TwoDigit(0) == "00"
  {
    assert Itoa(0) == "0";
  }

  lemma FieldsAtZero()
    ensures FieldsAsWritten(0) == Fields(0, 0, 0)
  {
  }

  lemma TimeFmtZeroFields()
    ensures TimeFmt(0) == Bracket(TwoDigit(0), TwoDigit(0), TwoDigit(0))
  {
    FieldsAtZero();
  }

  lemma BracketZeros()
    ensures Bracket("00", "00", "00") == "[00:00:00]"
  {
  }

  lemma TimeFmtZero()
    ensures TimeFmt(0) == "[00:00:00]"
  {
    TimeFmtZeroFields();
    TwoDigitZero();
    BracketZeros();
  }

  lemma TwoDigitOne()
    ensures TwoDigit(1) == "01"
  {
    assert Itoa(1) == "1";
  }

  lemma TwoDigit3541()
    ensures TwoDigit(3541) == "3541"
  {
    assert Digits(3) == "3";
    assert Digits(35) == Digits(3) + "5";
    assert Digits(354) == Digits(35) + "4";
    assert Digits(3541) == Digits(354) + "1";
  }

  lemma FieldsAt3661()
    ensures FieldsAsWritten(3661) == Fields(1, 1, 3541)
    ensures FieldsCorrected(3661) == Fields(1, 1, 1)
  {
  }

  lemma TimeFmt3661Fields()
    ensures TimeFmt(3661) == Bracket(TwoDigit(1), TwoDigit(1), TwoDigit(3541))
    ensures TimeFmtCorrected(3661) == Bracket(TwoDigit(1), TwoDigit(1), TwoDigit(1))
  {
    FieldsAt3661();
  }

  lemma Brackets3661()
    ensures Bracket("01", "01", "3541") == "[01:01:3541]"
    ensures Bracket("01", "01", "01") == "[01:01:01]"
  {
  }

  /** One hour, one minute and one second is written `[01:01:3541]`, where
      the corrected formula gives `[01:01:01]`. */
  lemma TimeFmtAt3661()
    ensures TimeFmt(3661) == "[01:01:3541]"
    ensures TimeFmtCorrected(3661) == "[01:01:01]"
  {
    TimeFmt3661Fields();
    TwoDigitOne();
    TwoDigit3541();
    Brackets3661();
  }
}

/** The names the tool gives automatic snapshots. */
module AutoName {
  import opened Numbers

  /** Broken-down local time, month and day counted from 1. */
  datatype Time = Time(year: nat, month: nat, day: nat, hour: nat, minute: nat, second: nat)

  predicate AllDigits(s: string) {
    forall i :: 0 <= i < |s| ==> IsDigit(s[i])
  }

  predicate IsAutoName(name: string) {
    && |name| == 19
    && AllDigits(name[0..4]) && name[4] == '-' && name[7] == '-' && name[10] == '_'
    && name[13] == '-' && name[16] == '-'
    && AllDigits(name[5..7]) && AllDigits(name[8..10]) && AllDigits(name[11..13])
    && AllDigits(name[14..16]) && AllDigits(name[17..19])
  }

  /** Zero padding to a minimum width. */
  function Pad(s: string, width: nat): (r: string)
    requires AllDigits(s)
    ensures AllDigits(r) && |r| == if |s| >= width then |s| else width
    decreases width - |s|
  {
    if |s| >= width then s else Pad("0" + s, width)
  }

  function Date(t: Time): string {
    Pad(ToDec(t.year), 4) + "-" + Pad(ToDec(t.month), 2) + "-" + Pad(ToDec(t.day), 2)
  }

  function Clock(t: Time): string {
    Pad(ToDec(t.hour), 2) + "-" + Pad(ToDec(t.minute), 2) + "-" + Pad(ToDec(t.second), 2)
  }

  function GenerateAutoName(t: Time): string {
    Date(t) + "_" + Clock(t)
  }

  lemma Digits(n: nat)
    ensures |ToDec(n)| <= 2 <==> n < 100
    ensures |ToDec(n)| <= 4 <==> n < 10000
  {
    assert n >= 10 ==> |ToDec(n)| == |ToDec(n / 10)| + 1;
    assert n >= 100 ==> |ToDec(n / 10)| == |ToDec(n / 10 / 10)| + 1;
    assert n >= 1000 ==> |ToDec(n / 100)| == |ToDec(n / 100 / 10)| + 1;
    assert n >= 10000 ==> |ToDec(n / 1000)| == |ToDec(n / 1000 / 10)| + 1;
  }

  lemma DatePart(t: Time)
    ensures |Date(t)| >= 10
    ensures |Date(t)| == 10 <==> t.year < 10000 && t.month < 100 && t.day < 100
    ensures |Date(t)| == 10 ==>
      && AllDigits(Date(t)[0..4]) && Date(t)[4] == '-' && AllDigits(Date(t)[5..7])
      && Date(t)[7] == '-' && AllDigits(Date(t)[8..10])
  {
    Digits(t.year);
    Digits(t.month);
    Digits(t.day);
  }

  lemma ClockPart(t: Time)
    ensures |Clock(t)| >= 8
    ensures |Clock(t)| == 8 <==> t.hour < 100 && t.minute < 100 && t.second < 100
    ensures |Clock(t)| == 8 ==>
      && AllDigits(Clock(t)[0..2]) && Clock(t)[2] == '-' && AllDigits(Clock(t)[3..5])
      && Clock(t)[5] == '-' && AllDigits(Clock(t)[6..8])
  {
    Digits(t.hour);
    Digits(t.minute);
    Digits(t.second);
  }

  /** A generated name is recognised as automatic exactly up to the year 9999. */
  lemma GeneratedIsAuto(t: Time)
    requires t.month <= 12 && t.day <= 31 && t.hour <= 23 && t.minute <= 59 && t.second <= 60
    ensures IsAutoName(GenerateAutoName(t)) <==> t.year < 10000
  {
    DatePart(t);
    ClockPart(t);
    var name := GenerateAutoName(t);
    if t.year < 10000 {
      assert name[0..4] == Date(t)[0..4] && name[5..7] == Date(t)[5..7] && name[8..10] == Date(t)[8..10];
      assert name[11..13] == Clock(t)[0..2] && name[14..16] == Clock(t)[3..5] && name[17..19] == Clock(t)[6..8];
    }
  }
}

/**
 * `set_time_str`: the interval of a learning level as the text shown next
 * to it, such as `1M 12D` or `4h`: the largest unit that is not zero and,
 * when it is not zero, the next smaller one.  A month counts 30 days and a
 * year 365.
 */
module TimeText {

  /** The units of `set_time_str` in seconds: an hour is 60 minutes, a day 24 hours, a month 30 days and a year 365. */
  const SecondsMinute: int := 60
  const SecondsHour: int := 3600
  const SecondsDay: int := 86400
  const SecondsMonth: int := 2592000
  const SecondsYear: int := 31536000

  /** The units from the largest down, with their letters. */
  const UnitSeconds: seq<int> := [SecondsYear, SecondsMonth, SecondsDay, SecondsHour, SecondsMinute, 1]
  const UnitLetters: seq<char> := ['Y', 'M', 'D', 'h', 'm', 's']

  /** C's `/` on integers, which truncates toward zero. */
  function Quot(a: int, b: int): (q: int)
    requires b > 0
    ensures a >= 0 ==> 0 <= a - b * q < b
  {
    if a >= 0 then a / b else -((-a) / b)
  }

  /** The counts of years, months, days, hours, minutes and seconds, each taken from what the larger units leave. */
  function Split(t: int): (c: seq<int>)
    ensures |c| == 6
  {
    var years := Quot(t, SecondsYear);
    var t1 := t - SecondsYear * years;
    var months := Quot(t1, SecondsMonth);
    var t2 := t1 - SecondsMonth * months;
    var days := Quot(t2, SecondsDay);
    var t3 := t2 - SecondsDay * days;
    var hours := Quot(t3, SecondsHour);
    var t4 := t3 - SecondsHour * hours;
    var minutes := Quot(t4, SecondsMinute);
    [years, months, days, hours, minutes, t4 - SecondsMinute * minutes]
  }

  /** The seconds the counts from unit k on stand for. */
  function Weighted(c: seq<int>, k: nat): int
    requires |c| == 6 && k <= 6
    decreases 6 - k
  {
    if k == 6 then 0 else c[k] * UnitSeconds[k] + Weighted(c, k + 1)
  }

  /** The counts add up to the interval. */
  lemma SplitSum(t: int)
    ensures Weighted(Split(t), 0) == t
  {
    var c := Split(t);
    SplitRests(t);
    assert Weighted(c, 1) == t - SecondsYear * c[0];
  }

  /** What the units from k on hold is what the larger units leave of the interval. */
  lemma SplitRests(t: int)
    ensures var c := Split(t);
      var t1 := t - SecondsYear * c[0];
      var t2 := t1 - SecondsMonth * c[1];
      var t3 := t2 - SecondsDay * c[2];
      var t4 := t3 - SecondsHour * c[3];
      && c[1] == Quot(t1, SecondsMonth) && c[2] == Quot(t2, SecondsDay)
      && c[3] == Quot(t3, SecondsHour) && c[4] == Quot(t4, SecondsMinute)
      && Weighted(c, 1) == t1 && Weighted(c, 2) == t2 && Weighted(c, 3) == t3
      && Weighted(c, 4) == t4 && Weighted(c, 5) == c[5] && Weighted(c, 6) == 0
  {
    var c := Split(t);
    var t1 := t - SecondsYear * c[0];
    var t2 := t1 - SecondsMonth * c[1];
    var t3 := t2 - SecondsDay * c[2];
    var t4 := t3 - SecondsHour * c[3];
    assert c[5] == t4 - SecondsMinute * c[4];
    assert Weighted(c, 6) == 0;
    assert Weighted(c, 5) == c[5];
    assert Weighted(c, 4) == t4;
    assert Weighted(c, 3) == t3;
    assert Weighted(c, 2) == t2;
  }

  /** The bound of the split for one unit k. */
  lemma SplitBound(t: int, k: nat)
    requires t >= 0 && k < 6
    ensures 0 <= Split(t)[k] && 0 <= Weighted(Split(t), k + 1) < UnitSeconds[k]
  {
    SplitRests(t);
  }

  /** `sprintf("%d", n)`: an optional minus sign and the decimal digits. */
  function Decimal(n: int): (r: seq<char>)
    ensures |r| >= 1
    decreases if n < 0 then 1 - n else n
  {
    if n < 0 then ['-'] + Decimal(-n)
    else if n < 10 then [('0' as int + n) as char]
    else Decimal(n / 10) + [('0' as int + n % 10) as char]
  }

  /** The number a text of decimal digits stands for, last digit least significant. */
  function DigitsValue(s: seq<char>): int
  {
    if s == [] then 0 else 10 * DigitsValue(s[..|s| - 1]) + (s[|s| - 1] as int - '0' as int)
  }

  /** Reading the digits back gives the number. */
  lemma {:induction false} DecimalValue(n: nat)
    ensures DigitsValue(Decimal(n)) == n
    ensures forall k :: 0 <= k < |Decimal(n)| ==> '0' <= Decimal(n)[k] <= '9'
  {
    if n >= 10 {
      DecimalValue(n / 10);
      var d := Decimal(n);
      assert d[..|d| - 1] == Decimal(n / 10);
    }
  }

  function Space(yes: bool): seq<char>
  {
    if yes then " " else ""
  }

  /**
   * `valid_c` of `set_time_str`: 48, 24, 12, 6, 3 or 1 after the first
   * count from years down that is not zero (1 for seconds), so it holds
   * the bits of two neighbouring units, years being bit 5.
   */
  function ValidBits(c: seq<int>): (v: bv8)
    requires |c| == 6
    ensures forall k :: 0 <= k < 6 ==> (v & UnitBit(k) != 0 <==> k == Lead(c) || k == Lead(c) + 1)
  {
    if c[0] != 0 then 48
    else if c[1] != 0 then 24
    else if c[2] != 0 then 12
    else if c[3] != 0 then 6
    else if c[4] != 0 then 3
    else 1
  }

  /** The bit of `valid_c` that puts unit k (years 0 … seconds 5) in view. */
  function UnitBit(k: nat): bv8
    requires k < 6
  {
    (1 as bv8) << (5 - k)
  }

  /**
   * The `sprintf` calls of `set_time_str`: a unit is printed when its bit
   * is set and, below the first, when its count is not zero, behind a
   * space when the bit of the unit above is set; seconds are printed when
   * minutes are not in view even when zero.
   */
  function Printed(c: seq<int>, v: bv8): (s: seq<char>)
    requires |c| == 6
    ensures v & 63 == 0 ==> s == []
    ensures v & 1 != 0 && v & 2 == 0 ==> |s| > 0 && s[|s| - 1] == 's'
  {
    (if v & 32 != 0 then Decimal(c[0]) + "Y" else "")
    + (if v & 16 != 0 && c[1] != 0 then Space(v & 32 != 0) + Decimal(c[1]) + "M" else "")
    + (if v & 8 != 0 && c[2] != 0 then Space(v & 16 != 0) + Decimal(c[2]) + "D" else "")
    + (if v & 4 != 0 && c[3] != 0 then Space(v & 8 != 0) + Decimal(c[3]) + "h" else "")
    + (if v & 2 != 0 && c[4] != 0 then Space(v & 4 != 0) + Decimal(c[4]) + "m" else "")
    + (if v & 1 != 0 && (c[5] != 0 || v & 2 == 0) then Space(v & 2 != 0) + Decimal(c[5]) + "s" else "")
  }

  /** `set_time_str(time_str, time_set)`: the text it writes for an interval. */
  function TimeStr(t: int): (s: seq<char>)
    ensures |s| > 0 && s[|s| - 1] in UnitLetters
  {
    PrintedShown(Split(t));
    Printed(Split(t), ValidBits(Split(t)))
  }

  /** The first unit from years down whose count is not zero; seconds when none of the others is. */
  function Lead(c: seq<int>): (k: nat)
    requires |c| == 6
    ensures k <= 5 && (k < 5 ==> c[k] != 0) && forall j :: 0 <= j < k ==> c[j] == 0
  {
    if c[0] != 0 then 0
    else if c[1] != 0 then 1
    else if c[2] != 0 then 2
    else if c[3] != 0 then 3
    else if c[4] != 0 then 4
    else 5
  }

  datatype Piece = Piece(count: int, unit: nat)

  /** The units shown for counts c: the leading one, then the next smaller one when its count is not zero. */
  function ShownOf(c: seq<int>): (ps: seq<Piece>)
    requires |c| == 6
    ensures 1 <= |ps| <= 2 && forall i :: 0 <= i < |ps| ==> ps[i].unit < 6
  {
    var k := Lead(c);
    [Piece(c[k], k)] + (if k < 5 && c[k + 1] != 0 then [Piece(c[k + 1], k + 1)] else [])
  }

  /** The units shown for an interval. */
  function Shown(t: int): (ps: seq<Piece>)
    ensures 1 <= |ps| <= 2 && forall i :: 0 <= i < |ps| ==> ps[i].unit < 6
  {
    ShownOf(Split(t))
  }

  function PieceText(p: Piece): seq<char>
    requires p.unit < 6
  {
    Decimal(p.count) + [UnitLetters[p.unit]]
  }

  /** The shown units written one after the other, a space between two. */
  function Render(ps: seq<Piece>): seq<char>
    requires 1 <= |ps| <= 2 && forall i :: 0 <= i < |ps| ==> ps[i].unit < 6
  {
    PieceText(ps[0]) + (if |ps| == 2 then " " + PieceText(ps[1]) else "")
  }

  /** The seconds the shown units stand for. */
  function Value(ps: seq<Piece>): int
    requires forall i :: 0 <= i < |ps| ==> ps[i].unit < 6
  {
    if ps == [] then 0 else ps[0].count * UnitSeconds[ps[0].unit] + Value(ps[1..])
  }

  /** For counts c, the bit tests print exactly the shown units. */
  lemma PrintedShown(c: seq<int>)
    requires |c| == 6
    ensures Printed(c, ValidBits(c)) == Render(ShownOf(c))
  {
    var k := Lead(c);
    if k == 0 {
      PrintedLeadYears(c);
    } else if k == 1 {
      PrintedLeadMonths(c);
    } else if k == 2 {
      PrintedLeadDays(c);
    } else if k == 3 {
      PrintedLeadHours(c);
    } else if k == 4 {
      PrintedLeadMinutes(c);
    } else {
      PrintedLeadSeconds(c);
    }
  }

  lemma PrintedLeadYears(c: seq<int>)
    requires |c| == 6 && Lead(c) == 0
    ensures Printed(c, ValidBits(c)) == Render(ShownOf(c))
  {
    var e := Decimal(c[0]) + "Y" + (if c[1] != 0 then " " + Decimal(c[1]) + "M" else "");
    assert ValidBits(c) == 48 && Printed(c, 48) == e;
    assert PieceText(Piece(c[0], 0)) == Decimal(c[0]) + "Y";
    if c[1] != 0 {
      assert ShownOf(c) == [Piece(c[0], 0), Piece(c[1], 1)];
      assert PieceText(Piece(c[1], 1)) == Decimal(c[1]) + "M";
    } else {
      assert ShownOf(c) == [Piece(c[0], 0)];
    }
  }

  lemma PrintedLeadMonths(c: seq<int>)
    requires |c| == 6 && Lead(c) == 1
    ensures Printed(c, ValidBits(c)) == Render(ShownOf(c))
  {
    var e := Decimal(c[1]) + "M" + (if c[2] != 0 then " " + Decimal(c[2]) + "D" else "");
    assert ValidBits(c) == 24 && Printed(c, 24) == e;
    assert PieceText(Piece(c[1], 1)) == Decimal(c[1]) + "M";
    if c[2] != 0 {
      assert ShownOf(c) == [Piece(c[1], 1), Piece(c[2], 2)];
      assert PieceText(Piece(c[2], 2)) == Decimal(c[2]) + "D";
    } else {
      assert ShownOf(c) == [Piece(c[1], 1)];
    }
  }

  lemma PrintedLeadDays(c: seq<int>)
    requires |c| == 6 && Lead(c) == 2
    ensures Printed(c, ValidBits(c)) == Render(ShownOf(c))
  {
    var e := Decimal(c[2]) + "D" + (if c[3] != 0 then " " + Decimal(c[3]) + "h" else "");
    assert ValidBits(c) == 12 && Printed(c, 12) == e;
    assert PieceText(Piece(c[2], 2)) == Decimal(c[2]) + "D";
    if c[3] != 0 {
      assert ShownOf(c) == [Piece(c[2], 2), Piece(c[3], 3)];
      assert PieceText(Piece(c[3], 3)) == Decimal(c[3]) + "h";
    } else {
      assert ShownOf(c) == [Piece(c[2], 2)];
    }
  }

  lemma PrintedLeadHours(c: seq<int>)
    requires |c| == 6 && Lead(c) == 3
    ensures Printed(c, ValidBits(c)) == Render(ShownOf(c))
  {
    var e := Decimal(c[3]) + "h" + (if c[4] != 0 then " " + Decimal(c[4]) + "m" else "");
    assert ValidBits(c) == 6 && Printed(c, 6) == e;
    assert PieceText(Piece(c[3], 3)) == Decimal(c[3]) + "h";
    if c[4] != 0 {
      assert ShownOf(c) == [Piece(c[3], 3), Piece(c[4], 4)];
      assert PieceText(Piece(c[4], 4)) == Decimal(c[4]) + "m";
    } else {
      assert ShownOf(c) == [Piece(c[3], 3)];
    }
  }

  lemma PrintedLeadMinutes(c: seq<int>)
    requires |c| == 6 && Lead(c) == 4
    ensures Printed(c, ValidBits(c)) == Render(ShownOf(c))
  {
    var e := Decimal(c[4]) + "m" + (if c[5] != 0 then " " + Decimal(c[5]) + "s" else "");
    assert ValidBits(c) == 3 && Printed(c, 3) == e;
    assert PieceText(Piece(c[4], 4)) == Decimal(c[4]) + "m";
    if c[5] != 0 {
      assert ShownOf(c) == [Piece(c[4], 4), Piece(c[5], 5)];
      assert PieceText(Piece(c[5], 5)) == Decimal(c[5]) + "s";
    } else {
      assert ShownOf(c) == [Piece(c[4], 4)];
    }
  }

  lemma PrintedLeadSeconds(c: seq<int>)
    requires |c| == 6 && Lead(c) == 5
    ensures Printed(c, ValidBits(c)) == Render(ShownOf(c))
  {
    var e := Decimal(c[5]) + "s";
    assert ValidBits(c) == 1 && Printed(c, 1) == e;
    assert PieceText(Piece(c[5], 5)) == Decimal(c[5]) + "s";
    assert ShownOf(c) == [Piece(c[5], 5)];
  }

  /** The bit tests of `set_time_str` print exactly the shown units. */
  lemma TimeStrShown(t: int)
    ensures TimeStr(t) == Render(Shown(t))
  {
    PrintedShown(Split(t));
  }

  /**
   * The text never shows more than the interval, and what it leaves out
   * is less than one of its smaller unit (nothing when it shows seconds).
   */
  lemma ShownValue(t: int)
    requires t >= 0
    ensures var k := Lead(Split(t));
      0 <= t - Value(Shown(t)) < (if k < 5 then UnitSeconds[k + 1] else 1)
  {
    var c := Split(t);
    var k := Lead(c);
    SplitSum(t);
    var ps := Shown(t);
    LeadingZeros(c, k);
    if k < 5 {
      SplitBound(t, k + 1);
    }
    if k < 5 {
      assert Weighted(c, k) == c[k] * UnitSeconds[k] + c[k + 1] * UnitSeconds[k + 1] + Weighted(c, k + 2);
      if c[k + 1] != 0 {
        assert ps == [Piece(c[k], k), Piece(c[k + 1], k + 1)];
        assert ps[1..] == [Piece(c[k + 1], k + 1)] && ps[1..][1..] == [];
        assert Value(ps[1..]) == c[k + 1] * UnitSeconds[k + 1] + Value([]);
        assert Value(ps) == c[k] * UnitSeconds[k] + c[k + 1] * UnitSeconds[k + 1];
      } else {
        assert ps == [Piece(c[k], k)];
      }
    } else {
      assert ps == [Piece(c[5], 5)];
    }
  }

  /** Counts that are zero above unit k add nothing. */
  lemma {:induction false} LeadingZeros(c: seq<int>, k: nat)
    requires |c| == 6 && k <= 6 && forall j :: 0 <= j < k ==> c[j] == 0
    ensures Weighted(c, 0) == Weighted(c, k)
  {
    if k > 0 {
      LeadingZeros(c, k - 1);
    }
  }
}

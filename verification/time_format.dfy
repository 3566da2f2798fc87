/** The time display of the player: splitting a number of seconds into
    hours, minutes and seconds, rendering them as `MM:SS` or `H:MM:SS`, and the
    guard that shows `00:00` for a value that is not a finite number. */
module TimeFormat {
  import opened Wrappers
  import opened Decimal

  /** A clock reading. It is valid when minutes and seconds are below 60;
      hours are unbounded. */
  datatype Clock = Clock(hours: nat, minutes: nat, seconds: nat)

  predicate ValidClock(c: Clock) {
    c.minutes < 60 && c.seconds < 60
  }

  /** The number of whole seconds a clock reading stands for. */
  function TotalSeconds(c: Clock): nat {
    c.hours * 3600 + c.minutes * 60 + c.seconds
  }

  /** Quotient and remainder are unique, for the two divisors the display
      uses. */
  lemma DivisionUnique(t: int, d: int, q: int, r: int)
    requires d == 60 || d == 3600
    requires 0 <= r < d && t == q * d + r
    ensures t / d == q && t % d == r
  {
    if d == 60 {
      assert t == q * 60 + r;
    } else {
      assert t == q * 3600 + r;
    }
  }

  /** The split `formatDuration` performs on a whole number of seconds:
      hours `t / 3600`, minutes `(t / 60) mod 60`, seconds `t mod 60`. */
  function Decompose(t: nat): Clock {
    Clock(t / 3600, (t / 60) % 60, t % 60)
  }

  /** The split yields a valid reading that stands for exactly the seconds
      it was made from. */
  lemma DecomposeSound(t: nat)
    ensures ValidClock(Decompose(t))
    ensures TotalSeconds(Decompose(t)) == t
  {
    var q := t / 60;
    DivisionUnique(t, 3600, q / 60, (q % 60) * 60 + t % 60);
  }

  /** `Decompose` inverts `TotalSeconds` on valid readings: the split is the
      only valid reading of a given number of seconds. */
  lemma DecomposeTotal(c: Clock)
    requires ValidClock(c)
    ensures Decompose(TotalSeconds(c)) == c
  {
    var t := TotalSeconds(c);
    DivisionUnique(t, 60, c.hours * 60 + c.minutes, c.seconds);
    DivisionUnique(t / 60, 60, c.hours, c.minutes);
    DivisionUnique(t, 3600, c.hours, c.minutes * 60 + c.seconds);
  }

  /** JavaScript's `%` on numbers: the remainder of truncating division, so it
      takes the sign of the dividend. */
  function Trunc(q: real): int {
    if q >= 0.0 then q.Floor else -((-q).Floor)
  }

  function JsRemainder(x: real, y: real): real
    requires y != 0.0
  {
    x - y * (Trunc(x / y) as real)
  }

  /** The three fields exactly as the source computes them from a number of
      seconds that may carry a fraction: `Math.floor(d % 60)`,
      `Math.floor(d / 60) % 60` and `Math.floor(d / 3600)`. */
  function SourceFields(d: real): (int, int, int) {
    var seconds := JsRemainder(d, 60.0).Floor;
    var m := (d / 60.0).Floor;
    var minutes := m - 60 * Trunc((m as real) / 60.0);
    var hours := (d / 3600.0).Floor;
    (hours, minutes, seconds)
  }

  lemma FloorBetween(x: real, k: int)
    requires k as real <= x < k as real + 1.0
    ensures x.Floor == k
  {
  }

  lemma FloorShift(x: real, k: int)
    ensures (x - k as real).Floor == x.Floor - k
  {
    FloorBetween(x - k as real, x.Floor - k);
  }

  /** Dividing by a whole number commutes with taking the floor, for
      non-negative values. */
  lemma FloorDiv(d: real, k: int)
    requires d >= 0.0 && (k == 60 || k == 3600)
    ensures (d / k as real).Floor == d.Floor / k
  {
    var n := d.Floor;
    var q := n / k;
    if k == 60 {
      assert q * 60 <= n < q * 60 + 60;
      FloorBetween(d / 60.0, q);
    } else {
      assert q * 3600 <= n < q * 3600 + 3600;
      FloorBetween(d / 3600.0, q);
    }
  }

  /** `Math.floor(d % 60)` is the floor of `d`, modulo 60. */
  lemma SecondsFieldOfFloor(d: real)
    requires d >= 0.0
    ensures JsRemainder(d, 60.0).Floor == d.Floor % 60
  {
    var n := d.Floor;
    FloorDiv(d, 60);
    var m := (d / 60.0).Floor;
    assert Trunc(d / 60.0) == m;
    assert JsRemainder(d, 60.0) == d - (60 * m) as real;
    FloorShift(d, 60 * m);
  }

  /** `Math.floor(d / 60) % 60` is the floor of `d`, divided by 60, modulo 60. */
  lemma MinutesFieldOfFloor(d: real)
    requires d >= 0.0
    ensures var m := (d / 60.0).Floor;
            m - 60 * Trunc((m as real) / 60.0) == (d.Floor / 60) % 60
  {
    FloorDiv(d, 60);
    var m := (d / 60.0).Floor;
    FloorDiv(m as real, 60);
    assert Trunc((m as real) / 60.0) == m / 60;
  }

  /** For non-negative input the source's fields are those of the floor of
      the input: the split loses nothing but the fractional part. */
  lemma {:induction false} SourceFieldsOfFloor(d: real)
    requires d >= 0.0
    ensures var c := Decompose(d.Floor);
            SourceFields(d) == (c.hours, c.minutes, c.seconds)
  {
    SecondsFieldOfFloor(d);
    MinutesFieldOfFloor(d);
    FloorDiv(d, 3600);
  }

  /** Two zero-padded digits whose value is `v`. */
  predicate PaddedField(s: string, v: nat) {
    |s| == 2 && AllDigits(s) && ValueOf(s) == v
  }

  /** `MM:SS`: exactly five characters. */
  predicate ShortForm(r: string, minutes: nat, seconds: nat) {
    |r| == 5 && r[2] == ':' && PaddedField(r[..2], minutes) && PaddedField(r[3..], seconds)
  }

  /** `H:MM:SS`: hours unpadded in front of `:MM:SS`. */
  predicate LongForm(r: string, hours: nat, minutes: nat, seconds: nat) {
    |r| >= 7 &&
    var k := |r| - 6;
    Canonical(r[..k]) && ValueOf(r[..k]) == hours &&
    r[k] == ':' && PaddedField(r[k + 1..k + 3], minutes) &&
    r[k + 3] == ':' && PaddedField(r[k + 4..], seconds)
  }

  lemma ShortFormOfParts(mm: string, ss: string, m: nat, s: nat)
    requires PaddedField(mm, m) && PaddedField(ss, s)
    ensures ShortForm(mm + ":" + ss, m, s)
  {
    var r := mm + ":" + ss;
    assert r[..2] == mm;
    assert r[3..] == ss;
  }

  lemma LongFormOfParts(hs: string, mm: string, ss: string, h: nat, m: nat, s: nat)
    requires Canonical(hs) && ValueOf(hs) == h
    requires PaddedField(mm, m) && PaddedField(ss, s)
    ensures LongForm(hs + ":" + mm + ":" + ss, h, m, s)
  {
    var r := hs + ":" + mm + ":" + ss;
    var k := |hs|;
    assert |r| - 6 == k;
    assert r[..k] == hs;
    assert r[k + 1..k + 3] == mm;
    assert r[k + 4..] == ss;
  }

  /** `formatDuration` on a whole number of seconds. */
  function FormatDuration(t: nat): (r: string)
    ensures var c := Decompose(t);
            if c.hours == 0 then ShortForm(r, c.minutes, c.seconds)
            else LongForm(r, c.hours, c.minutes, c.seconds)
    ensures |r| == 5 <==> t < 3600
  {
    var c := Decompose(t);
    var mm, ss := PadTwo(c.minutes), PadTwo(c.seconds);
    if c.hours == 0 then
      ShortFormOfParts(mm, ss, c.minutes, c.seconds);
      mm + ":" + ss
    else
      ValueOfShow(c.hours);
      LongFormOfParts(Show(c.hours), mm, ss, c.hours, c.minutes, c.seconds);
      Show(c.hours) + ":" + mm + ":" + ss
  }

  /** Reads a clock display back into whole seconds; the independent
      reference the rendering is checked against. */
  function ParseClock(r: string): Option<nat> {
    if |r| == 5 && r[2] == ':' && AllDigits(r[..2]) && AllDigits(r[3..]) then
      Some(ValueOf(r[..2]) * 60 + ValueOf(r[3..]))
    else if |r| >= 7 && r[|r| - 6] == ':' && r[|r| - 3] == ':' &&
            AllDigits(r[..|r| - 6]) && AllDigits(r[|r| - 5..|r| - 3]) && AllDigits(r[|r| - 2..]) then
      Some(ValueOf(r[..|r| - 6]) * 3600 + ValueOf(r[|r| - 5..|r| - 3]) * 60 + ValueOf(r[|r| - 2..]))
    else
      None
  }

  lemma ShortFormParses(r: string, m: nat, s: nat)
    requires ShortForm(r, m, s)
    ensures ParseClock(r) == Some(m * 60 + s)
  {
  }

  lemma LongFormParses(r: string, h: nat, m: nat, s: nat)
    requires LongForm(r, h, m, s)
    ensures ParseClock(r) == Some(h * 3600 + m * 60 + s)
  {
    assert |r| != 5;
  }

  /** Every display reads back as the number of seconds it was made from. */
  lemma FormatDurationParses(t: nat)
    ensures ParseClock(FormatDuration(t)) == Some(t)
  {
    var c := Decompose(t);
    var r := FormatDuration(t);
    DecomposeSound(t);
    if c.hours == 0 {
      ShortFormParses(r, c.minutes, c.seconds);
    } else {
      LongFormParses(r, c.hours, c.minutes, c.seconds);
    }
  }

  /** Distinct numbers of whole seconds are displayed differently. */
  lemma FormatDurationInjective(a: nat, b: nat)
    requires FormatDuration(a) == FormatDuration(b)
    ensures a == b
  {
    FormatDurationParses(a);
    FormatDurationParses(b);
  }

  lemma FormatDurationZero()
    ensures FormatDuration(0) == "00:00"
  {
    assert PadTwo(0) == "00";
  }

  /** 65 seconds is one minute five. */
  lemma FormatDurationShortExample()
    ensures FormatDuration(65) == "01:05"
  {
    assert Decompose(65) == Clock(0, 1, 5);
    assert PadTwo(1) == "01" by {
      assert Show(1) == "1";
    }
    assert PadTwo(5) == "05" by {
      assert Show(5) == "5";
    }
  }

  /** 3661 seconds is one hour, one minute and one second. */
  lemma FormatDurationLongExample()
    ensures FormatDuration(3661) == "1:01:01"
  {
    assert Decompose(3661) == Clock(1, 1, 1);
    assert Show(1) == "1";
    assert PadTwo(1) == "01";
  }

  /** A JavaScript number as far as `Number.isFinite` is concerned: a finite
      value, or anything else (NaN, an infinity, or a value that is not a
      number at all, such as the initial string state of the current time). */
  datatype Num = Finite(value: real) | NonFinite

  /** The whole seconds a time display stands for: the floor of a finite
      value, zero otherwise. */
  function WholeSeconds(v: Num): nat
    requires v.Finite? ==> v.value >= 0.0
  {
    if v.Finite? then v.value.Floor else 0
  }

  /** One side of the `current / total` display. */
  function DisplayTime(v: Num): (r: string)
    requires v.Finite? ==> v.value >= 0.0
    ensures |r| >= 5
    ensures v.NonFinite? ==> r == "00:00"
    ensures v.Finite? ==> r == FormatDuration(v.value.Floor)
    ensures ParseClock(r) == Some(WholeSeconds(v))
  {
    if v.Finite? then
      FormatDurationParses(v.value.Floor);
      FormatDuration(v.value.Floor)
    else
      FormatDurationZero();
      FormatDurationParses(0);
      "00:00"
  }

  /** A clock display never contains a space. */
  lemma ClockHasNoSpace(r: string)
    requires ParseClock(r).Some?
    ensures forall j :: 0 <= j < |r| ==> r[j] != ' '
  {
    forall j | 0 <= j < |r|
      ensures r[j] != ' '
    {
      if |r| == 5 && r[2] == ':' && AllDigits(r[..2]) && AllDigits(r[3..]) {
        if j < 2 {
          assert r[..2][j] == r[j];
        } else if j > 2 {
          assert r[3..][j - 3] == r[j];
        }
      } else {
        var k := |r| - 6;
        if j < k {
          assert r[..k][j] == r[j];
        } else if k < j < k + 3 {
          assert r[k + 1..k + 3][j - k - 1] == r[j];
        } else if j > k + 3 {
          assert r[k + 4..][j - k - 4] == r[j];
        }
      }
    }
  }

  /** The position of the first space in `r`, or `|r|` if there is none. */
  function FirstSpace(r: string): (i: nat)
    ensures i <= |r|
    ensures i < |r| ==> r[i] == ' '
    ensures forall j :: 0 <= j < i ==> r[j] != ' '
  {
    if |r| == 0 || r[0] == ' ' then 0 else 1 + FirstSpace(r[1..])
  }

  /** Reads a `current / total` label back into its two numbers of seconds. */
  function ParseLabel(r: string): Option<(nat, nat)> {
    var i := FirstSpace(r);
    if i + 3 <= |r| && r[i..i + 3] == " / " then
      var current := ParseClock(r[..i]);
      var total := ParseClock(r[i + 3..]);
      if current.Some? && total.Some? then Some((current.value, total.value)) else None
    else
      None
  }

  /** Joining two clock displays with ` / ` can be undone. */
  lemma LabelSplits(a: string, b: string)
    requires ParseClock(a).Some? && ParseClock(b).Some?
    ensures ParseLabel(a + " / " + b) == Some((ParseClock(a).value, ParseClock(b).value))
  {
    var r := a + " / " + b;
    ClockHasNoSpace(a);
    assert r[|a|] == ' ';
    assert forall j :: 0 <= j < |a| ==> r[j] == a[j];
    assert FirstSpace(r) == |a|;
    assert r[|a|..|a| + 3] == " / ";
    assert r[..|a|] == a && r[|a| + 3..] == b;
  }

  /** The `current / total` label of the player, each side guarded on its
      own: a side that is not a finite number shows `00:00`. */
  function TimeLabel(current: Num, total: Num): (r: string)
    requires current.Finite? ==> current.value >= 0.0
    requires total.Finite? ==> total.value >= 0.0
    ensures r == DisplayTime(current) + " / " + DisplayTime(total)
    ensures ParseLabel(r) == Some((WholeSeconds(current), WholeSeconds(total)))
  {
    var a := DisplayTime(current);
    var b := DisplayTime(total);
    LabelSplits(a, b);
    a + " / " + b
  }

  /** Before anything has loaded both sides of the label read `00:00`:
      the current time because it is not a number, the total because it
      is zero. */
  lemma InitialLabel()
    ensures TimeLabel(NonFinite, Finite(0.0)) == "00:00 / 00:00"
  {
    FormatDurationZero();
    assert DisplayTime(Finite(0.0)) == FormatDuration(0);
  }
}

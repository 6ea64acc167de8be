/** Values derived from the controller's state on every render: the total, the two shares, the
    leading artwork and the clock text. */
module Display {
  import opened Battle

  /** Sum of both tallies. */
  function TotalVotes(t: Tally): (n: nat)
    requires IsTally(t)
    ensures t[1] <= n && t[2] <= n
    ensures n == 0 <==> t[1] == 0 && t[2] == 0
    ensures n - t[1] == t[2]
  {
    t[1] + t[2]
  }

  /** Percentage share of artwork `id`, in exact arithmetic, with an even split before any vote. */
  function Share(t: Tally, id: ArtworkId): (p: real)
    requires IsTally(t)
    ensures 0.0 <= p <= 100.0
    ensures TotalVotes(t) == 0 ==> p == 50.0
  {
    var total := TotalVotes(t);
    if total > 0 then
      ShareBound(t[id] as real, total as real);
      (t[id] as real / total as real) * 100.0
    else 50.0
  }

  lemma ShareBound(a: real, T: real)
    requires 0.0 <= a <= T && T > 0.0
    ensures 0.0 <= (a / T) * 100.0 <= 100.0
  {
    var x := a / T;
    assert x * T == a;
    assert x <= 1.0;
  }

  /** The two shares always add up to a hundred. */
  lemma SharesSum(t: Tally)
    requires IsTally(t)
    ensures Share(t, 1) + Share(t, 2) == 100.0
  {
    var total := TotalVotes(t);
    if total > 0 {
      SharesOfParts(t[1] as real, t[2] as real, total as real);
    }
  }

  lemma SharesOfParts(a: real, b: real, T: real)
    requires T > 0.0 && a + b == T
    ensures (a / T) * 100.0 + (b / T) * 100.0 == 100.0
  {
    var x, y := a / T, b / T;
    assert x * T == a && y * T == b;
    assert (x + y) * T == x * T + y * T;
    assert x + y == 1.0;
  }

  /** The leading artwork: the one with strictly more votes, none on a tie. */
  function Leader(t: Tally): (w: Option<ArtworkId>)
    requires IsTally(t)
    ensures w == Some(1) <==> t[1] > t[2]
    ensures w == Some(2) <==> t[2] > t[1]
    ensures w == None <==> t[1] == t[2]
  {
    if t[1] > t[2] then Some(1) else if t[2] > t[1] then Some(2) else None
  }

  /** The leader is exactly the artwork whose share is above half; with no leader the shares are
      equal. */
  lemma LeaderByShare(t: Tally, id: ArtworkId)
    requires IsTally(t)
    ensures Leader(t) == Some(id) <==> Share(t, id) > 50.0
    ensures Leader(t) == None <==> Share(t, 1) == Share(t, 2)
  {
    SharesSum(t);
    var total := TotalVotes(t);
    if total > 0 {
      var T := total as real;
      ShareMonotone(t[id] as real, t[Other(id)] as real, T);
      ShareMonotone(t[1] as real, t[2] as real, T);
    }
  }

  /** Dividing by a positive total keeps the order of two counts. */
  lemma ShareMonotone(a: real, b: real, T: real)
    requires T > 0.0
    ensures a > b <==> (a / T) * 100.0 > (b / T) * 100.0
    ensures a == b <==> (a / T) * 100.0 == (b / T) * 100.0
  {
    assert (a / T) * 100.0 - (b / T) * 100.0 == ((a - b) / T) * 100.0;
  }

  // ----- decimal text of a natural number (JavaScript's Number.prototype.toString) -----

  predicate IsDigit(c: char) {
    '0' <= c <= '9'
  }

  predicate IsDigits(s: string) {
    forall i :: 0 <= i < |s| ==> IsDigit(s[i])
  }

  function DigitChar(d: nat): (c: char)
    requires d < 10
    ensures IsDigit(c) && c as int - '0' as int == d
  {
    ('0' as int + d) as char
  }

  function DigitValue(c: char): nat
    requires IsDigit(c)
  {
    c as int - '0' as int
  }

  /** Shortest decimal text of `n`, most significant digit first. */
  function Decimal(n: nat): (s: string)
    ensures |s| >= 1 && IsDigits(s)
    ensures |s| > 1 ==> s[0] != '0'
    ensures n < 10 <==> |s| == 1
    ensures n < 100 <==> |s| <= 2
  {
    if n < 10 then [DigitChar(n)] else Decimal(n / 10) + [DigitChar(n % 10)]
  }

  /** Reads decimal digits back as a number. */
  function DecimalValue(s: string): nat
    requires IsDigits(s)
  {
    if s == [] then 0 else DecimalValue(s[..|s| - 1]) * 10 + DigitValue(s[|s| - 1])
  }

  lemma {:induction false} DecimalRoundTrip(n: nat)
    ensures DecimalValue(Decimal(n)) == n
  {
    if n >= 10 {
      var s := Decimal(n);
      assert s[..|s| - 1] == Decimal(n / 10);
      DecimalRoundTrip(n / 10);
    }
  }

  /** `s.padStart(2, "0")`. */
  function PadStart2(s: string): (r: string)
    ensures |r| == if |s| < 2 then 2 else |s|
    ensures r[|r| - |s|..] == s
    ensures forall i :: 0 <= i < |r| - |s| ==> r[i] == '0'
  {
    if |s| == 0 then "00" + s else if |s| == 1 then "0" + s else s
  }

  // ----- the countdown text -----

  /** Remaining milliseconds shown as minutes, a colon and zero-padded seconds. */
  function FormatTime(ms: nat): string {
    var minutes := ms / 60000;
    var seconds := (ms % 60000) / 1000;
    Decimal(minutes) + ":" + PadStart2(Decimal(seconds))
  }

  /** Reads "m:ss" text back into its minutes and seconds fields. */
  function ReadClock(s: string): Option<(nat, nat)> {
    if |s| >= 4 && s[|s| - 3] == ':' && IsDigits(s[..|s| - 3]) && IsDigits(s[|s| - 2..])
    then Some((DecimalValue(s[..|s| - 3]), DecimalValue(s[|s| - 2..])))
    else None
  }

  /** The clock text always ends in a colon and two digits, and reads back as whole minutes and
      seconds below sixty that cover `ms` to the second. */
  lemma FormatTimeMeaning(ms: nat)
    ensures |FormatTime(ms)| >= 4 && FormatTime(ms)[|FormatTime(ms)| - 3] == ':'
    ensures ReadClock(FormatTime(ms)).Some?
    ensures var (m, sec) := ReadClock(FormatTime(ms)).value;
      sec < 60 && m * 60000 + sec * 1000 <= ms < m * 60000 + sec * 1000 + 1000
  {
    var minutes := ms / 60000;
    var seconds := (ms % 60000) / 1000;
    SecondsBelowSixty(ms);
    PaddedValue(seconds);
    DecimalRoundTrip(minutes);
    ReadClockOf(Decimal(minutes), PadStart2(Decimal(seconds)));
    TimeFields(ms);
  }

  /** Reading back text glued from a digit string, a colon and two digits. */
  lemma ReadClockOf(mtext: string, stext: string)
    requires |mtext| >= 1 && IsDigits(mtext) && |stext| == 2 && IsDigits(stext)
    ensures var s := mtext + ":" + stext;
      |s| >= 4 && s[|s| - 3] == ':' &&
      ReadClock(s) == Some((DecimalValue(mtext), DecimalValue(stext)))
  {
    var s := mtext + ":" + stext;
    assert s[..|s| - 3] == mtext;
    assert s[|s| - 2..] == stext;
  }

  lemma SecondsBelowSixty(ms: nat)
    ensures (ms % 60000) / 1000 < 60
  {
  }

  /** Whole minutes and whole seconds of `ms` bracket it to within a second. */
  lemma TimeFields(ms: nat)
    ensures var m, sec := ms / 60000, (ms % 60000) / 1000;
      m * 60000 + sec * 1000 <= ms < m * 60000 + sec * 1000 + 1000
  {
    var m, r := ms / 60000, ms % 60000;
    assert ms == m * 60000 + r;
    var sec := r / 1000;
    assert r == sec * 1000 + r % 1000;
  }

  /** Left-padding with zeros does not change the value of a number below a hundred. */
  lemma PaddedValue(n: nat)
    requires n < 100
    ensures IsDigits(PadStart2(Decimal(n))) && DecimalValue(PadStart2(Decimal(n))) == n
  {
    DecimalRoundTrip(n);
    var d := Decimal(n);
    if |d| == 1 {
      var p := PadStart2(d);
      assert p == ['0'] + d;
      assert p[..1] == ['0'];
      assert DecimalValue(p[..1]) == 0 by {
        assert p[..1][..0] == [];
      }
      assert d[..0] == [];
    }
  }

  /** A full round reads "60:00". */
  lemma FormatRoundDuration()
    ensures FormatTime(RoundDuration) == "60:00"
  {
    assert RoundDuration / 60000 == 60 && (RoundDuration % 60000) / 1000 == 0;
    assert DigitChar(6) == '6' && DigitChar(0) == '0';
    assert Decimal(6) == "6";
    assert Decimal(60) == Decimal(6) + [DigitChar(0)] == "60";
    assert Decimal(0) == "0";
    assert PadStart2("0") == "00";
    assert "60" + ":" + "00" == "60:00";
  }

  /** With at least a second left the clock never reads "0:00": the round is reset on the tick
      that would bring it there. */
  lemma ClockNeverZero(ms: nat)
    requires ms >= TickLength
    ensures FormatTime(ms) != "0:00"
  {
    FormatTimeMeaning(ms);
    ZeroClockReads();
    ClockReadsNonZero(FormatTime(ms), ms);
  }

  lemma ZeroClockReads()
    ensures ReadClock("0:00") == Some((0, 0))
  {
    ReadClockOf("0", "00");
    assert "0" + ":" + "00" == "0:00";
  }

  lemma ClockReadsNonZero(s: string, ms: nat)
    requires ms >= TickLength && ReadClock(s).Some?
    requires ReadClock(s).value.0 * 60000 + ReadClock(s).value.1 * 1000 + 1000 > ms
    ensures ReadClock(s) != Some((0, 0))
  {
  }
}

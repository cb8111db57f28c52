/** Caption timestamps.  The cleaner reads `HH:MM:SS.mmm` into floating-point
    seconds and prints seconds back as `HH:MM:SS`; here time is a whole number
    of milliseconds, which every `HH:MM:SS.mmm` denotes exactly.
 */
module Timestamps {
  import opened Text

  /** The text of one `\d{2}:\d{2}:\d{2}\.\d{3}` capture. */
  predicate IsTimestamp(t: string) {
    && |t| == 12
    && IsDigit(t[0]) && IsDigit(t[1]) && t[2] == ':'
    && IsDigit(t[3]) && IsDigit(t[4]) && t[5] == ':'
    && IsDigit(t[6]) && IsDigit(t[7]) && t[8] == '.'
    && IsDigit(t[9]) && IsDigit(t[10]) && IsDigit(t[11])
  }

  function DigitValue(c: char): nat
    requires IsDigit(c)
  {
    c as nat - '0' as nat
  }

  function DigitChar(d: nat): (c: char)
    requires d < 10
    ensures IsDigit(c) && DigitValue(c) == d
  {
    ('0' as nat + d) as char
  }

  /** The number written by the two digits at `t[i]`, `t[i + 1]`. */
  function TwoDigits(t: string, i: nat): nat
    requires i + 1 < |t| && IsDigit(t[i]) && IsDigit(t[i + 1])
  {
    10 * DigitValue(t[i]) + DigitValue(t[i + 1])
  }

  function Hours(t: string): nat requires IsTimestamp(t) { TwoDigits(t, 0) }
  function Minutes(t: string): nat requires IsTimestamp(t) { TwoDigits(t, 3) }
  function Seconds(t: string): nat requires IsTimestamp(t) { TwoDigits(t, 6) }
  function Millis(t: string): nat requires IsTimestamp(t) {
    100 * DigitValue(t[9]) + 10 * DigitValue(t[10]) + DigitValue(t[11])
  }

  /** `time_to_seconds`: hours * 3600 + minutes * 60 + seconds, in milliseconds.
      Minutes and seconds fields above 59 are accepted and simply added in. */
  function TimeToMillis(t: string): (ms: nat)
    requires IsTimestamp(t)
    ensures ms <= 99 * 3_600_000 + 99 * 60_000 + 99_999
    ensures ms % 1000 == Millis(t)
  {
    WholeSecondsApart(Hours(t) * 3600 + Minutes(t) * 60 + Seconds(t), Millis(t));
    Hours(t) * 3_600_000 + Minutes(t) * 60_000 + Seconds(t) * 1000 + Millis(t)
  }

  /** The milliseconds below a whole number of seconds are the remainder. */
  lemma WholeSecondsApart(secs: nat, f: nat)
    requires f < 1000
    ensures (secs * 1000 + f) % 1000 == f
  {
  }

  function DecimalValue(s: string): nat
    requires forall i | 0 <= i < |s| :: IsDigit(s[i])
    decreases |s|
  {
    if |s| == 0 then 0 else 10 * DecimalValue(s[..|s| - 1]) + DigitValue(s[|s| - 1])
  }

  /** The shortest decimal numeral of `n` (`str(n)` for a non-negative int):
      its value is `n` and it has no leading zero. */
  function NatToDecimal(n: nat): (s: string)
    ensures |s| >= 1 && forall i | 0 <= i < |s| :: IsDigit(s[i])
    ensures DecimalValue(s) == n
    ensures |s| > 1 ==> s[0] != '0'
    ensures n < 10 <==> |s| == 1
    ensures n < 100 <==> |s| <= 2
    decreases n
  {
    if n < 10 then [DigitChar(n)]
    else
      var front := NatToDecimal(n / 10);
      var s := front + [DigitChar(n % 10)];
      assert s[..|s| - 1] == front;
      assert s[0] == front[0];
      s
  }

  /** `f"{n:02d}"`: at least two digits, zero-padded; three or more digits are
      kept whole, with no leading zero. */
  function Pad2(n: nat): (s: string)
    ensures |s| >= 2 && forall i | 0 <= i < |s| :: IsDigit(s[i])
    ensures DecimalValue(s) == n
    ensures |s| > 2 ==> s[0] != '0'
    ensures n < 100 <==> |s| == 2
  {
    if n < 10 then
      var s := ['0', DigitChar(n)];
      TwoDigitValue(s);
      s
    else
      NatToDecimal(n)
  }

  /** `seconds_to_time`: `HH:MM:SS` of the whole seconds in `ms`; the fraction is truncated. */
  function SecondsToTime(ms: nat): (s: string)
    ensures forall i | 0 <= i < |s| :: IsDigit(s[i]) || s[i] == ':'
    ensures ms < 100 * 3_600_000 <==> |s| == 8
  {
    Pad2(ms / 3_600_000) + ":" + Pad2(ms % 3_600_000 / 60_000) + ":" + Pad2(ms % 60_000 / 1000)
  }

  lemma Pad2OfDigits(a: char, b: char)
    requires IsDigit(a) && IsDigit(b)
    ensures Pad2(10 * DigitValue(a) + DigitValue(b)) == [a, b]
  {
    var n := 10 * DigitValue(a) + DigitValue(b);
    assert DigitChar(DigitValue(a)) == a && DigitChar(DigitValue(b)) == b;
    if n >= 10 {
      assert n / 10 == DigitValue(a) && n % 10 == DigitValue(b);
    }
  }

  /** The value of a two-digit numeral. */
  lemma TwoDigitValue(s: string)
    requires |s| == 2 && IsDigit(s[0]) && IsDigit(s[1])
    ensures DecimalValue(s) == 10 * DigitValue(s[0]) + DigitValue(s[1])
  {
    assert s[..1][..0] == [];
    assert DecimalValue(s[..1]) == DigitValue(s[0]);
  }

  /** Reading a timestamp whose minutes and seconds are below 60 and formatting
      the result again gives the timestamp without its `.mmm` fraction. */
  lemma TimestampRoundTrip(t: string)
    requires IsTimestamp(t) && Minutes(t) < 60 && Seconds(t) < 60
    ensures SecondsToTime(TimeToMillis(t)) == t[..8]
  {
    SplitMillis(Hours(t), Minutes(t), Seconds(t), Millis(t));
    ClockOfTimestamp(t);
  }

  /** Formatting the three fields of a timestamp gives its `HH:MM:SS` part back. */
  lemma ClockOfTimestamp(t: string)
    requires IsTimestamp(t)
    ensures Pad2(Hours(t)) + ":" + Pad2(Minutes(t)) + ":" + Pad2(Seconds(t)) == t[..8]
  {
    Pad2OfDigits(t[0], t[1]);
    Pad2OfDigits(t[3], t[4]);
    Pad2OfDigits(t[6], t[7]);
    ClockPrefix(t);
  }

  /** Hours, minutes, seconds and milliseconds come back out of their sum. */
  lemma SplitMillis(h: nat, m: nat, s: nat, f: nat)
    requires m < 60 && s < 60 && f < 1000
    ensures var ms := h * 3_600_000 + m * 60_000 + s * 1000 + f;
      ms / 3_600_000 == h && ms % 3_600_000 / 60_000 == m && ms % 60_000 / 1000 == s
  {
    var ms := h * 3_600_000 + m * 60_000 + s * 1000 + f;
    var r := m * 60_000 + s * 1000 + f;
    assert ms == h * 3_600_000 + r && r < 3_600_000;
    assert ms % 3_600_000 == r;
    assert ms % 60_000 == s * 1000 + f by {
      assert ms == (h * 60 + m) * 60_000 + (s * 1000 + f);
    }
  }

  /** The `HH:MM:SS` part of a timestamp, as its three digit pairs. */
  lemma ClockPrefix(t: string)
    requires IsTimestamp(t)
    ensures t[..8] == [t[0], t[1]] + ":" + [t[3], t[4]] + ":" + [t[6], t[7]]
  {
  }

  /** Formatting truncates: below 100 hours the text is a timestamp again (with a
      `.000` fraction) whose value is `ms` rounded down to the whole second, never up. */
  lemma FormatTruncates(ms: nat)
    requires ms < 100 * 3_600_000
    ensures IsTimestamp(SecondsToTime(ms) + ".000")
    ensures TimeToMillis(SecondsToTime(ms) + ".000") == ms - ms % 1000
    ensures TimeToMillis(SecondsToTime(ms) + ".000") <= ms < TimeToMillis(SecondsToTime(ms) + ".000") + 1000
  {
    var h, m, s := ms / 3_600_000, ms % 3_600_000 / 60_000, ms % 60_000 / 1000;
    JoinMillis(ms);
    var ph, pm, ps := Pad2(h), Pad2(m), Pad2(s);
    var t := SecondsToTime(ms) + ".000";
    assert t == ph + ":" + pm + ":" + ps + ".000";
    assert t[0..2] == ph && t[3..5] == pm && t[6..8] == ps;
    TwoDigitValue(ph);
    TwoDigitValue(pm);
    TwoDigitValue(ps);
    assert Hours(t) == h && Minutes(t) == m && Seconds(t) == s && Millis(t) == 0;
  }

  /** The hour, minute and second fields of `ms` are in range and add back up
      to `ms` without its milliseconds. */
  lemma JoinMillis(ms: nat)
    requires ms < 100 * 3_600_000
    ensures var h, m, s := ms / 3_600_000, ms % 3_600_000 / 60_000, ms % 60_000 / 1000;
      h < 100 && m < 60 && s < 60 && h * 3_600_000 + m * 60_000 + s * 1000 == ms - ms % 1000
  {
    var r := ms % 3_600_000;
    assert ms == ms / 3_600_000 * 3_600_000 + r;
    assert r == r / 60_000 * 60_000 + r % 60_000;
    assert r % 60_000 == ms % 60_000 by {
      assert ms == (ms / 3_600_000 * 60 + r / 60_000) * 60_000 + r % 60_000;
    }
    assert ms % 60_000 == ms % 60_000 / 1000 * 1000 + ms % 1000 by {
      assert ms % 60_000 % 1000 == ms % 1000;
    }
  }

}

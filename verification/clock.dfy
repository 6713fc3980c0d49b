/**
  Times of day. The server stores and compares check-in times as zero-padded
  "HH:MM:SS" strings; the model keeps them as seconds since midnight and
  proves that the string order the server relies on is the numeric order.
 */
module Clock {
  import opened Base
  import opened Text

  /** A time of day, in whole seconds since midnight. */
  type Time = t: nat | t < 86400

  /** Seconds in an hour and in a minute. */
  const Hour: nat := 3600
  const Minute: nat := 60

  /** The late cut-off used by the statistics and the absent/late report: 07:45:00. */
  const LateCutoff: Time := 7 * Hour + 45 * Minute

  /** How long after a check-in a repeat scan is refused: two hours. */
  const Cooldown: nat := 2 * Hour

  function HourOf(t: Time): nat { t / Hour }
  function MinuteOf(t: Time): nat { t / Minute % 60 }
  function SecondOf(t: Time): nat { t % Minute }

  /** Two decimal digits, zero-padded. */
  function TwoDigits(n: nat): (s: string)
    requires n < 100
    ensures |s| == 2 && AllDigits(s)
    ensures DecimalValue(s) == n
  {
    var s := [DigitChar(n / 10), DigitChar(n % 10)];
    assert s[..1] == [s[0]] && s[..1][..0] == [];
    assert DecimalValue(s[..1]) == n / 10;
    assert DecimalValue(s) == 10 * (n / 10) + n % 10;
    s
  }

  /** The "HH:MM:SS" text the server writes into `time_in`, reports and messages. */
  function FormatTime(t: Time): (s: string)
    ensures |s| == 8 && s[2] == ':' && s[5] == ':'
    ensures AllDigits(s[..2]) && AllDigits(s[3..5]) && AllDigits(s[6..])
  {
    TwoDigits(HourOf(t)) + ":" + TwoDigits(MinuteOf(t)) + ":" + TwoDigits(SecondOf(t))
  }

  /** Reads "HH:MM:SS" back; anything else, or an out-of-range field, is `None`. */
  function ParseTime(s: string): (r: Option<Time>)
    ensures r.Some? ==> |s| == 8 && s[2] == ':' && s[5] == ':'
  {
    if |s| == 8 && s[2] == ':' && s[5] == ':' && AllDigits(s[..2]) && AllDigits(s[3..5]) && AllDigits(s[6..]) then
      var h, m, sec := DecimalValue(s[..2]), DecimalValue(s[3..5]), DecimalValue(s[6..]);
      if h < 24 && m < 60 && sec < 60 then Some(h * Hour + m * Minute + sec) else None
    else None
  }

  lemma Decompose(t: Time)
    ensures HourOf(t) < 24 && MinuteOf(t) < 60 && SecondOf(t) < 60
    ensures t == HourOf(t) * Hour + MinuteOf(t) * Minute + SecondOf(t)
  {
    var q := t / 60;
    assert t == 60 * q + t % 60;
    assert q == 60 * (q / 60) + q % 60;
    assert q / 60 == t / 3600;
  }

  /** Parsing undoes formatting. */
  lemma ParseFormatTime(t: Time)
    ensures ParseTime(FormatTime(t)) == Some(t)
  {
    Decompose(t);
    var s := FormatTime(t);
    assert s[..2] == TwoDigits(HourOf(t));
    assert s[3..5] == TwoDigits(MinuteOf(t));
    assert s[6..] == TwoDigits(SecondOf(t));
  }

  /** On two digits, string order is numeric order. */
  lemma TwoDigitsOrder(x: nat, y: nat)
    requires x < 100 && y < 100
    ensures LexLess(TwoDigits(x), TwoDigits(y)) <==> x < y
  {
    var a, b := TwoDigits(x), TwoDigits(y);
    assert a == [a[0]] + [a[1]] && b == [b[0]] + [b[1]];
    LexAppend([a[0]], [b[0]], [a[1]], [b[1]]);
    assert x == 10 * (x / 10) + x % 10 && y == 10 * (y / 10) + y % 10;
  }

  /** Numeric order of times is the lexicographic order of their hour, minute and second. */
  lemma TimeOrder(t: Time, u: Time)
    ensures t < u <==>
      || HourOf(t) < HourOf(u)
      || (HourOf(t) == HourOf(u) && MinuteOf(t) < MinuteOf(u))
      || (HourOf(t) == HourOf(u) && MinuteOf(t) == MinuteOf(u) && SecondOf(t) < SecondOf(u))
  {
    Decompose(t);
    Decompose(u);
  }

  /**
    Comparing the "HH:MM:SS" texts as strings, as the server does, orders
    times exactly as comparing the seconds does.
   */
  lemma FormatTimeOrder(t: Time, u: Time)
    ensures LexLess(FormatTime(t), FormatTime(u)) <==> t < u
  {
    var h, h' := TwoDigits(HourOf(t)), TwoDigits(HourOf(u));
    var m, m' := TwoDigits(MinuteOf(t)), TwoDigits(MinuteOf(u));
    var s, s' := TwoDigits(SecondOf(t)), TwoDigits(SecondOf(u));
    Decompose(t);
    Decompose(u);
    assert FormatTime(t) == h + ([':'] + (m + ([':'] + s)));
    assert FormatTime(u) == h' + ([':'] + (m' + ([':'] + s')));
    LexAppend(h, h', [':'] + (m + ([':'] + s)), [':'] + (m' + ([':'] + s')));
    LexAppend([':'], [':'], m + ([':'] + s), m' + ([':'] + s'));
    LexAppend(m, m', [':'] + s, [':'] + s');
    LexAppend([':'], [':'], s, s');
    TwoDigitsOrder(HourOf(t), HourOf(u));
    TwoDigitsOrder(MinuteOf(t), MinuteOf(u));
    TwoDigitsOrder(SecondOf(t), SecondOf(u));
    TimeOrder(t, u);
    if h == h' {
      DecimalInjectiveTwo(HourOf(t), HourOf(u));
    }
    if m == m' {
      DecimalInjectiveTwo(MinuteOf(t), MinuteOf(u));
    }
  }

  lemma DecimalInjectiveTwo(x: nat, y: nat)
    requires x < 100 && y < 100
    requires TwoDigits(x) == TwoDigits(y)
    ensures x == y
  {
  }
}

/**
  `srt_render_time`: a millisecond count as an SRT timecode `HH:MM:SS,mmm`.
 */
module Srt {
  import opened Wrappers
  import opened Decimal
  import opened Arith

  /** The length of `HH:MM:SS,mmm`. */
  const SRT_TIMECODE_LEN: nat := 12

  const MS_PER_HOUR: nat := 60 * 60 * 1000
  const MS_PER_MINUTE: nat := 60 * 1000
  const MS_PER_SECOND: nat := 1000

  /** C's `unsigned long` (64 bits), the type of the argument. */
  type u64 = x: int | 0 <= x < 0x1_0000_0000_0000_0000

  datatype TimeParts = TimeParts(hour: nat, min: nat, sec: nat, millis: nat)

  /**
    The four fields the source computes. `hour` is an `unsigned int`, so the
    quotient is taken modulo 2^32.
   */
  function Split(ms: u64): (p: TimeParts)
    ensures p.min < 60 && p.sec < 60 && p.millis < 1000
    ensures p.hour < 0x1_0000_0000
  {
    TimeParts((ms / MS_PER_HOUR) % 0x1_0000_0000,
              (ms / MS_PER_MINUTE) % 60,
              (ms / MS_PER_SECOND) % 60,
              ms - 1000 * (ms / 1000))
  }

  /** The fields add back up to the millisecond count whenever the hour fits its type. */
  lemma SplitRoundTrip(ms: u64)
    requires ms / MS_PER_HOUR < 0x1_0000_0000
    ensures Millis(Split(ms)) == ms
  {
    var p := Split(ms);
    var s := ms / 1000;
    var m := s / 60;
    assert m == ms / MS_PER_MINUTE by {
      DivDiv(ms, 1000, 60);
    }
    assert m / 60 == ms / MS_PER_HOUR by {
      DivDiv(ms, MS_PER_MINUTE, 60);
    }
    assert p.hour == m / 60 && p.min == m % 60 && p.sec == s % 60 && p.millis == ms % 1000;
    Combine(ms, s, m, m / 60, p.millis, p.sec, p.min);
  }

  /** The instant the four fields denote. */
  function Millis(p: TimeParts): nat
  {
    p.hour * MS_PER_HOUR + p.min * MS_PER_MINUTE + p.sec * MS_PER_SECOND + p.millis
  }

  /** Mixed-radix digits add back up to the number. */
  lemma Combine(ms: int, s: int, m: int, h: int, millis: int, sec: int, min: int)
    requires ms == s * 1000 + millis && s == m * 60 + sec && m == h * 60 + min
    ensures ms == h * MS_PER_HOUR + min * MS_PER_MINUTE + sec * MS_PER_SECOND + millis
  {
  }

  function Format(p: TimeParts): string
  {
    ZeroPad(p.hour, 2) + ":" + ZeroPad(p.min, 2) + ":" + ZeroPad(p.sec, 2) + "," + ZeroPad(p.millis, 3)
  }

  lemma FormatLength(p: TimeParts)
    requires p.hour < 100 && p.min < 60 && p.sec < 60 && p.millis < 1000
    ensures |Format(p)| == SRT_TIMECODE_LEN
  {
    ZeroPadWidth(p.hour, 2);
    ZeroPadWidth(p.min, 2);
    ZeroPadWidth(p.sec, 2);
    ZeroPadWidth(p.millis, 3);
  }

  /**
    `srt_render_time`: None where the source returns -1 (more than 99 hours,
    or a formatted length other than `SRT_TIMECODE_LEN`), else the timecode.
   */
  function RenderTime(ms: u64): (r: Option<string>)
    ensures r.Some? <==> Split(ms).hour <= 99
    ensures r.Some? ==> |r.value| == SRT_TIMECODE_LEN
  {
    var p := Split(ms);
    if p.hour > 99 then None
    else
      FormatLength(p);
      var s := Format(p);
      if |s| != SRT_TIMECODE_LEN then None else Some(s)
  }

  /** The value of the two digits at offset `i`. */
  function Digits2At(s: string, i: nat): nat
    requires i + 2 <= |s| && IsDigit(s[i]) && IsDigit(s[i + 1])
  {
    DigitValue(s[i]) * 10 + DigitValue(s[i + 1])
  }

  /** Reads the four fields of `HH:MM:SS,mmm` back. */
  function ParseTimecode(s: string): Option<TimeParts>
  {
    if |s| == SRT_TIMECODE_LEN && s[2] == ':' && s[5] == ':' && s[8] == ','
       && IsDigit(s[0]) && IsDigit(s[1]) && IsDigit(s[3]) && IsDigit(s[4]) && IsDigit(s[6])
       && IsDigit(s[7]) && IsDigit(s[9]) && IsDigit(s[10]) && IsDigit(s[11])
    then Some(TimeParts(Digits2At(s, 0), Digits2At(s, 3), Digits2At(s, 6),
                        DigitValue(s[9]) * 100 + Digits2At(s, 10)))
    else None
  }

  /** The twelve characters of a formatted timecode. */
  lemma FormatChars(p: TimeParts)
    requires p.hour < 100 && p.min < 60 && p.sec < 60 && p.millis < 1000
    ensures Format(p) == [DigitChar(p.hour / 10), DigitChar(p.hour % 10), ':',
                          DigitChar(p.min / 10), DigitChar(p.min % 10), ':',
                          DigitChar(p.sec / 10), DigitChar(p.sec % 10), ',',
                          DigitChar(p.millis / 100), DigitChar(p.millis / 10 % 10), DigitChar(p.millis % 10)]
  {
    ZeroPad2(p.hour);
    ZeroPad2(p.min);
    ZeroPad2(p.sec);
    ZeroPad3(p.millis);
  }

  /** A timecode built from digits reads back as the numbers those digits spell. */
  lemma ParseDigits(h1: nat, h0: nat, m1: nat, m0: nat, s1: nat, s0: nat, f2: nat, f1: nat, f0: nat)
    requires h1 < 10 && h0 < 10 && m1 < 10 && m0 < 10 && s1 < 10 && s0 < 10
    requires f2 < 10 && f1 < 10 && f0 < 10
    ensures ParseTimecode([DigitChar(h1), DigitChar(h0), ':', DigitChar(m1), DigitChar(m0), ':',
                           DigitChar(s1), DigitChar(s0), ',', DigitChar(f2), DigitChar(f1), DigitChar(f0)])
      == Some(TimeParts(h1 * 10 + h0, m1 * 10 + m0, s1 * 10 + s0, f2 * 100 + f1 * 10 + f0))
  {
  }

  /** A formatted timecode reads back as the fields it was formatted from. */
  lemma ParseFormat(p: TimeParts)
    requires p.hour < 100 && p.min < 60 && p.sec < 60 && p.millis < 1000
    ensures ParseTimecode(Format(p)) == Some(p)
  {
    FormatChars(p);
    ParseDigits(p.hour / 10, p.hour % 10, p.min / 10, p.min % 10, p.sec / 10, p.sec % 10,
                p.millis / 100, p.millis / 10 % 10, p.millis % 10);
    Tens(p.hour);
    Tens(p.min);
    Tens(p.sec);
    Hundreds(p.millis);
  }

  lemma Tens(n: nat)
    ensures n / 10 * 10 + n % 10 == n
  {
  }

  lemma Hundreds(n: nat)
    ensures n / 100 * 100 + n / 10 % 10 * 10 + n % 10 == n
  {
    DivDiv(n, 10, 10);
    Tens(n);
    Tens(n / 10);
  }

  /** Below 100 hours the timecode is produced and reads back as the same instant. */
  lemma RenderTimeRoundTrip(ms: u64)
    requires ms < 100 * MS_PER_HOUR
    ensures RenderTime(ms).Some?
    ensures var p := ParseTimecode(RenderTime(ms).value);
      p == Some(Split(ms)) && Millis(p.value) == ms
  {
    var p := Split(ms);
    HourOf(ms);
    DivLess(ms, MS_PER_HOUR, 100);
    SplitRoundTrip(ms);
    FormatLength(p);
    assert RenderTime(ms) == Some(Format(p));
    ParseFormat(p);
  }

  /** Below 2^32 hours the hour field is the plain quotient. */
  lemma HourOf(ms: u64)
    requires ms < 0x1_0000_0000 * MS_PER_HOUR
    ensures Split(ms).hour == ms / MS_PER_HOUR
  {
    DivLess(ms, MS_PER_HOUR, 0x1_0000_0000);
  }

  /**
    For the `uint32_t` times the packet loop passes, the hour is not
    truncated: rendering fails exactly when the time is 100 hours or more.
   */
  lemma RenderTimeOfU32(ms: u64)
    requires ms < 0x1_0000_0000
    ensures Split(ms).hour == ms / MS_PER_HOUR
    ensures RenderTime(ms).None? <==> ms >= 100 * MS_PER_HOUR
  {
    HourOf(ms);
    DivLess(ms, MS_PER_HOUR, 100);
  }
}

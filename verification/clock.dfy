/**
 The elapsed-time label `Time: mm:ss`. The millisecond tick counter is a
 32-bit unsigned value that wraps around; elapsed seconds are the wrapped
 difference to the start tick divided by 1000, and zero when not recording.
 */
module Clock {
  import opened Text

  const TICK_WRAP: nat := 0x1_0000_0000

  /** An unsigned 32-bit value, such as the millisecond tick counter. */
  type Uint32 = x: int | 0 <= x < TICK_WRAP

  /** `now - start` in unsigned 32-bit arithmetic: the ticks since `start`, across a wrap-around. */
  function TicksSince(now: Uint32, start: Uint32): (d: Uint32)
    ensures (start + d) % TICK_WRAP == now
    ensures start <= now ==> d == now - start
  {
    (now - start) % TICK_WRAP
  }

  /** Whole seconds since the recording started; zero while not recording. */
  function Elapsed(recording: bool, now: Uint32, start: Uint32): (e: nat)
    ensures !recording ==> e == 0
    ensures recording ==> e * 1000 <= TicksSince(now, start) < e * 1000 + 1000
    ensures e < 4294968
  {
    if recording then TicksSince(now, start) / 1000 else 0
  }

  /**
   The label text: `%02d` minutes, a colon, `%02d` seconds. It reads back:
   the minutes and seconds fields, taken from the text, give back the
   elapsed seconds, and the seconds field is below 60.
   */
  function TimeText(e: nat): (t: string)
    ensures |t| >= 11 && t[..6] == "Time: " && t[|t| - 3] == ':'
    ensures AllDigits(t[6..|t| - 3]) && AllDigits(t[|t| - 2..])
    ensures DigitsValue(t[|t| - 2..]) < 60
    ensures DigitsValue(t[6..|t| - 3]) * 60 + DigitsValue(t[|t| - 2..]) == e
  {
    var mm := PadTwo(e / 60);
    var ss := PadTwo(e % 60);
    PadTwoRoundTrip(e / 60);
    PadTwoRoundTrip(e % 60);
    var t := "Time: " + mm + ":" + ss;
    assert |ss| == 2;
    assert t[6..|t| - 3] == mm;
    assert t[|t| - 2..] == ss;
    t
  }

  lemma PadTwoLength(n: nat, k: nat)
    requires 2 <= k && n < Pow10(k)
    ensures |PadTwo(n)| <= k
  {
    if n >= 10 {
      DecimalLength(n, k);
    }
  }

  /**
   Every label the tick counter can produce fits the 32-character buffer it
   is formatted into, terminator included, so `snprintf` never truncates it.
   */
  lemma TimeTextFits(e: nat)
    requires e < 4294968
    ensures |TimeText(e)| < 32
  {
    assert Pow10(5) == 100000;
    PadTwoLength(e / 60, 5);
  }
}

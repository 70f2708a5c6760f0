/** The popup's `formatTime`: seconds rendered as `M:SS`. */
module Clock {
  import opened Strings

  /** `Math.trunc`: rounds toward zero. */
  function Trunc(x: real): int {
    if x >= 0.0 then x.Floor else -((-x).Floor)
  }

  /** JavaScript's `%` on numbers: the remainder of truncating division, which
      takes the sign of the dividend. */
  function JsRemainder(x: real, y: real): real
    requires y != 0.0
  {
    x - y * Trunc(x / y) as real
  }

  /** `formatTime(seconds)`: whole minutes, a colon, then the whole seconds
      within the minute, left-padded with `0` to two characters. */
  function FormatTime(seconds: real): string {
    var minutes := (seconds / 60.0).Floor;
    var remainingSeconds := JsRemainder(seconds, 60.0).Floor;
    IntToString(minutes) + ":" + PadStart(IntToString(remainingSeconds), 2, '0')
  }

  /** For a non-negative time, the minutes are the whole seconds divided by 60
      and the seconds field the remainder, which lies in [0, 59]. */
  lemma MinutesAndSeconds(seconds: real)
    requires seconds >= 0.0
    ensures (seconds / 60.0).Floor == seconds.Floor / 60
    ensures JsRemainder(seconds, 60.0).Floor == seconds.Floor % 60
    ensures 0 <= JsRemainder(seconds, 60.0).Floor < 60
  {
    var f := seconds.Floor;
    var q := f / 60;
    assert f == 60 * q + f % 60;
    assert q as real <= seconds / 60.0 < (q + 1) as real by {
      assert (60 * q) as real <= f as real <= seconds;
      assert seconds < (f + 1) as real <= (60 * q + 60) as real;
    }
    assert Trunc(seconds / 60.0) == q;
    var rem := JsRemainder(seconds, 60.0);
    assert rem == seconds - (60 * q) as real;
    assert (f - 60 * q) as real <= rem < (f - 60 * q + 1) as real;
  }

  /** The text `formatTime` shows for a non-negative time decodes back to it:
      the digits before the colon give the whole minutes, the two digits after
      it the remaining whole seconds, and together they give `floor(seconds)`. */
  lemma FormatTimeDecodes(seconds: real)
    requires seconds >= 0.0
    ensures var r := FormatTime(seconds);
      && |r| >= 4 && r[|r| - 3] == ':'
      && (forall i :: 0 <= i < |r| - 3 ==> IsDigit(r[i]))
      && (forall i :: |r| - 2 <= i < |r| ==> IsDigit(r[i]))
      && DigitsValue(r[..|r| - 3]) == seconds.Floor / 60
      && DigitsValue(r[|r| - 2..]) == seconds.Floor % 60
      && DigitsValue(r[..|r| - 3]) * 60 + DigitsValue(r[|r| - 2..]) == seconds.Floor
  {
    MinutesAndSeconds(seconds);
    var m := seconds.Floor / 60;
    var sec := seconds.Floor % 60;
    var ms := NatToString(m);
    var ss := PadStart(NatToString(sec), 2, '0');
    var r := FormatTime(seconds);
    assert r == ms + ":" + ss;
    NatToStringValue(m);
    NatToStringValue(sec);
    assert |ss| == 2 && DigitsValue(ss) == sec by {
      if sec < 10 {
        assert NatToString(sec) == [DigitChar(sec)];
        assert ss == ['0', DigitChar(sec)];
        assert ss[..1] == ['0'];
        assert ss[..1][..0] == [];
      } else {
        assert NatToString(sec) == NatToString(sec / 10) + [DigitChar(sec % 10)];
        assert sec / 10 < 10;
      }
    }
    assert r[..|r| - 3] == ms;
    assert r[|r| - 2..] == ss;
  }
}

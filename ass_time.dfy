/**
 * The `H:MM:SS.cc` time stamps of Advanced SubStation Alpha dialogue lines,
 * as `SubtitleProcessor._format_ass_time` writes them. The input is the time
 * already rounded to whole milliseconds.
 */
module AssTime {
  import opened Decimal
  import opened StringOrder
  import opened Wrappers

  const MsPerHour: nat := 3600000
  const MsPerMinute: nat := 60000
  const MsPerSecond: nat := 1000

  /** A negative time is written as zero. */
  function ClampMs(ms: int): nat {
    if ms < 0 then 0 else ms
  }

  function Hours(t: nat): nat { t / MsPerHour }
  function Minutes(t: nat): nat { (t % MsPerHour) / MsPerMinute }
  function Seconds(t: nat): nat { (t % MsPerMinute) / MsPerSecond }
  function Centis(t: nat): nat { (t % MsPerSecond) / 10 }

  /** Everything after the hours: `:MM:SS.cc`. */
  function Tail(t: nat): string {
    ":" + ZeroPad(Minutes(t), 2) + ":" + ZeroPad(Seconds(t), 2) + "." + ZeroPad(Centis(t), 2)
  }

  function FormatAssTime(ms: int): string {
    var t := ClampMs(ms);
    NatToString(Hours(t)) + Tail(t)
  }

  /**
   * Reads a time stamp back: one or more hour digits, then `:MM:SS.cc` with
   * two-digit fields, minutes and seconds below 60. The value is in ms.
   */
  function ParseAssTime(s: string): Option<nat> {
    if |s| < 10 then None
    else
      var head, tail := s[..|s| - 9], s[|s| - 9..];
      if AllDigits(head) && tail[0] == ':' && tail[3] == ':' && tail[6] == '.'
         && AllDigits(tail[1..3]) && AllDigits(tail[4..6]) && AllDigits(tail[7..9])
      then
        var mm, ss, cc := Value(tail[1..3]), Value(tail[4..6]), Value(tail[7..9]);
        if mm < 60 && ss < 60 then Some(Value(head) * MsPerHour + mm * MsPerMinute + ss * MsPerSecond + cc * 10)
        else None
      else None
  }

  lemma FieldsRecompose(t: nat)
    ensures Minutes(t) < 60 && Seconds(t) < 60 && Centis(t) < 100
    ensures Hours(t) * MsPerHour + Minutes(t) * MsPerMinute + Seconds(t) * MsPerSecond + Centis(t) * 10 == t - t % 10
  {
    var r1 := t % MsPerHour;
    var r2 := r1 % MsPerMinute;
    var r3 := r2 % MsPerSecond;
    assert t == Hours(t) * MsPerHour + r1;
    assert r1 == Minutes(t) * MsPerMinute + r2;
    assert r2 == t % MsPerMinute;
    assert r2 == Seconds(t) * MsPerSecond + r3;
    assert r3 == t % MsPerSecond;
    assert r3 == Centis(t) * 10 + r3 % 10;
    assert r3 % 10 == t % 10;
  }

  lemma PadTwo(n: nat)
    requires n < 100
    ensures |ZeroPad(n, 2)| == 2 && Value(ZeroPad(n, 2)) == n
  {
    assert Pow10(2) == 100;
    ZeroPadLength(n, 2);
    ZeroPadRoundTrip(n, 2);
  }

  lemma TailShape(t: nat)
    ensures |Tail(t)| == 9
    ensures Tail(t)[0] == ':' && Tail(t)[3] == ':' && Tail(t)[6] == '.'
    ensures Tail(t)[1..3] == ZeroPad(Minutes(t), 2)
    ensures Tail(t)[4..6] == ZeroPad(Seconds(t), 2)
    ensures Tail(t)[7..9] == ZeroPad(Centis(t), 2)
    ensures Value(Tail(t)[1..3]) == Minutes(t) < 60
    ensures Value(Tail(t)[4..6]) == Seconds(t) < 60
    ensures Value(Tail(t)[7..9]) == Centis(t)
  {
    FieldsRecompose(t);
    PadTwo(Minutes(t));
    PadTwo(Seconds(t));
    PadTwo(Centis(t));
  }

  /** Parsing an hour numeral followed by a tail reads back the four fields. */
  lemma ParseFormatted(h: nat, t: nat)
    ensures ParseAssTime(NatToString(h) + Tail(t))
         == Some(h * MsPerHour + Minutes(t) * MsPerMinute + Seconds(t) * MsPerSecond + Centis(t) * 10)
  {
    var d, tl := NatToString(h), Tail(t);
    var s := d + tl;
    TailShape(t);
    assert s[..|s| - 9] == d;
    assert s[|s| - 9..] == tl;
    NatToStringRoundTrip(h);
  }

  /**
   * Reading a formatted time gives back the clamped input truncated to
   * centiseconds: minutes and seconds are below 60, the hours are the whole
   * hours, and the value lies within 10 ms below the input.
   */
  lemma FormatParseRoundTrip(ms: int)
    ensures ParseAssTime(FormatAssTime(ms)) == Some(ClampMs(ms) - ClampMs(ms) % 10)
  {
    var t := ClampMs(ms);
    ParseFormatted(Hours(t), t);
    FieldsRecompose(t);
  }

  /** A negative time is written as the zero stamp. */
  lemma NegativeFormatsAsZero(ms: int)
    requires ms < 0
    ensures FormatAssTime(ms) == "0:00:00.00"
  {
    assert ZeroPad(0, 2) == "00" by { assert Pow10(2) == 100; }
  }

  /**
   * While two times have hour numerals of the same length, comparing their
   * formatted stamps as strings agrees with comparing the times.
   */
  lemma FormatOrderedWithinHourWidth(a: nat, b: nat)
    requires a <= b
    requires |NatToString(Hours(a))| == |NatToString(Hours(b))|
    ensures !LexLess(FormatAssTime(b), FormatAssTime(a))
  {
    var ha, hb := Hours(a), Hours(b);
    FieldsRecompose(a);
    FieldsRecompose(b);
    if ha < hb {
      NatToStringRoundTrip(ha);
      NatToStringRoundTrip(hb);
      DigitsOrder(NatToString(ha), NatToString(hb));
      LexLessHeads(NatToString(ha), Tail(a), NatToString(hb), Tail(b));
      LexLessAsymmetric(FormatAssTime(a), FormatAssTime(b));
    } else {
      assert ha == hb;
      TailOrdered(a, b);
      LexLessCommonHead(NatToString(ha), Tail(b), Tail(a));
    }
  }

  lemma TailOrdered(a: nat, b: nat)
    requires a <= b && Hours(a) == Hours(b)
    ensures !LexLess(Tail(b), Tail(a))
  {
    FieldsOrdered(a, b);
    FieldsBounded(a);
    FieldsBounded(b);
    var ra2, rb2 := "." + (ZeroPad(Centis(a), 2) + ""), "." + (ZeroPad(Centis(b), 2) + "");
    var ra1, rb1 := ":" + (ZeroPad(Seconds(a), 2) + ra2), ":" + (ZeroPad(Seconds(b), 2) + rb2);
    var ra0, rb0 := ":" + (ZeroPad(Minutes(a), 2) + ra1), ":" + (ZeroPad(Minutes(b), 2) + rb1);
    TailNested(a);
    TailNested(b);
    if Minutes(a) == Minutes(b) {
      if Seconds(a) == Seconds(b) {
        FieldThen(".", Centis(a), "", Centis(b), "");
      }
      FieldThen(":", Seconds(a), ra2, Seconds(b), rb2);
    }
    FieldThen(":", Minutes(a), ra1, Minutes(b), rb1);
  }

  lemma TailNested(t: nat)
    ensures Tail(t) == ":" + (ZeroPad(Minutes(t), 2) + (":" + (ZeroPad(Seconds(t), 2) + ("." + (ZeroPad(Centis(t), 2) + "")))))
  {
  }

  lemma FieldsBounded(t: nat)
    ensures Minutes(t) < 60 && Seconds(t) < 60 && Centis(t) < 100
  {
    FieldsRecompose(t);
  }

  /** Within one hour, the minutes, seconds and centiseconds compare in the order of the times. */
  lemma FieldsOrdered(a: nat, b: nat)
    requires a <= b && Hours(a) == Hours(b)
    ensures Minutes(a) < Minutes(b)
         || (Minutes(a) == Minutes(b)
             && (Seconds(a) < Seconds(b) || (Seconds(a) == Seconds(b) && Centis(a) <= Centis(b))))
  {
    FieldsRecompose(a);
    FieldsRecompose(b);
  }

  /**
   * A separator, a two-digit field and the rest: the strings are in order
   * when the fields are, or when the fields are equal and the rests are.
   */
  lemma FieldThen(sep: string, x: nat, rx: string, y: nat, ry: string)
    requires x < 100 && y < 100
    requires x < y || (x == y && !LexLess(ry, rx))
    ensures !LexLess(sep + (ZeroPad(y, 2) + ry), sep + (ZeroPad(x, 2) + rx))
  {
    PadTwo(x);
    PadTwo(y);
    var px, py := ZeroPad(x, 2), ZeroPad(y, 2);
    LexLessCommonHead(sep, py + ry, px + rx);
    if x < y {
      DigitsOrder(px, py);
      LexLessHeads(px, rx, py, ry);
      LexLessAsymmetric(px + rx, py + ry);
    } else {
      LexLessCommonHead(px, ry, rx);
    }
  }


  /**
   * Across an hour-width change the string order and the time order part:
   * 10:00:00.00 sorts before 9:00:00.00.
   */
  lemma HourWidthBreaksStringOrder()
    ensures 9 * MsPerHour < 10 * MsPerHour
    ensures LexLess(FormatAssTime(10 * MsPerHour), FormatAssTime(9 * MsPerHour))
  {
    assert NatToString(10) == "10";
    assert NatToString(9) == "9";
  }
}

/** The time codec: milliseconds to the `M:SS.sss` clock text the engine
    renders (src/parsers/parsers.py, `_format_time`), and the clock text
    back to milliseconds for ordering (src/database/db.py,
    `_time_string_to_ms`). */
module TimeCodec {
  import opened Wrappers
  import opened Text
  import opened Decimal

  /** What `_time_string_to_ms` answers for text it cannot read: a value
      that sorts after every real lap time. */
  const Unreadable := 999999999

  /** The rendering of every non-positive duration. */
  const ZeroClock := "00:00.000"

  /** Clock text: one or more digits, `:`, two digits, `.`, three digits. */
  predicate IsClock(s: string) {
    && |s| >= 8 && s[|s| - 7] == ':' && s[|s| - 4] == '.'
    && forall i :: 0 <= i < |s| && i != |s| - 7 && i != |s| - 4 ==> IsDigit(s[i])
  }

  /** The minutes field of clock text, before the `:`. */
  function MinutesField(s: string): (f: string)
    requires IsClock(s)
    ensures |f| >= 1 && AllDigits(f)
  {
    s[..|s| - 7]
  }

  /** The milliseconds field `mmm` of clock text. */
  function MillisField(s: string): (f: string)
    requires IsClock(s)
    ensures |f| == 3 && AllDigits(f)
  {
    s[|s| - 3..]
  }

  /** The seconds field `SS` of clock text. */
  function SecondsField(s: string): (f: string)
    requires IsClock(s)
    ensures |f| == 2 && AllDigits(f)
  {
    s[|s| - 6..|s| - 4]
  }

  /** `<minutes>:<SS>.<mmm>` with unpadded minutes, zero-padded seconds and
      milliseconds; every `ms <= 0` renders as `00:00.000`. For a positive
      duration the seconds field is below 60 and the minutes carry no
      leading zero. */
  function FormatTime(ms: int): (r: string)
    ensures IsClock(r)
    ensures ms <= 0 ==> r == ZeroClock
    ensures ms > 0 ==> Value(SecondsField(r)) < 60
    ensures ms > 0 ==> (r[0] == '0' ==> |r| == 8)
  {
    if ms <= 0 then ZeroClock
    else
      var seconds := (ms % 60000) / 1000;
      var millis := ms % 1000;
      DecWidth(seconds, 2);
      DecWidth(millis, 3);
      var r := Dec(ms / 60000) + ":" + ZeroPad(seconds, 2) + "." + ZeroPad(millis, 3);
      assert IsClock(r) by {
        var m := Dec(ms / 60000);
        forall i | 0 <= i < |r| && i != |r| - 7 && i != |r| - 4 ensures IsDigit(r[i]) {
          if i < |m| {
            assert r[i] == m[i];
          } else if i < |m| + 3 {
            assert r[i] == ZeroPad(seconds, 2)[i - |m| - 1];
          } else {
            assert r[i] == ZeroPad(millis, 3)[i - |m| - 4];
          }
        }
      }
      assert SecondsField(r) == ZeroPad(seconds, 2);
      assert r[0] == Dec(ms / 60000)[0];
      r
  }

  /** Reads clock text back into milliseconds: empty text and `-` are
      unreadable; otherwise the stripped text is read by `ReadClock`, and
      stripped text lacking `:` or `.` is unreadable. */
  function TimeStringToMs(text: string): (r: int)
    ensures |text| == 0 || text == "-" ==> r == Unreadable
    ensures ':' !in Strip(text) || '.' !in Strip(text) ==> r == Unreadable
  {
    if |text| == 0 || text == "-" then Unreadable else ReadClock(Strip(text))
  }

  /** Stripped clock text must hold both `:` and `.`; it is then cut at
      every `:`. */
  function ReadClock(s: string): (r: int)
    ensures ':' !in s || '.' !in s ==> r == Unreadable
  {
    if ':' in s && '.' in s then
      CountZero(s, ':');
      ReadPieces(Split(s, ':'))
    else Unreadable
  }

  /** The first piece is the minutes; the second, cut at every `.`, holds
      the seconds and the milliseconds. Anything `int()` rejects, and a
      missing milliseconds piece, is unreadable. */
  function ReadPieces(parts: seq<string>): (r: int)
    requires |parts| >= 2
    ensures PyInt(parts[0]).None? ==> r == Unreadable
    ensures PyInt(Split(parts[1], '.')[0]).None? ==> r == Unreadable
    ensures |Split(parts[1], '.')| < 2 ==> r == Unreadable
    ensures |Split(parts[1], '.')| >= 2 && PyInt(Split(parts[1], '.')[1]).None? ==> r == Unreadable
  {
    var secMs := Split(parts[1], '.');
    match (PyInt(parts[0]), PyInt(secMs[0]))
    case (Some(minutes), Some(seconds)) =>
      if |secMs| < 2 then Unreadable
      else
        (match PyInt(secMs[1])
         case Some(millis) => minutes * 60000 + seconds * 1000 + millis
         case None => Unreadable)
    case _ => Unreadable
  }

  lemma DigitsLackChar(s: string, c: char)
    requires AllDigits(s) && !IsDigit(c)
    ensures c !in s
  {
  }

  lemma ClockStrip(m: string, sec: string, u: string)
    requires |m| > 0 && |u| > 0 && AllDigits(m) && AllDigits(u)
    ensures Strip(m + ":" + sec + "." + u) == m + ":" + sec + "." + u
  {
    var s := m + ":" + sec + "." + u;
    assert s[|s| - 1] == u[|u| - 1];
    assert s[0] == m[0];
    StripNoSpaceEnds(s);
  }

  lemma ClockSplit(m: string, sec: string, u: string)
    requires AllDigits(m) && AllDigits(sec) && AllDigits(u)
    ensures Split(m + ":" + sec + "." + u, ':') == [m, sec + "." + u]
  {
    var tail := sec + "." + u;
    DigitsLackChar(m, ':');
    assert ':' !in tail by {
      DigitsLackChar(sec, ':');
      DigitsLackChar(u, ':');
    }
    assert m + ":" + sec + "." + u == m + [':'] + tail;
    SplitFirst(m, ':', tail);
    SplitNone(tail, ':');
  }

  lemma ClockPieces(m: string, sec: string, u: string)
    requires |m| > 0 && |sec| > 0 && |u| > 0
    requires AllDigits(m) && AllDigits(sec) && AllDigits(u)
    ensures ReadPieces([m, sec + "." + u]) == Value(m) * 60000 + Value(sec) * 1000 + Value(u)
  {
    var tail := sec + "." + u;
    assert Split(tail, '.') == [sec, u] by {
      DigitsLackChar(sec, '.');
      DigitsLackChar(u, '.');
      assert tail == sec + ['.'] + u;
      SplitFirst(sec, '.', u);
      SplitNone(u, '.');
    }
    PyIntOfDigits(m);
    PyIntOfDigits(sec);
    PyIntOfDigits(u);
  }

  /** Well-formed clock text `m:s.u` reads as `m*60000 + s*1000 + u`. */
  lemma ParseClock(m: string, sec: string, u: string)
    requires |m| > 0 && |sec| > 0 && |u| > 0
    requires AllDigits(m) && AllDigits(sec) && AllDigits(u)
    ensures TimeStringToMs(m + ":" + sec + "." + u) == Value(m) * 60000 + Value(sec) * 1000 + Value(u)
  {
    var s := m + ":" + sec + "." + u;
    ClockStrip(m, sec, u);
    assert ':' in s && '.' in s by {
      assert s[|m|] == ':' && s[|m| + 1 + |sec|] == '.';
    }
    ClockSplit(m, sec, u);
    ClockPieces(m, sec, u);
  }

  /** Reading back a rendered duration gives the duration, for every
      positive one; every non-positive one reads back as zero. */
  lemma FormatTimeRoundTrip(ms: int)
    ensures TimeStringToMs(FormatTime(ms)) == if ms > 0 then ms else 0
  {
    if ms > 0 {
      var seconds := (ms % 60000) / 1000;
      var millis := ms % 1000;
      assert FormatTime(ms) == Dec(ms / 60000) + ":" + ZeroPad(seconds, 2) + "." + ZeroPad(millis, 3);
      ParseClock(Dec(ms / 60000), ZeroPad(seconds, 2), ZeroPad(millis, 3));
      ClockArithmetic(ms);
    } else {
      ZeroClockReadsZero();
    }
  }

  lemma ZeroClockPieces()
    ensures ZeroClock == Zeros(2) + ":" + Zeros(2) + "." + Zeros(3)
  {
  }

  /** `00:00.000` reads back as zero. */
  lemma ZeroClockReadsZero()
    ensures TimeStringToMs(ZeroClock) == 0
  {
    ZeroClockPieces();
    ValueLeadingZeros(2, "");
    ValueLeadingZeros(3, "");
    assert Zeros(2) + "" == Zeros(2);
    assert Zeros(3) + "" == Zeros(3);
    ParseClock(Zeros(2), Zeros(2), Zeros(3));
  }

  lemma ClockArithmetic(ms: int)
    requires ms > 0
    ensures ms == (ms / 60000) * 60000 + ((ms % 60000) / 1000) * 1000 + ms % 1000
  {
    var q := ms / 60000;
    var r := ms % 60000;
    assert ms == q * 60000 + r;
    assert r == (r / 1000) * 1000 + r % 1000;
    assert ms % 1000 == r % 1000 by {
      assert ms == (q * 60 + r / 1000) * 1000 + r % 1000;
    }
  }

  /** Distinct positive durations render differently. */
  lemma FormatTimeInjective(a: int, b: int)
    requires a > 0 && b > 0 && FormatTime(a) == FormatTime(b)
    ensures a == b
  {
    FormatTimeRoundTrip(a);
    FormatTimeRoundTrip(b);
  }

  /** Text that strips to something of length at least two is neither empty
      nor `-`. */
  lemma NotBlankOrDash(text: string)
    requires |Strip(text)| >= 2
    ensures |text| > 0 && text != "-"
  {
    if text == "-" {
      StripNoSpaceEnds(text);
    }
  }

  /** The pieces of `m:s.u` when no piece holds a separator it is cut at. */
  lemma ClockParts(m: string, sec: string, u: string)
    requires ':' !in m && ':' !in sec && ':' !in u && '.' !in sec && '.' !in u
    ensures Split(m + ":" + sec + "." + u, ':') == [m, sec + "." + u]
    ensures Split(sec + "." + u, '.') == [sec, u]
  {
    var tail := sec + "." + u;
    assert ':' !in tail;
    assert m + ":" + sec + "." + u == m + [':'] + tail;
    SplitFirst(m, ':', tail);
    SplitNone(tail, ':');
    assert tail == sec + ['.'] + u;
    SplitFirst(sec, '.', u);
    SplitNone(u, '.');
  }

  /** Stripped text holding `:` and `.` is read piece by piece. */
  lemma ReadsPieces(text: string)
    requires |Strip(text)| >= 2 && ':' in Strip(text) && '.' in Strip(text)
    ensures TimeStringToMs(text) == ReadPieces(Split(Strip(text), ':'))
  {
    NotBlankOrDash(text);
    CountZero(Strip(text), ':');
  }

  /** Clock text `m:s.u` with a piece `int()` rejects is unreadable. */
  lemma RejectedPiece(text: string, m: string, sec: string, u: string)
    requires Strip(text) == m + ":" + sec + "." + u
    requires ':' !in m && ':' !in sec && ':' !in u && '.' !in sec && '.' !in u
    requires PyInt(m).None? || PyInt(sec).None? || PyInt(u).None?
    ensures TimeStringToMs(text) == Unreadable
  {
    var s := Strip(text);
    assert s[|m|] == ':' && s[|m| + 1 + |sec|] == '.';
    ReadsPieces(text);
    ClockParts(m, sec, u);
  }

  /** Text whose second `:`-piece holds no `.` is unreadable: there is no
      milliseconds piece. */
  lemma MissingMillis(text: string, m: string, sec: string, rest: string)
    requires Strip(text) == m + ":" + sec + ":" + rest
    requires ':' !in m && ':' !in sec && '.' !in sec && '.' in rest
    ensures TimeStringToMs(text) == Unreadable
  {
    var s := Strip(text);
    assert ':' in s && '.' in s by {
      assert s[|m|] == ':';
      var k :| 0 <= k < |rest| && rest[k] == '.';
      assert s[|m| + 2 + |sec| + k] == '.';
    }
    ReadsPieces(text);
    SecondPiece(m, sec, rest);
    SplitNone(sec, '.');
  }

  /** The second `:`-piece of `m:s:rest` is `s`. */
  lemma SecondPiece(m: string, sec: string, rest: string)
    requires ':' !in m && ':' !in sec
    ensures |Split(m + ":" + sec + ":" + rest, ':')| >= 2
    ensures Split(m + ":" + sec + ":" + rest, ':')[1] == sec
  {
    var tail := sec + ":" + rest;
    assert m + ":" + sec + ":" + rest == m + [':'] + tail;
    assert tail == sec + [':'] + rest;
    SplitFirst(m, ':', tail);
    SplitFirst(sec, ':', rest);
  }

  /** A field separator inside the seconds piece makes `int()` raise, so
      the text is unreadable although `str.strip` would remove the same
      character at either end. */
  lemma SeparatorInSeconds()
    ensures TimeStringToMs("1:\U{1C}05.000") == Unreadable
  {
    var sec := "\U{1C}05";
    var text := "1" + ":" + sec + "." + "000";
    assert text == "1:\U{1C}05.000";
    assert text[0] == '1' && text[|text| - 1] == '0';
    StripNoSpaceEnds(text);
    assert sec == ['\U{1C}'] + "05";
    PyIntRejectsStart('\U{1C}', "05");
    RejectedPiece(text, "1", sec, "000");
  }

  /** Clock text as `_format_time` writes it for a positive duration:
      seconds below 60 and minutes without a leading zero. */
  predicate Canonical(s: string) {
    IsClock(s) && Value(SecondsField(s)) < 60 && (s[0] == '0' ==> |s| == 8)
  }

  /** Clock text is its three fields joined by `:` and `.`. */
  lemma ClockJoin(s: string)
    requires IsClock(s)
    ensures s == MinutesField(s) + ":" + SecondsField(s) + "." + MillisField(s)
  {
  }

  /** Clock text reads as its three fields. */
  lemma ClockValue(s: string)
    requires IsClock(s)
    ensures TimeStringToMs(s) ==
      Value(MinutesField(s)) * 60000 + Value(SecondsField(s)) * 1000 + Value(MillisField(s))
  {
    ClockJoin(s);
    ParseClock(MinutesField(s), SecondsField(s), MillisField(s));
  }

  lemma MinutesSplit(ms: int, m: nat, sec: nat, u: nat)
    requires sec < 60 && u < 1000 && ms == m * 60000 + sec * 1000 + u
    ensures ms / 60000 == m && (ms % 60000) / 1000 == sec && ms % 1000 == u
  {
    assert ms % 60000 == sec * 1000 + u;
    assert ms % 1000 == u by {
      assert ms == (m * 60 + sec) * 1000 + u;
    }
  }

  lemma FormatTimeIs(ms: int)
    requires ms > 0
    ensures FormatTime(ms) == Dec(ms / 60000) + ":" + ZeroPad((ms % 60000) / 1000, 2) + "." + ZeroPad(ms % 1000, 3)
  {
  }

  /** The fields of canonical clock text reading as `ms` are the ones
      `FormatTime` writes. */
  lemma CanonicalFields(s: string, ms: int)
    requires ms > 0 && Canonical(s) && TimeStringToMs(s) == ms
    ensures MinutesField(s) == Dec(ms / 60000)
    ensures SecondsField(s) == ZeroPad((ms % 60000) / 1000, 2)
    ensures MillisField(s) == ZeroPad(ms % 1000, 3)
  {
    var m, sec, u := MinutesField(s), SecondsField(s), MillisField(s);
    ClockValue(s);
    ValueBelow(u);
    MinutesSplit(ms, Value(m), Value(sec), Value(u));
    var seconds := (ms % 60000) / 1000;
    var millis := ms % 1000;
    DecWidth(seconds, 2);
    ValueInjective(sec, ZeroPad(seconds, 2));
    DecWidth(millis, 3);
    ValueInjective(u, ZeroPad(millis, 3));
    assert m[0] == s[0];
    DecOfMinimal(m);
  }

  /** `FormatTime(ms)` is the only canonical clock text that reads back as
      the positive duration `ms`. */
  lemma FormatTimeCanonical(s: string, ms: int)
    requires ms > 0 && Canonical(s) && TimeStringToMs(s) == ms
    ensures s == FormatTime(ms)
  {
    CanonicalFields(s, ms);
    FormatTimeIs(ms);
    ClockJoin(s);
  }
}

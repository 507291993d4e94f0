// oaCapture's output file name (OutputHandler's constructor): the
// configured template has its %TOKENs replaced by the local date and time
// fields, zero-padded to two digits, and the epoch seconds and the current
// filter and profile names; a name that does not start with '/' is put in
// the capture directory, or failing that the current directory.
//
// QString::replace(before, after) replaces every occurrence of before,
// scanning left to right and not rescanning what it inserts.

module OutputHandler {
  import opened Bytes

  /** QString::replace(pat, rep) on s. */
  function ReplaceAll(s: string, pat: string, rep: string): (r: string)
    requires |pat| > 0
    decreases |s|
  {
    if |s| < |pat| then s
    else if s[..|pat|] == pat then rep + ReplaceAll(s[|pat|..], pat, rep)
    else [s[0]] + ReplaceAll(s[1..], pat, rep)
  }

  /** pat occurs in s at index i. */
  predicate At(s: string, pat: string, i: int)
  {
    0 <= i && i + |pat| <= |s| && s[i..i + |pat|] == pat
  }

  /** pat occurs somewhere in s. */
  ghost predicate Occurs(s: string, pat: string)
  {
    exists i :: At(s, pat, i)
  }

  /** What occurs in s[d..] occurs in s, d places on. */
  lemma AtSuffix(s: string, pat: string, d: nat, i: int)
    requires d <= |s| && At(s[d..], pat, i)
    ensures At(s, pat, i + d)
  {
    assert s[d..][i..i + |pat|] == s[i + d..i + d + |pat|];
  }

  /** What occurs in t after a prefix u occurs in u + t. */
  lemma AtAfter(u: string, t: string, pat: string, i: int)
    requires 0 <= i - |u| && i + |pat| <= |u + t| && At(u + t, pat, i)
    ensures At(t, pat, i - |u|)
  {
    assert (u + t)[i..i + |pat|] == t[i - |u|..i - |u| + |pat|];
  }

  /** A string in which pat does not occur is left as it is. */
  lemma {:induction false} ReplaceAbsent(s: string, pat: string, rep: string)
    requires |pat| > 0 && !Occurs(s, pat)
    ensures ReplaceAll(s, pat, rep) == s
    decreases |s|
  {
    if |s| >= |pat| {
      assert !At(s, pat, 0);
      assert !Occurs(s[1..], pat) by {
        forall i | At(s[1..], pat, i)
          ensures false
        {
          AtSuffix(s, pat, 1, i);
        }
      }
      ReplaceAbsent(s[1..], pat, rep);
    }
  }

  /** Up to the first inserted character, the result is the string
      itself: so a prefix of the result made only of characters of pat0,
      when the replacement does not start with one, is a prefix of s. */
  lemma {:induction false} CopiedPrefix(s: string, pat: string, rep: string, pat0: string, n: nat)
    requires |pat| > 0 && |rep| > 0 && rep[0] !in pat0
    requires n <= |ReplaceAll(s, pat, rep)|
    requires forall i :: 0 <= i < n ==> ReplaceAll(s, pat, rep)[i] in pat0
    ensures n <= |s| && ReplaceAll(s, pat, rep)[..n] == s[..n]
    decreases |s|
  {
    var r := ReplaceAll(s, pat, rep);
    if |s| < |pat| {
    } else if s[..|pat|] == pat {
      assert r == rep + ReplaceAll(s[|pat|..], pat, rep);
      assert r[0] == rep[0];
    } else if n > 0 {
      var r' := ReplaceAll(s[1..], pat, rep);
      assert r == [s[0]] + r';
      forall i | 0 <= i < n - 1
        ensures r'[i] in pat0
      {
        assert r'[i] == r[i + 1];
      }
      CopiedPrefix(s[1..], pat, rep, pat0, n - 1);
      assert r[..n] == [s[0]] + r'[..n - 1];
    }
  }

  /** An occurrence of pat0 at the front of [c] + r', where r' is the
      replacement's result on t and the replacement does not start with a
      character of pat0, is one at the front of [c] + t. */
  lemma FrontOccurrence(c: char, t: string, pat: string, rep: string, pat0: string)
    requires |pat| > 0 && |rep| > 0 && |pat0| > 0 && rep[0] !in pat0
    requires At([c] + ReplaceAll(t, pat, rep), pat0, 0)
    ensures At([c] + t, pat0, 0)
  {
    var r' := ReplaceAll(t, pat, rep);
    var r := [c] + r';
    forall j | 0 <= j < |pat0| - 1
      ensures r'[j] in pat0
    {
      assert r'[j] == r[j + 1] == pat0[j + 1];
    }
    CopiedPrefix(t, pat, rep, pat0, |pat0| - 1);
    assert ([c] + t)[..|pat0|] == [c] + t[..|pat0| - 1] == r[..|pat0|];
  }

  /** No occurrence of pat0 starts inside a text none of whose characters
      is in pat0. */
  lemma NoneStartsIn(rep: string, x: string, pat0: string, i: int)
    requires |pat0| > 0 && 0 <= i < |rep|
    requires forall k :: 0 <= k < |rep| ==> rep[k] !in pat0
    ensures !At(rep + x, pat0, i)
  {
    assert (rep + x)[i] == rep[i];
    assert i + |pat0| <= |rep + x| ==> (rep + x)[i..i + |pat0|][0] == (rep + x)[i];
  }

  /** Replacing pat by a non-empty text none of whose characters is in
      pat0 never creates an occurrence of pat0. */
  lemma {:induction false} ReplaceKeepsAbsent(s: string, pat: string, rep: string, pat0: string)
    requires |pat| > 0 && |rep| > 0 && |pat0| > 0
    requires forall k :: 0 <= k < |rep| ==> rep[k] !in pat0
    requires !Occurs(s, pat0)
    ensures !Occurs(ReplaceAll(s, pat, rep), pat0)
    decreases |s|
  {
    var r := ReplaceAll(s, pat, rep);
    if |s| < |pat| {
    } else {
      var matched := s[..|pat|] == pat;
      var d := if matched then |pat| else 1;
      var t := s[d..];
      assert !Occurs(t, pat0) by {
        forall i | At(t, pat0, i)
          ensures false
        {
          AtSuffix(s, pat0, d, i);
        }
      }
      ReplaceKeepsAbsent(t, pat, rep, pat0);
      var u := if matched then rep else [s[0]];
      assert r == u + ReplaceAll(t, pat, rep);
      forall i | At(r, pat0, i)
        ensures false
      {
        if i >= |u| {
          AtAfter(u, ReplaceAll(t, pat, rep), pat0, i);
        } else if matched {
          NoneStartsIn(rep, ReplaceAll(t, pat, rep), pat0, i);
        } else {
          assert [s[0]] + t == s;
          FrontOccurrence(s[0], t, pat, rep, pat0);
        }
      }
    }
  }

  /** After replacing pat by a non-empty text none of whose characters is
      in pat, pat no longer occurs. */
  lemma {:induction false} ReplaceRemoves(s: string, pat: string, rep: string)
    requires |pat| > 0 && |rep| > 0
    requires forall k :: 0 <= k < |rep| ==> rep[k] !in pat
    ensures !Occurs(ReplaceAll(s, pat, rep), pat)
    decreases |s|
  {
    var r := ReplaceAll(s, pat, rep);
    if |s| >= |pat| {
      var matched := s[..|pat|] == pat;
      var d := if matched then |pat| else 1;
      var t := s[d..];
      ReplaceRemoves(t, pat, rep);
      var u := if matched then rep else [s[0]];
      assert r == u + ReplaceAll(t, pat, rep);
      forall i | At(r, pat, i)
        ensures false
      {
        if i >= |u| {
          AtAfter(u, ReplaceAll(t, pat, rep), pat, i);
        } else if matched {
          NoneStartsIn(rep, ReplaceAll(t, pat, rep), pat, i);
        } else {
          assert [s[0]] + t == s;
          FrontOccurrence(s[0], t, pat, rep, pat);
        }
      }
    }
  }

  /** A string with no '%' has no %TOKEN to replace. */
  lemma {:induction false} ReplaceNoPercent(s: string, pat: string, rep: string)
    requires |pat| > 0 && pat[0] == '%' && '%' !in s
    ensures ReplaceAll(s, pat, rep) == s
    decreases |s|
  {
    if |s| >= |pat| {
      assert s[..|pat|][0] == s[0];
      ReplaceNoPercent(s[1..], pat, rep);
    }
  }

  // ---------------------------------------------------------------------
  // The fields
  // ---------------------------------------------------------------------

  /** The fields of localtime's struct tm that the name uses. */
  datatype Tm = Tm(sec: int, min: int, hour: int, mday: int, mon: int, year: int)

  /** QString::setNum of a field, with "0" put in front of a value below
      10. */
  function Field(v: int): (s: string)
  {
    (if v < 10 then "0" else "") + FormatInt(v)
  }

  /** A field between 0 and 99 takes exactly two digits, the value's own
      digits zero-padded as %02d would, and reads back as the value; from
      10 on it is setNum's text unchanged. */
  lemma FieldTwoDigits(v: int)
    requires 0 <= v < 100
    ensures Field(v) == FormatIntZeroPad(v, 2)
    ensures |Field(v)| == 2 && AllDigits(Field(v)) && DecValue(Field(v)) == v
    ensures v >= 10 ==> Field(v) == FormatInt(v)
  {
    DecValueOfNatToDec(v);
    if v < 10 {
      assert NatToDec(v) == [DigitChar(v)];
      assert FormatInt(v) == Zeros(0) + NatToDec(v);
      assert FormatIntZeroPad(v, 2) == Zeros(1) + NatToDec(v);
      assert Zeros(1) == "0";
      DecValueZerosPrefix(1, NatToDec(v));
    } else {
      NatToDecLength(v, 2);
      assert FormatInt(v) == Zeros(0) + NatToDec(v);
      assert FormatIntZeroPad(v, 2) == Zeros(0) + NatToDec(v);
    }
  }

  /** The texts that replace the tokens. */
  datatype Values = Values(date: string, time: string, year: string, month: string, day: string,
                           hours: string, minutes: string, seconds: string, epoch: string,
                           filter: string, profile: string)

  /** The date and time texts of a struct tm and the epoch seconds: the
      month is tm_mon + 1, padded when tm_mon is below 9, the year is
      tm_year + 1900 unpadded, the date is year, month and day, the time
      hours, minutes and seconds. */
  function TimeValues(tm: Tm, epochSecs: int, filter: string, profile: string): (v: Values)
    ensures v.date == v.year + v.month + v.day && v.time == v.hours + v.minutes + v.seconds
    ensures v.year == FormatInt(tm.year + 1900) && v.epoch == FormatInt(epochSecs)
  {
    var month := (if tm.mon < 9 then "0" else "") + FormatInt(tm.mon + 1);
    var year := FormatInt(tm.year + 1900);
    Values(year + month + Field(tm.mday), Field(tm.hour) + Field(tm.min) + Field(tm.sec),
           year, month, Field(tm.mday), Field(tm.hour), Field(tm.min), Field(tm.sec),
           FormatInt(epochSecs), filter, profile)
  }

  /** localtime's ranges give two-digit fields: minutes, seconds (up to a
      leap second) and hours, the day of the month, and the month
      tm_mon + 1, each reading back as its value. */
  lemma TimeFieldsTwoDigits(tm: Tm, epochSecs: int, filter: string, profile: string)
    requires 0 <= tm.sec <= 60 && 0 <= tm.min < 60 && 0 <= tm.hour < 24
    requires 1 <= tm.mday <= 31 && 0 <= tm.mon < 12
    ensures var v := TimeValues(tm, epochSecs, filter, profile);
      |v.seconds| == |v.minutes| == |v.hours| == |v.day| == |v.month| == 2 &&
      AllDigits(v.month) && AllDigits(v.day) && AllDigits(v.hours) && AllDigits(v.minutes) &&
      AllDigits(v.seconds) &&
      DecValue(v.month) == tm.mon + 1 && DecValue(v.day) == tm.mday &&
      DecValue(v.hours) == tm.hour && DecValue(v.minutes) == tm.min && DecValue(v.seconds) == tm.sec &&
      |v.time| == 6
  {
    var v := TimeValues(tm, epochSecs, filter, profile);
    FieldTwoDigits(tm.sec);
    FieldTwoDigits(tm.min);
    FieldTwoDigits(tm.hour);
    FieldTwoDigits(tm.mday);
    FieldTwoDigits(tm.mon + 1);
    assert v.month == Field(tm.mon + 1);
    assert v.seconds == Field(tm.sec) && v.minutes == Field(tm.min) && v.hours == Field(tm.hour);
    assert v.day == Field(tm.mday);
  }

  // ---------------------------------------------------------------------
  // The name
  // ---------------------------------------------------------------------

  /** The replacements of OutputHandler's constructor, in their order: the
      long tokens first, then the short ones. */
  function Substitute(template: string, v: Values): (name: string)
    ensures '%' !in template ==> name == template
  {
    if '%' !in template then
      ReplaceNoPercent(template, "%DATE", v.date);
      LongsNoPercent(template, v);
      ShortsNoPercent(template, v);
      Shorts(Longs(ReplaceAll(template, "%DATE", v.date), v), v)
    else
      Shorts(Longs(ReplaceAll(template, "%DATE", v.date), v), v)
  }

  /** The long tokens after %DATE. */
  function Longs(s1: string, v: Values): (s11: string)
  {
    var s2 := ReplaceAll(s1, "%TIME", v.time);
    var s3 := ReplaceAll(s2, "%YEAR", v.year);
    var s4 := ReplaceAll(s3, "%MONTH", v.month);
    var s5 := ReplaceAll(s4, "%DAY", v.day);
    var s6 := ReplaceAll(s5, "%HOUR", v.hours);
    var s7 := ReplaceAll(s6, "%MINUTE", v.minutes);
    var s8 := ReplaceAll(s7, "%SECOND", v.seconds);
    var s9 := ReplaceAll(s8, "%EPOCH", v.epoch);
    var s10 := ReplaceAll(s9, "%FILTER", v.filter);
    ReplaceAll(s10, "%PROFILE", v.profile)
  }

  /** The short tokens. */
  function Shorts(s11: string, v: Values): (name: string)
  {
    var s12 := ReplaceAll(s11, "%D", v.date);
    var s13 := ReplaceAll(s12, "%T", v.time);
    var s14 := ReplaceAll(s13, "%Y", v.year);
    var s15 := ReplaceAll(s14, "%M", v.month);
    var s16 := ReplaceAll(s15, "%d", v.day);
    var s17 := ReplaceAll(s16, "%H", v.hours);
    var s18 := ReplaceAll(s17, "%M", v.minutes);
    var s19 := ReplaceAll(s18, "%S", v.seconds);
    ReplaceAll(s19, "%E", v.epoch)
  }

  /** As written, a template "%M" gives the month, never the minutes. */
  lemma MinutesTokenGivesMonth(v: Values)
    requires |v.month| > 0 && AllDigits(v.month)
    ensures Shorts("%M", v) == v.month
  {
    var m := "%M";
    assert m[..2] == "%M" && m[2..] == [];
    assert ReplaceAll(m, "%D", v.date) == m;
    assert ReplaceAll(m, "%T", v.time) == m;
    assert ReplaceAll(m, "%Y", v.year) == m;
    assert ReplaceAll(m, "%M", v.month) == v.month + ReplaceAll([], "%M", v.month) == v.month;
    NoPercentInDigits(v.month);
    ReplaceNoPercent(v.month, "%d", v.day);
    ReplaceNoPercent(v.month, "%H", v.hours);
    ReplaceNoPercent(v.month, "%M", v.minutes);
    ReplaceNoPercent(v.month, "%S", v.seconds);
    ReplaceNoPercent(v.month, "%E", v.epoch);
  }

  /** A string of digits holds no '%'. */
  lemma NoPercentInDigits(s: string)
    requires AllDigits(s)
    ensures '%' !in s
  {
    forall i | 0 <= i < |s|
      ensures s[i] != '%'
    {
      assert IsDigit(s[i]);
    }
  }

  /** The short tokens with the month taken by "%m", as in strftime, so
      that "%M" is left for the minutes. */
  function ShortsFixed(s11: string, v: Values): (name: string)
  {
    var s12 := ReplaceAll(s11, "%D", v.date);
    var s13 := ReplaceAll(s12, "%T", v.time);
    var s14 := ReplaceAll(s13, "%Y", v.year);
    var s15 := ReplaceAll(s14, "%m", v.month);
    var s16 := ReplaceAll(s15, "%d", v.day);
    var s17 := ReplaceAll(s16, "%H", v.hours);
    var s18 := ReplaceAll(s17, "%M", v.minutes);
    var s19 := ReplaceAll(s18, "%S", v.seconds);
    ReplaceAll(s19, "%E", v.epoch)
  }

  /** With the month on "%m", "%M" gives the minutes and "%m" the month. */
  lemma ShortsFixedMinutes(v: Values)
    requires |v.month| > 0 && AllDigits(v.month) && |v.minutes| > 0 && AllDigits(v.minutes)
    ensures ShortsFixed("%M", v) == v.minutes
    ensures ShortsFixed("%m", v) == v.month
  {
    var big, small := "%M", "%m";
    assert big[..2] == "%M" && big[2..] == [] && small[..2] == "%m" && small[2..] == [];
    assert ReplaceAll(big, "%D", v.date) == big && ReplaceAll(big, "%T", v.time) == big;
    assert ReplaceAll(big, "%Y", v.year) == big && ReplaceAll(big, "%m", v.month) == big;
    assert ReplaceAll(big, "%d", v.day) == big && ReplaceAll(big, "%H", v.hours) == big;
    assert ReplaceAll(small, "%D", v.date) == small && ReplaceAll(small, "%T", v.time) == small;
    assert ReplaceAll(small, "%Y", v.year) == small;
    assert ReplaceAll(big, "%M", v.minutes) == v.minutes + ReplaceAll([], "%M", v.minutes) == v.minutes;
    assert ReplaceAll(small, "%m", v.month) == v.month + ReplaceAll([], "%m", v.month) == v.month;
    NoPercentInDigits(v.minutes);
    NoPercentInDigits(v.month);
    ReplaceNoPercent(v.minutes, "%S", v.seconds);
    ReplaceNoPercent(v.minutes, "%E", v.epoch);
    ReplaceNoPercent(v.month, "%d", v.day);
    ReplaceNoPercent(v.month, "%H", v.hours);
    ReplaceNoPercent(v.month, "%M", v.minutes);
    ReplaceNoPercent(v.month, "%S", v.seconds);
    ReplaceNoPercent(v.month, "%E", v.epoch);
  }

  /** The second "%M" replacement, meant for the minutes, never finds
      anything: the month's "%M" just before it has taken every "%M", and
      the day and hours replacements in between put none back. So %M
      always gives the month, and the minutes only come from %MINUTE and
      %TIME. */
  lemma MinutesShortTokenUnused(s14: string, v: Values)
    requires |v.month| > 0 && |v.day| > 0 && |v.hours| > 0
    requires AllDigits(v.month) && AllDigits(v.day) && AllDigits(v.hours)
    ensures var s15 := ReplaceAll(s14, "%M", v.month);
      var s17 := ReplaceAll(ReplaceAll(s15, "%d", v.day), "%H", v.hours);
      ReplaceAll(s17, "%M", v.minutes) == s17
  {
    var s15 := ReplaceAll(s14, "%M", v.month);
    ReplaceRemoves(s14, "%M", v.month);
    var s16 := ReplaceAll(s15, "%d", v.day);
    ReplaceKeepsAbsent(s15, "%d", v.day, "%M");
    var s17 := ReplaceAll(s16, "%H", v.hours);
    ReplaceKeepsAbsent(s16, "%H", v.hours, "%M");
    ReplaceAbsent(s17, "%M", v.minutes);
  }

  /** The long tokens after %DATE leave a string with no '%' as it is. */
  lemma LongsNoPercent(s: string, v: Values)
    requires '%' !in s
    ensures Longs(s, v) == s
  {
    ReplaceNoPercent(s, "%TIME", v.time);
    ReplaceNoPercent(s, "%YEAR", v.year);
    ReplaceNoPercent(s, "%MONTH", v.month);
    ReplaceNoPercent(s, "%DAY", v.day);
    ReplaceNoPercent(s, "%HOUR", v.hours);
    ReplaceNoPercent(s, "%MINUTE", v.minutes);
    ReplaceNoPercent(s, "%SECOND", v.seconds);
    ReplaceNoPercent(s, "%EPOCH", v.epoch);
    ReplaceNoPercent(s, "%FILTER", v.filter);
    ReplaceNoPercent(s, "%PROFILE", v.profile);
  }

  /** The short tokens leave a string with no '%' as it is. */
  lemma ShortsNoPercent(s: string, v: Values)
    requires '%' !in s
    ensures Shorts(s, v) == s
  {
    ReplaceNoPercent(s, "%D", v.date);
    ReplaceNoPercent(s, "%T", v.time);
    ReplaceNoPercent(s, "%Y", v.year);
    ReplaceNoPercent(s, "%M", v.month);
    ReplaceNoPercent(s, "%d", v.day);
    ReplaceNoPercent(s, "%H", v.hours);
    ReplaceNoPercent(s, "%M", v.minutes);
    ReplaceNoPercent(s, "%S", v.seconds);
    ReplaceNoPercent(s, "%E", v.epoch);
  }

  /** A long token is replaced whole before the short token it starts
      with can take its first two characters: "%DATE" gives the date, not
      the date followed by "ATE". */
  lemma DateTokenWhole(v: Values)
    requires AllDigits(v.date)
    ensures Substitute("%DATE", v) == v.date
  {
    var s := v.date;
    assert "%DATE"[..5] == "%DATE" && "%DATE"[5..] == [];
    assert ReplaceAll("%DATE", "%DATE", v.date) == v.date + ReplaceAll([], "%DATE", v.date);
    assert ReplaceAll([], "%DATE", v.date) == [];
    forall i | 0 <= i < |s|
      ensures s[i] != '%'
    {
      assert IsDigit(s[i]);
    }
    assert ReplaceAll("%DATE", "%DATE", v.date) == s;
    LongsNoPercent(s, v);
    ShortsNoPercent(s, v);
  }

  /** The directory prefix: a name not starting with '/' (an empty one
      included, whose first QChar is a null) is put in the capture
      directory, or in the current directory when no capture directory is
      configured. */
  function Prefixed(name: string, captureDir: string, currentDir: string): (path: string)
    ensures |name| > 0 && name[0] == '/' ==> path == name
    ensures !(|name| > 0 && name[0] == '/') ==>
              path == (if captureDir != "" then captureDir else currentDir) + "/" + name
    ensures |path| >= |name| && path[|path| - |name|..] == name
  {
    if |name| > 0 && name[0] == '/' then name
    else if captureDir != "" then captureDir + "/" + name
    else currentDir + "/" + name
  }

  /** An absolute capture directory, or failing that an absolute current
      directory, makes every name absolute. */
  lemma PrefixedAbsolute(name: string, captureDir: string, currentDir: string)
    requires captureDir != "" ==> captureDir[0] == '/'
    requires captureDir == "" ==> |currentDir| > 0 && currentDir[0] == '/'
    ensures var path := Prefixed(name, captureDir, currentDir); |path| > 0 && path[0] == '/'
  {
  }

  /** The name OutputHandler's constructor makes. */
  function FileName(template: string, v: Values, captureDir: string, currentDir: string): (path: string)
    ensures var name := Substitute(template, v); |path| >= |name| && path[|path| - |name|..] == name
    ensures (captureDir != "" ==> captureDir[0] == '/') && (captureDir == "" ==> |currentDir| > 0 && currentDir[0] == '/')
            ==> |path| > 0 && path[0] == '/'
  {
    Prefixed(Substitute(template, v), captureDir, currentDir)
  }

  /** OutputHandler's name and frame count. */
  class Handler {
    var filename: string
    var fullSaveFilePath: string
    var frameCount: nat

    /** The constructor: the template's replacements in place, then the
        directory prefix. */
    constructor (template: string, tm: Tm, epochSecs: int, filter: string, profile: string,
                 captureDir: string, currentDir: string)
      ensures filename == FileName(template, TimeValues(tm, epochSecs, filter, profile), captureDir, currentDir)
      ensures fullSaveFilePath == ""
    {
      var v := TimeValues(tm, epochSecs, filter, profile);
      var name := template;
      name := ReplaceAll(name, "%DATE", v.date);
      name := ReplaceAll(name, "%TIME", v.time);
      name := ReplaceAll(name, "%YEAR", v.year);
      name := ReplaceAll(name, "%MONTH", v.month);
      name := ReplaceAll(name, "%DAY", v.day);
      name := ReplaceAll(name, "%HOUR", v.hours);
      name := ReplaceAll(name, "%MINUTE", v.minutes);
      name := ReplaceAll(name, "%SECOND", v.seconds);
      name := ReplaceAll(name, "%EPOCH", v.epoch);
      name := ReplaceAll(name, "%FILTER", v.filter);
      name := ReplaceAll(name, "%PROFILE", v.profile);
      name := ReplaceAll(name, "%D", v.date);
      name := ReplaceAll(name, "%T", v.time);
      name := ReplaceAll(name, "%Y", v.year);
      name := ReplaceAll(name, "%M", v.month);
      name := ReplaceAll(name, "%d", v.day);
      name := ReplaceAll(name, "%H", v.hours);
      name := ReplaceAll(name, "%M", v.minutes);
      name := ReplaceAll(name, "%S", v.seconds);
      name := ReplaceAll(name, "%E", v.epoch);
      if |name| == 0 || name[0] != '/' {
        if captureDir != "" {
          name := captureDir + "/" + name;
        } else {
          name := currentDir + "/" + name;
        }
      }
      filename := name;
      fullSaveFilePath := "";
      frameCount := 0;
    }

  }
}

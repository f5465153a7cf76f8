/**
 * The names the downloader builds from a date and a segment id: the
 * zero-padded date fields, the per-date directory key `year_month_day`,
 * the stream's base URL, a segment's URL, and the paths of the files it
 * keeps for a segment and for the finished video.
 */
module Naming {
  import opened Decimal

  /** A date as the downloader keeps it: three fields already formatted. */
  datatype Date = Date(year: string, month: string, day: string)

  const BaseUrlPrefix: string :=
    "https://videostream.skai.gr/skaivod/_definst_/mp4:skai/GrCyTargeting/Gr/Survivor/survivor"
  const BaseUrlSuffix: string := "xxxx.mp4/media_"

  /** Left-pads `s` with '0' up to length `width`. */
  function ZeroPad(s: string, width: nat): (r: string)
    ensures |s| >= width ==> r == s
    ensures |s| < width ==> |r| == width && r[width - |s|..] == s
    ensures forall i :: 0 <= i < width - |s| ==> r[i] == '0'
    decreases if |s| < width then width - |s| else 0
  {
    if |s| >= width then s else ZeroPad("0" + s, width)
  }

  /**
   * Python's `f'{v:02d}'`: the decimal numeral of `v`, with the sign (if any)
   * counting towards a width of two that is filled with zeros.
   */
  function TwoDigitField(v: int): (s: string)
    ensures 2 <= |s|
    ensures 0 <= v < 10 ==> s == "0" + DecimalString(v)
    ensures 10 <= v ==> s == DecimalString(v)
    ensures v < 0 ==> s == "-" + DecimalString(-v)
  {
    if v < 0 then "-" + ZeroPad(DecimalString(-v), 1) else ZeroPad(DecimalString(v), 2)
  }

  /** The strings `TwoDigitField` can produce: a numeral, possibly after a minus sign. */
  predicate IsField(s: string) {
    if 0 < |s| && s[0] == '-' then 2 <= |s| && AllDigits(s[1..]) else 1 <= |s| && AllDigits(s)
  }

  /** The integer a field denotes. */
  function FieldValue(s: string): int
    requires IsField(s)
  {
    var magnitude: int := if s[0] == '-' then ParseDecimal(s[1..]) else ParseDecimal(s);
    if s[0] == '-' then -magnitude else magnitude
  }

  /** Reading a formatted field back gives the integer it was formatted from. */
  lemma TwoDigitFieldRoundTrip(v: int)
    ensures IsField(TwoDigitField(v)) && FieldValue(TwoDigitField(v)) == v
  {
    var s := TwoDigitField(v);
    if v < 0 {
      assert s[1..] == DecimalString(-v);
      ParseDecimalString(-v);
    } else if v < 10 {
      ParseLeadingZero(DecimalString(v));
      ParseDecimalString(v);
    } else {
      ParseDecimalString(v);
    }
  }

  /** A field holds digits and possibly a leading '-', never the separator '_'. */
  lemma FieldHasNoUnderscore(s: string)
    requires IsField(s)
    ensures '_' !in s
  {
  }

  /** `Date(year, month, day)`: each field zero-padded to two characters. */
  function MakeDate(year: int, month: int, day: int): Date {
    Date(TwoDigitField(year), TwoDigitField(month), TwoDigitField(day))
  }

  /** A date keeps its three integers: each field reads back as the value given. */
  lemma MakeDateRoundTrip(year: int, month: int, day: int)
    ensures var date := MakeDate(year, month, day);
      IsField(date.year) && FieldValue(date.year) == year
      && IsField(date.month) && FieldValue(date.month) == month
      && IsField(date.day) && FieldValue(date.day) == day
  {
    TwoDigitFieldRoundTrip(year);
    TwoDigitFieldRoundTrip(month);
    TwoDigitFieldRoundTrip(day);
  }

  /** The name of a date's directory: `year_month_day`. */
  function DateKey(date: Date): string {
    date.year + "_" + date.month + "_" + date.day
  }

  /** The URL prefix of a date's stream; a segment's id and ".ts" follow it. */
  function BaseUrl(date: Date): string {
    BaseUrlPrefix + date.year + date.month + date.day + BaseUrlSuffix
  }

  /** The URL of segment `id` of the stream at `baseUrl`. */
  function SegmentUrl(baseUrl: string, id: nat): string {
    baseUrl + DecimalString(id) + ".ts"
  }
  /** `tmp/<key>/ts/<id>.ts`: where a downloaded segment is kept. */
  function TsPath(tmpDir: string, date: Date, id: nat): string {
    tmpDir + "/" + DateKey(date) + "/ts/" + DecimalString(id) + ".ts"
  }

  /** `tmp/<key>/mp4/<id>.mp4`: where a converted segment is kept. */
  function Mp4Path(tmpDir: string, date: Date, id: nat): string {
    tmpDir + "/" + DateKey(date) + "/mp4/" + DecimalString(id) + ".mp4"
  }

  /** `downloads/<key>/video.mp4`: the finished video. */
  function VideoPath(downloadsDir: string, date: Date): string {
    downloadsDir + "/" + DateKey(date) + "/video.mp4"
  }

  /** Two strings that agree on a prefix and a suffix agree on what is between. */
  lemma StripAffixes(p: string, x: string, y: string, s: string)
    requires p + x + s == p + y + s
    ensures x == y
  {
    var l := p + x + s;
    assert x == l[|p|..|l| - |s|];
    assert y == l[|p|..|l| - |s|];
  }

  /** The position of the first `c` in `s`, or `|s|` when there is none. */
  function IndexOf(s: string, c: char): nat {
    if s == [] then 0 else if s[0] == c then 0 else 1 + IndexOf(s[1..], c)
  }

  lemma {:induction false} IndexOfSeparator(a: string, b: string, sep: char)
    requires sep !in a
    ensures IndexOf(a + [sep] + b, sep) == |a|
  {
    if a != [] {
      assert (a + [sep] + b)[1..] == a[1..] + [sep] + b;
      IndexOfSeparator(a[1..], b, sep);
    }
  }

  /** Splitting at the first occurrence of a separator is unambiguous. */
  lemma SplitAtSeparator(a: string, b: string, c: string, d: string, sep: char)
    requires sep !in a && sep !in c
    requires a + [sep] + b == c + [sep] + d
    ensures a == c && b == d
  {
    var l := a + [sep] + b;
    IndexOfSeparator(a, b, sep);
    IndexOfSeparator(c, d, sep);
    assert a == l[..|a|];
    assert c == l[..|c|];
    assert b == l[|a| + 1..];
    assert d == l[|c| + 1..];
  }

  /** A directory name `year_month_day` determines its three fields. */
  lemma DateKeySplit(a: Date, b: Date)
    requires IsField(a.year) && IsField(a.month) && IsField(b.year) && IsField(b.month)
    requires DateKey(a) == DateKey(b)
    ensures a == b
  {
    FieldHasNoUnderscore(a.year); FieldHasNoUnderscore(a.month);
    FieldHasNoUnderscore(b.year); FieldHasNoUnderscore(b.month);
    var ra, rb := a.month + "_" + a.day, b.month + "_" + b.day;
    assert DateKey(a) == a.year + ['_'] + ra;
    assert DateKey(b) == b.year + ['_'] + rb;
    SplitAtSeparator(a.year, ra, b.year, rb, '_');
    assert ra == a.month + ['_'] + a.day;
    assert rb == b.month + ['_'] + b.day;
    SplitAtSeparator(a.month, a.day, b.month, b.day, '_');
  }

  /** Different dates get different directories. */
  lemma DateKeyInjective(y1: int, m1: int, d1: int, y2: int, m2: int, d2: int)
    requires DateKey(MakeDate(y1, m1, d1)) == DateKey(MakeDate(y2, m2, d2))
    ensures y1 == y2 && m1 == m2 && d1 == d2
  {
    TwoDigitFieldRoundTrip(y1); TwoDigitFieldRoundTrip(m1); TwoDigitFieldRoundTrip(d1);
    TwoDigitFieldRoundTrip(y2); TwoDigitFieldRoundTrip(m2); TwoDigitFieldRoundTrip(d2);
    DateKeySplit(MakeDate(y1, m1, d1), MakeDate(y2, m2, d2));
  }

  /**
   * Different days of a year give different base URLs, for any year: the
   * month and the day take exactly two characters each, so the year is what
   * is left between the fixed prefix and them.
   */
  lemma BaseUrlInjective(y1: int, m1: int, d1: int, y2: int, m2: int, d2: int)
    requires 0 <= m1 < 100 && 0 <= d1 < 100 && 0 <= m2 < 100 && 0 <= d2 < 100
    requires BaseUrl(MakeDate(y1, m1, d1)) == BaseUrl(MakeDate(y2, m2, d2))
    ensures y1 == y2 && m1 == m2 && d1 == d2
  {
    FieldWidth(m1); FieldWidth(d1); FieldWidth(m2); FieldWidth(d2);
    BaseUrlSplit(MakeDate(y1, m1, d1), MakeDate(y2, m2, d2));
    TwoDigitFieldRoundTrip(y1); TwoDigitFieldRoundTrip(m1); TwoDigitFieldRoundTrip(d1);
    TwoDigitFieldRoundTrip(y2); TwoDigitFieldRoundTrip(m2); TwoDigitFieldRoundTrip(d2);
  }

  /** A month or a day below 100 takes exactly two characters. */
  lemma FieldWidth(v: int)
    requires 0 <= v < 100
    ensures |TwoDigitField(v)| == 2
  {
    if 10 <= v {
      assert DecimalString(v) == DecimalString(v / 10) + [DigitChar(v % 10)];
    }
  }

  lemma BaseUrlSplit(a: Date, b: Date)
    requires |a.month| == 2 && |a.day| == 2 && |b.month| == 2 && |b.day| == 2
    requires BaseUrl(a) == BaseUrl(b)
    ensures a == b
  {
    var x, y := a.year + a.month + a.day, b.year + b.month + b.day;
    assert BaseUrl(a) == BaseUrlPrefix + x + BaseUrlSuffix;
    assert BaseUrl(b) == BaseUrlPrefix + y + BaseUrlSuffix;
    StripAffixes(BaseUrlPrefix, x, y, BaseUrlSuffix);
    assert a.year == x[..|x| - 4] && b.year == y[..|y| - 4];
    assert a.month == x[|x| - 4..|x| - 2] && b.month == y[|y| - 4..|y| - 2];
    assert a.day == x[|x| - 2..] && b.day == y[|y| - 2..];
  }

  /** Different ids of one stream have different URLs. */
  lemma SegmentUrlInjective(baseUrl: string, i: nat, j: nat)
    requires SegmentUrl(baseUrl, i) == SegmentUrl(baseUrl, j)
    ensures i == j
  {
    StripAffixes(baseUrl, DecimalString(i), DecimalString(j), ".ts");
    DecimalStringInjective(i, j);
  }

  /**
   * Within a date's directory, a segment's `.ts` file and its `.mp4` file are
   * distinct, and each names exactly one id: the files present there are
   * described exactly by two sets of ids.
   */
  lemma SegmentPathsDistinct(tmpDir: string, date: Date, i: nat, j: nat)
    ensures TsPath(tmpDir, date, i) == TsPath(tmpDir, date, j) <==> i == j
    ensures Mp4Path(tmpDir, date, i) == Mp4Path(tmpDir, date, j) <==> i == j
    ensures TsPath(tmpDir, date, i) != Mp4Path(tmpDir, date, j)
  {
    var dir := tmpDir + "/" + DateKey(date);
    if TsPath(tmpDir, date, i) == TsPath(tmpDir, date, j) {
      StripAffixes(dir + "/ts/", DecimalString(i), DecimalString(j), ".ts");
      DecimalStringInjective(i, j);
    }
    if Mp4Path(tmpDir, date, i) == Mp4Path(tmpDir, date, j) {
      StripAffixes(dir + "/mp4/", DecimalString(i), DecimalString(j), ".mp4");
      DecimalStringInjective(i, j);
    }
    var t, m := TsPath(tmpDir, date, i), Mp4Path(tmpDir, date, j);
    assert t[|t| - 1] == 's' && m[|m| - 1] == '4';
  }

  /** Different dates' videos go to different files. */
  lemma VideoPathInjective(downloadsDir: string, y1: int, m1: int, d1: int, y2: int, m2: int, d2: int)
    requires VideoPath(downloadsDir, MakeDate(y1, m1, d1)) == VideoPath(downloadsDir, MakeDate(y2, m2, d2))
    ensures y1 == y2 && m1 == m2 && d1 == d2
  {
    StripAffixes(downloadsDir + "/", DateKey(MakeDate(y1, m1, d1)), DateKey(MakeDate(y2, m2, d2)), "/video.mp4");
    DateKeyInjective(y1, m1, d1, y2, m2, d2);
  }
}

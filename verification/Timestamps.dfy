/** Times as the program prints and compares them. The printed form follows section 5.6 of RFC 3339;
    sub-second digits are not printed. */
module Timestamps {
  import opened Decimal

  datatype Time = Time(
    year: int, month: int, day: int,
    hour: int, minute: int, second: int, nanos: int,
    offset: int)  // minutes east of UTC

  predicate InRange(t: Time) {
    && 0 <= t.year <= 9999 && 1 <= t.month <= 12 && 1 <= t.day <= 31
    && 0 <= t.hour < 24 && 0 <= t.minute < 60 && 0 <= t.second < 60
    && 0 <= t.nanos < 1_000_000_000
    && -1440 < t.offset < 1440
  }

  type Timestamp = t: Time | InRange(t) witness Time(1970, 1, 1, 0, 0, 0, 0, 0)

  /** `time.Unix(0, 0).UTC()`. */
  const EPOCH: Timestamp := Time(1970, 1, 1, 0, 0, 0, 0, 0)

  /** The instant a timestamp denotes, in nanoseconds. Calendar arithmetic is not modelled: this is an
      arbitrary function, so every theorem holds for the real one. */
  const Instant: Timestamp -> int

  /** Date and time before the zone. */
  function CivilFields(t: Timestamp): seq<Field> {
    [Field(t.year, 4, "-"), Field(t.month, 2, "-"), Field(t.day, 2, "T"),
     Field(t.hour, 2, ":"), Field(t.minute, 2, ":"), Field(t.second, 2, "")]
  }

  function ZoneFields(minutes: nat): seq<Field> {
    [Field(minutes / 60, 2, ":"), Field(minutes % 60, 2, "")]
  }

  function ZoneSign(offset: int): char {
    if offset == 0 then 'Z' else if offset < 0 then '-' else '+'
  }

  function ZoneTail(offset: int): string {
    if offset == 0 then "" else Print(ZoneFields(if offset < 0 then -offset else offset))
  }

  function Zone(offset: int): string {
    [ZoneSign(offset)] + ZoneTail(offset)
  }

  /** `Timestamp.Format(time.RFC3339)`. */
  function Format(t: Timestamp): string {
    Print(CivilFields(t)) + Zone(t.offset)
  }

  /** Equality of everything the printed form shows: all but the nanoseconds. */
  predicate SameSecond(t: Timestamp, u: Timestamp) {
    t.(nanos := 0) == u.(nanos := 0)
  }

  lemma TwoDigitsFit(n: nat)
    requires n < 100
    ensures Fits(n, 2)
  {
    assert n / 10 / 10 == 0;
  }

  lemma CivilFieldsFit(t: Timestamp)
    ensures AllFit(CivilFields(t))
  {
    TwoDigitsFit(t.year / 10 / 10);
    assert Fits(t.year / 10, 3) && Fits(t.year, 4);
    TwoDigitsFit(t.month);
    TwoDigitsFit(t.day);
    TwoDigitsFit(t.hour);
    TwoDigitsFit(t.minute);
    TwoDigitsFit(t.second);
  }

  lemma ZoneFieldsArePrefixCode(m: nat, rest: string, n: nat, rest': string)
    requires m < 1440 && n < 1440
    requires Print(ZoneFields(m)) + rest == Print(ZoneFields(n)) + rest'
    ensures m == n && rest == rest'
  {
    TwoDigitsFit(m / 60);
    TwoDigitsFit(m % 60);
    TwoDigitsFit(n / 60);
    TwoDigitsFit(n % 60);
    PrintIsPrefixCode(ZoneFields(m), rest, ZoneFields(n), rest');
    assert ZoneFields(m)[0] == ZoneFields(n)[0] && ZoneFields(m)[1] == ZoneFields(n)[1];
  }

  lemma ZoneIsPrefixCode(a: int, rest: string, b: int, rest': string)
    requires -1440 < a < 1440 && -1440 < b < 1440
    requires Zone(a) + rest == Zone(b) + rest'
    ensures a == b && rest == rest'
  {
    var x, y := ZoneTail(a), ZoneTail(b);
    SplitFirst(ZoneSign(a), x, rest);
    SplitFirst(ZoneSign(b), y, rest');
    if a == 0 {
      assert x + rest == rest && y + rest' == rest';
    } else {
      ZoneFieldsArePrefixCode(if a < 0 then -a else a, rest, if b < 0 then -b else b, rest');
    }
  }

  lemma SplitFirst(c: char, s: string, rest: string)
    ensures ([c] + s + rest)[0] == c && ([c] + s + rest)[1..] == s + rest
  {
  }

  /** Printed times form a prefix code: whatever text follows, the time can be read off the front. */
  lemma FormatIsPrefixCode(t: Timestamp, rest: string, u: Timestamp, rest': string)
    requires Format(t) + rest == Format(u) + rest'
    ensures SameSecond(t, u) && rest == rest'
  {
    var s, r := Zone(t.offset) + rest, Zone(u.offset) + rest';
    Assoc(Print(CivilFields(t)), Zone(t.offset), rest);
    Assoc(Print(CivilFields(u)), Zone(u.offset), rest');
    CivilIsPrefixCode(t, s, u, r);
    ZoneIsPrefixCode(t.offset, rest, u.offset, rest');
  }

  lemma CivilIsPrefixCode(t: Timestamp, rest: string, u: Timestamp, rest': string)
    requires Print(CivilFields(t)) + rest == Print(CivilFields(u)) + rest'
    ensures SameSecond(t, u.(offset := t.offset)) && rest == rest'
  {
    var f, g := CivilFields(t), CivilFields(u);
    CivilFieldsFit(t);
    CivilFieldsFit(u);
    PrintIsPrefixCode(f, rest, g, rest');
    assert f[0] == g[0] && f[1] == g[1] && f[2] == g[2] && f[3] == g[3] && f[4] == g[4] && f[5] == g[5];
  }

  lemma SameSecondPrintsSame(t: Timestamp, u: Timestamp)
    requires SameSecond(t, u)
    ensures Format(t) == Format(u)
  {
    var t0 := t.(nanos := 0);
    assert t0.year == t.year == u.year && t0.offset == t.offset == u.offset;
  }

  // ----- The printed time, position by position -----

  lemma ThreePieces(p: string, q: string, r: string)
    ensures var s := p + q + r;
            s[0..|p|] == p && s[|p|..|p| + |q|] == q && s[|p| + |q|..] == r
  {
  }

  /** A padded number somewhere in a text, with what follows it. */
  lemma NumberAt(s: string, k: nat, n: nat, width: nat, separator: string, rest: string)
    requires k <= |s| && s[k..] == Pad(n, width) + separator + rest && Fits(n, width) && width > 0
    ensures var e := k + width + |separator|;
            && e <= |s| && Reads(s, k, k + width, n) && s[k + width..e] == separator && s[e..] == rest
  {
    var p, e := Pad(n, width), width + |separator|;
    PadDenotes(n, width);
    ThreePieces(p, separator, rest);
    assert s[k..][0..width] == s[k..k + width] && s[k..][width..e] == s[k + width..k + e];
    assert s[k..][e..] == s[k + e..];
  }

  lemma PrintStep(f: seq<Field>, tail: string, rest: string)
    requires f != [] && rest == Print(f[1..]) + tail
    ensures Print(f) + tail == Pad(f[0].value, f[0].width) + f[0].separator + rest
  {
    Assoc(Pad(f[0].value, f[0].width) + f[0].separator, Print(f[1..]), tail);
  }

  /** A field with a separator of one character. */
  lemma SeparatedAt(s: string, k: nat, f: Field, rest: seq<Field>, tail: string)
    requires k <= |s| && s[k..] == Print([f] + rest) + tail && Fits(f.value, f.width) && f.width > 0
    requires |f.separator| == 1
    ensures var i := k + f.width;
            i < |s| && Reads(s, k, i, f.value) && s[i] == f.separator[0] && s[i + 1..] == Print(rest) + tail
  {
    var i := k + f.width;
    assert ([f] + rest)[1..] == rest;
    PrintStep([f] + rest, tail, Print(rest) + tail);
    NumberAt(s, k, f.value, f.width, f.separator, Print(rest) + tail);
    assert s[i..i + 1][0] == s[i];
  }

  lemma DateByPosition(t: Timestamp, s: string, tail: string)
    requires s == Print(CivilFields(t)) + tail
    ensures |s| >= 11 && s[11..] == Print(CivilFields(t)[3..]) + tail
    ensures Reads(s, 0, 4, t.year) && s[4] == '-' && Reads(s, 5, 7, t.month) && s[7] == '-'
    ensures Reads(s, 8, 10, t.day) && s[10] == 'T'
  {
    var f := CivilFields(t);
    CivilFieldsFit(t);
    assert s[0..] == s;
    assert f == [f[0]] + f[1..] && f[1..] == [f[1]] + f[2..] && f[2..] == [f[2]] + f[3..];
    SeparatedAt(s, 0, f[0], f[1..], tail);
    SeparatedAt(s, 5, f[1], f[2..], tail);
    SeparatedAt(s, 8, f[2], f[3..], tail);
  }

  lemma TimeByPosition(t: Timestamp, s: string, tail: string)
    requires |s| >= 11 && s[11..] == Print(CivilFields(t)[3..]) + tail
    ensures |s| >= 19 && s[19..] == tail
    ensures Reads(s, 11, 13, t.hour) && s[13] == ':' && Reads(s, 14, 16, t.minute) && s[16] == ':'
    ensures Reads(s, 17, 19, t.second)
  {
    var f := CivilFields(t);
    CivilFieldsFit(t);
    assert f[3..] == [f[3]] + f[4..] && f[4..] == [f[4]] + f[5..] && f[5..][1..] == [];
    SeparatedAt(s, 11, f[3], f[4..], tail);
    SeparatedAt(s, 14, f[4], f[5..], tail);
    PrintStep(f[5..], tail, Print([]) + tail);
    assert Print([]) + tail == tail;
    NumberAt(s, 17, t.second, 2, "", tail);
  }

  /** The zone: `Z`, or a sign with hours and minutes. */
  lemma ZoneByPosition(offset: int)
    requires -1440 < offset < 1440
    ensures var z, m := Zone(offset), if offset < 0 then -offset else offset;
            && |z| == (if offset == 0 then 1 else 6)
            && z[0] == (if offset == 0 then 'Z' else if offset < 0 then '-' else '+')
            && (offset != 0 ==> Reads(z, 1, 3, m / 60) && z[3] == ':' && Reads(z, 4, 6, m % 60))
  {
    if offset != 0 {
      OffsetByPosition(Zone(offset), if offset < 0 then -offset else offset);
    }
  }

  lemma OffsetByPosition(z: string, m: nat)
    requires z != [] && z[1..] == Print(ZoneFields(m)) && m < 1440
    ensures |z| == 6 && Reads(z, 1, 3, m / 60) && z[3] == ':' && Reads(z, 4, 6, m % 60)
  {
    var f := ZoneFields(m);
    TwoDigitsFit(m / 60);
    TwoDigitsFit(m % 60);
    assert z[1..] == Print(f) + "";
    assert f[1..][1..] == [] && Print([]) + "" == "";
    PrintStep(f, "", Print(f[1..]) + "");
    NumberAt(z, 1, m / 60, 2, ":", Print(f[1..]) + "");
    PrintStep(f[1..], "", "");
    NumberAt(z, 4, m % 60, 2, "", "");
    assert z[3] == z[3..4][0];
  }

  /** A printed time, position by position: 20 characters in UTC and 25 with an offset; year, month, day, hour,
      minute and second in this order and the separators between them; then the zone. */
  lemma FormatByPosition(t: Timestamp)
    ensures var s, m := Format(t), if t.offset < 0 then -t.offset else t.offset;
            && |s| == (if t.offset == 0 then 20 else 25)
            && Reads(s, 0, 4, t.year) && s[4] == '-' && Reads(s, 5, 7, t.month) && s[7] == '-'
            && Reads(s, 8, 10, t.day) && s[10] == 'T' && Reads(s, 11, 13, t.hour) && s[13] == ':'
            && Reads(s, 14, 16, t.minute) && s[16] == ':' && Reads(s, 17, 19, t.second)
            && s[19] == (if t.offset == 0 then 'Z' else if t.offset < 0 then '-' else '+')
            && (t.offset != 0 ==> Reads(s, 20, 22, m / 60) && s[22] == ':' && Reads(s, 23, 25, m % 60))
  {
    var s, z := Format(t), Zone(t.offset);
    DateByPosition(t, s, z);
    TimeByPosition(t, s, z);
    ZoneByPosition(t.offset);
    ZoneInText(s, z, t.offset);
  }

  lemma ZoneInText(s: string, z: string, offset: int)
    requires |s| >= 19 && s[19..] == z && z != []
    ensures |s| == 19 + |z| && s[19] == z[0]
    ensures forall i: nat, j: nat, n: int :: Reads(z, i, j, n) ==> Reads(s, 19 + i, 19 + j, n)
    ensures |z| > 3 ==> s[22] == z[3]
  {
    forall i: nat, j: nat, n: int | Reads(z, i, j, n)
      ensures Reads(s, 19 + i, 19 + j, n)
    {
      assert s[19..][i..j] == s[19 + i..19 + j];
    }
  }

  /** A printed time starts with four digits and a dash. */
  predicate StartsWithYear(s: string) {
    |s| > 4 && AllDigits(s[..4]) && s[4] == '-'
  }

  lemma FormatStartsWithYear(t: Timestamp, rest: string)
    ensures StartsWithYear(Format(t) + rest)
  {
    var s, tail := Format(t) + rest, Zone(t.offset) + rest;
    assert s == Print(CivilFields(t)) + tail;
    DateByPosition(t, s, tail);
    assert s[0..4] == s[..4];
  }
}

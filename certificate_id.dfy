/** `CertificateGenerator.generateCertificateId` of `lib/pdf-generator.ts`:
    the certificate number `SMSI-<year><MM><DD>-<user>-<module>-<random>`. */
module PdfGenerator {
  import opened JsString

  /** The local calendar fields of a `Date`: `getFullYear()`, `getMonth()`
      (0-based) and `getDate()`. */
  datatype CalendarDate = CalendarDate(year: int, month0: int, day: int)

  /** The fields of a date that exists: a month in 0..11, a day in 1..31. */
  predicate ValidDate(d: CalendarDate) {
    d.year >= 0 && 0 <= d.month0 < 12 && 1 <= d.day <= 31
  }

  /** `String(n).padStart(width, "0")`. */
  function Padded(n: int, width: int): string {
    PadStart(IntToString(n), width, '0')
  }

  /** `<year><MM><DD>`: the year as printed, then the 1-based month and the
      day of the month, each zero-padded to two digits. */
  function DatePart(d: CalendarDate): string {
    IntToString(d.year) + Padded(d.month0 + 1, 2) + Padded(d.day, 2)
  }

  /** `Math.random().toString(36).substring(2, 6).toUpperCase()`, given the
      base-36 text of the random number. */
  function RandomPart(random36: string): (r: string)
    ensures |r| <= 4
    ensures |random36| >= 6 ==> |r| == 4
    ensures forall i :: 0 <= i < |r| ==> !('a' <= r[i] <= 'z')
  {
    ToUpperAscii(Substring(random36, 2, 6))
  }

  /** `generateCertificateId(userId, moduleId, timestamp)`, with the calendar
      fields of `timestamp` and the random number's base-36 text as inputs. */
  function CertificateId(userId: int, moduleId: int, date: CalendarDate, random36: string): string {
    Prefix + "-" + DatePart(date) + "-" + Padded(userId, 4) + "-" + Padded(moduleId, 2) + "-" + RandomPart(random36)
  }

  const Prefix: string := "SMSI"

  /** Five fields free of '-', joined by '-', split back into those fields. */
  lemma SplitFive(a: string, b: string, c: string, d: string, e: string)
    requires '-' !in a && '-' !in b && '-' !in c && '-' !in d && '-' !in e
    ensures Split(a + "-" + b + "-" + c + "-" + d + "-" + e, '-') == [a, b, c, d, e]
  {
    var dash := "-";
    assert dash == ['-'];
    assert a + dash + b + dash + c + dash + d + dash + e == a + dash + (b + dash + (c + dash + (d + dash + e)));
    SplitNoSep(e, '-');
    SplitAfter(d, e, '-');
    SplitAfter(c, d + dash + e, '-');
    SplitAfter(b, c + dash + (d + dash + e), '-');
    SplitAfter(a, b + dash + (c + dash + (d + dash + e)), '-');
  }

  /** A zero-padded non-negative number is made of digits only. */
  lemma PaddedDigits(n: int, width: int)
    requires n >= 0
    ensures forall i :: 0 <= i < |Padded(n, width)| ==> '0' <= Padded(n, width)[i] <= '9'
  {
    var s, r := NatToString(n), Padded(n, width);
    forall i | 0 <= i < |r|
      ensures '0' <= r[i] <= '9'
    {
      if i >= |r| - |s| {
        assert r[i] == r[|r| - |s|..][i - (|r| - |s|)];
      }
    }
  }

  /** A number below 100, zero-padded to two, is exactly two characters: the
      month and the day of a date that exists always take two. */
  lemma PaddedTwo(n: int)
    requires 0 <= n < 100
    ensures |Padded(n, 2)| == 2
  {
    if n >= 10 {
      assert NatToString(n) == NatToString(n / 10) + [DigitChar(n % 10)];
    }
  }

  /** With its parts free of '-', the upper-cased random part stays free of it. */
  lemma RandomPartNoDash(random36: string)
    requires '-' !in random36
    ensures '-' !in RandomPart(random36)
  {
    var sub := Substring(random36, 2, 6);
    var r := RandomPart(random36);
    assert forall i :: 0 <= i < |sub| ==> sub[i] in random36;
    assert forall i :: 0 <= i < |r| ==> r[i] == UpperChar(sub[i]);
  }

  lemma PaddedNoDash(n: int, width: int)
    requires n >= 0
    ensures '-' !in Padded(n, width)
  {
    PaddedDigits(n, width);
  }

  lemma DatePartNoDash(date: CalendarDate)
    requires ValidDate(date)
    ensures '-' !in DatePart(date)
  {
    PaddedNoDash(date.year, 0);
    PaddedNoDash(date.month0 + 1, 2);
    PaddedNoDash(date.day, 2);
    assert IntToString(date.year) == Padded(date.year, 0);
  }

  lemma PrefixNoDash()
    ensures '-' !in Prefix
  {
  }

  /** Appending keeps a prefix. */
  lemma StartsWithAppend(s: string, p: string, t: string)
    requires StartsWith(s, p)
    ensures StartsWith(s + t, p)
  {
    assert (s + t)[..|p|] == s[..|p|];
  }

  /** For non-negative numbers and a random text without '-', the id starts
      with `SMSI-` and splits on '-' into exactly its five fields. */
  lemma CertificateIdFields(userId: int, moduleId: int, date: CalendarDate, random36: string)
    requires userId >= 0 && moduleId >= 0 && ValidDate(date)
    requires '-' !in random36
    ensures StartsWith(CertificateId(userId, moduleId, date, random36), Prefix + "-")
    ensures Split(CertificateId(userId, moduleId, date, random36), '-')
      == [Prefix, DatePart(date), Padded(userId, 4), Padded(moduleId, 2), RandomPart(random36)]
  {
    var d, u, m, x := DatePart(date), Padded(userId, 4), Padded(moduleId, 2), RandomPart(random36);
    DatePartNoDash(date);
    PaddedNoDash(userId, 4);
    PaddedNoDash(moduleId, 2);
    RandomPartNoDash(random36);
    PrefixNoDash();
    SplitFive(Prefix, d, u, m, x);
    var p := Prefix + "-";
    assert StartsWith(p, p);
    StartsWithAppend(p, p, d);
    StartsWithAppend(p + d, p, "-");
    StartsWithAppend(p + d + "-", p, u);
    StartsWithAppend(p + d + "-" + u, p, "-");
    StartsWithAppend(p + d + "-" + u + "-", p, m);
    StartsWithAppend(p + d + "-" + u + "-" + m, p, "-");
    StartsWithAppend(p + d + "-" + u + "-" + m + "-", p, x);
  }

  /** Two ids are equal exactly when they name the same user and module,
      print the same completion date and carry the same random part. */
  lemma CertificateIdInjective(u1: int, m1: int, d1: CalendarDate, x1: string, u2: int, m2: int, d2: CalendarDate, x2: string)
    requires u1 >= 0 && m1 >= 0 && ValidDate(d1) && '-' !in x1
    requires u2 >= 0 && m2 >= 0 && ValidDate(d2) && '-' !in x2
    ensures CertificateId(u1, m1, d1, x1) == CertificateId(u2, m2, d2, x2)
        <==> u1 == u2 && m1 == m2 && DatePart(d1) == DatePart(d2) && RandomPart(x1) == RandomPart(x2)
  {
    if CertificateId(u1, m1, d1, x1) == CertificateId(u2, m2, d2, x2) {
      CertificateIdFields(u1, m1, d1, x1);
      CertificateIdFields(u2, m2, d2, x2);
      PaddedNatInjective(u1, u2, 4);
      PaddedNatInjective(m1, m2, 2);
    }
  }
}

/** The frame number of lib/frame-comparer.ts:17-18: `f.replace(/\D/g, "")`
    keeps every ASCII digit of the full frame path, and the comparison with
    the numeric range bounds reads that digit string as a decimal number,
    the empty string as 0. */
module FrameNumbers {
  import opened PathNaming

  predicate IsDigit(c: char)
  {
    '0' <= c <= '9'
  }

  predicate AllDigits(s: string)
  {
    forall i :: 0 <= i < |s| ==> IsDigit(s[i])
  }

  predicate NoDigits(s: string)
  {
    forall i :: 0 <= i < |s| ==> !IsDigit(s[i])
  }

  /** `s.replace(/\D/g, "")`: the digits of `s`, in order. */
  function Digits(s: string): (ds: string)
    ensures AllDigits(ds)
  {
    if s == [] then []
    else (if IsDigit(s[0]) then [s[0]] else []) + Digits(s[1..])
  }

  function DigitValue(c: char): nat
    requires IsDigit(c)
  {
    (c - '0') as nat
  }

  function DigitChar(d: nat): (c: char)
    requires d < 10
    ensures IsDigit(c) && DigitValue(c) == d
  {
    ('0' as int + d) as char
  }

  function Pow10(k: nat): (p: nat)
    ensures p >= 1
  {
    if k == 0 then 1 else 10 * Pow10(k - 1)
  }

  /** JavaScript's `Number(ds)` on a string of digits, read exactly; the
      empty string reads as 0. */
  function DecimalValue(ds: string): nat
    requires AllDigits(ds)
  {
    if ds == [] then 0
    else DecimalValue(ds[..|ds| - 1]) * 10 + DigitValue(ds[|ds| - 1])
  }

  /** The decimal numeral of `n` without leading zeros, as ffmpeg's `%d`
      writes it into each extracted frame's file name. */
  function Numeral(n: nat): (ds: string)
    ensures ds != [] && AllDigits(ds)
  {
    if n < 10 then [DigitChar(n)]
    else Numeral(n / 10) + [DigitChar(n % 10)]
  }

  /** The frame number the range filter compares against. */
  function FrameNumber(path: string): nat
  {
    DecimalValue(Digits(path))
  }

  /** Stripping keeps nothing exactly when the string holds no digit. */
  lemma {:induction false} DigitsEmptyIffNoDigits(s: string)
    ensures Digits(s) == [] <==> NoDigits(s)
  {
    if s != [] {
      DigitsEmptyIffNoDigits(s[1..]);
      if !IsDigit(s[0]) && NoDigits(s[1..]) {
        forall i | 0 <= i < |s| ensures !IsDigit(s[i]) {
          if i > 0 { assert s[i] == s[1..][i - 1]; }
        }
      }
    }
  }

  /** A path without digits has frame number 0, as JavaScript reads the
      empty string as 0. */
  lemma FrameNumberWithoutDigits(path: string)
    requires NoDigits(path)
    ensures FrameNumber(path) == 0
  {
    DigitsEmptyIffNoDigits(path);
  }

  /** Digit stripping distributes over concatenation: digits of a
      directory and of a file name both end up in the number. */
  lemma {:induction false} DigitsOfConcat(a: string, b: string)
    ensures Digits(a + b) == Digits(a) + Digits(b)
  {
    if a != [] {
      assert (a + b)[1..] == a[1..] + b;
      DigitsOfConcat(a[1..], b);
    } else {
      assert a + b == b;
    }
  }

  /** Digit stripping keeps every digit as often as it occurs and drops
      every other character. */
  lemma {:induction false} DigitsKeepExactlyTheDigits(s: string, c: char)
    ensures multiset(Digits(s))[c] == if IsDigit(c) then multiset(s)[c] else 0
  {
    if s != [] {
      DigitsKeepExactlyTheDigits(s[1..], c);
      assert s == [s[0]] + s[1..];
    }
  }

  /** Stripping twice is stripping once. */
  lemma {:induction false} DigitsIdempotent(s: string)
    ensures Digits(Digits(s)) == Digits(s)
  {
    if s != [] {
      DigitsIdempotent(s[1..]);
      var head := if IsDigit(s[0]) then [s[0]] else [];
      DigitsOfConcat(head, Digits(s[1..]));
    }
  }

  /** Appending a digit to a shifted number. */
  lemma ShiftDigit(x: nat, p: nat, y: nat, d: nat)
    ensures (x * p + y) * 10 + d == x * (10 * p) + (y * 10 + d)
  {
  }

  /** Reading a concatenation of digit strings. */
  lemma {:induction false} DecimalValueOfConcat(a: string, b: string)
    requires AllDigits(a) && AllDigits(b)
    ensures DecimalValue(a + b) == DecimalValue(a) * Pow10(|b|) + DecimalValue(b)
    decreases |b|
  {
    if b == [] {
      assert a + b == a;
    } else {
      var b', last := b[..|b| - 1], b[|b| - 1];
      var ab := a + b;
      assert ab[..|ab| - 1] == a + b' && ab[|ab| - 1] == last;
      DecimalValueOfConcat(a, b');
      assert DecimalValue(ab) == DecimalValue(a + b') * 10 + DigitValue(last);
      assert DecimalValue(b) == DecimalValue(b') * 10 + DigitValue(last);
      ShiftDigit(DecimalValue(a), Pow10(|b'|), DecimalValue(b'), DigitValue(last));
    }
  }

  /** Reading a written numeral gives back the number. */
  lemma {:induction false} NumeralRoundTrip(n: nat)
    ensures DecimalValue(Numeral(n)) == n
  {
    if n >= 10 {
      NumeralRoundTrip(n / 10);
      var ds := Numeral(n);
      assert ds[..|ds| - 1] == Numeral(n / 10);
    }
  }

  /** A non-empty digit string without a leading zero reads as a positive number. */
  lemma {:induction false} LeadingDigitPositive(ds: string)
    requires ds != [] && AllDigits(ds) && ds[0] != '0'
    ensures DecimalValue(ds) > 0
  {
    if |ds| > 1 {
      LeadingDigitPositive(ds[..|ds| - 1]);
    }
  }

  /** Writing the value of a numeral without leading zeros gives back the
      numeral. */
  lemma {:induction false} DecimalValueRoundTrip(ds: string)
    requires ds != [] && AllDigits(ds) && (|ds| > 1 ==> ds[0] != '0')
    ensures Numeral(DecimalValue(ds)) == ds
  {
    var last := ds[|ds| - 1];
    if |ds| == 1 {
      assert DecimalValue(ds) == DigitValue(last);
    } else {
      var init := ds[..|ds| - 1];
      LeadingDigitPositive(init);
      DecimalValueRoundTrip(init);
      var v := DecimalValue(ds);
      assert v / 10 == DecimalValue(init) && v % 10 == DigitValue(last);
      assert ds == init + [last];
    }
  }

  /** Paths that differ only in text without digits have the same frame
      number: the frame number depends on the digits alone. */
  lemma NonDigitTextDoesNotCount(a: string, x: string, y: string, b: string)
    requires NoDigits(x) && NoDigits(y)
    ensures FrameNumber(a + x + b) == FrameNumber(a + y + b)
  {
    DigitsOfConcat(a + x, b);
    DigitsOfConcat(a, x);
    DigitsOfConcat(a + y, b);
    DigitsOfConcat(a, y);
    DigitsEmptyIffNoDigits(x);
    DigitsEmptyIffNoDigits(y);
    assert Digits(a) + Digits(x) == Digits(a) + Digits(y);
  }

  /** Joining adds a separator and no digit. */
  lemma DigitsOfJoin(dir: string, name: string)
    ensures Digits(Join(dir, name)) == Digits(dir) + Digits(name)
  {
    DigitsOfConcat(dir + "/", name);
    DigitsOfConcat(dir, "/");
    assert Digits("/") == [];
  }

  /** The frame number of a path under a directory: the directory's digits
      are read in front of the file name's. */
  lemma FrameNumberOfJoin(dir: string, name: string)
    ensures FrameNumber(Join(dir, name)) == DecimalValue(Digits(dir)) * Pow10(|Digits(name)|) + FrameNumber(name)
  {
    DigitsOfJoin(dir, name);
    DecimalValueOfConcat(Digits(dir), Digits(name));
  }

  /** The digits of `<storage>/<prefix><num>.png` for a numeral `num`. */
  lemma DigitsOfFramePath(storage: string, prefix: string, num: string)
    requires AllDigits(num)
    ensures Digits(Join(storage, prefix + num + ".png")) == Digits(storage) + Digits(prefix) + num
  {
    var ds, dp := Digits(storage), Digits(prefix);
    DigitsOfConcat(prefix + num, ".png");
    DigitsOfConcat(prefix, num);
    assert Digits(".png") == [];
    AllDigitsAreKept(num);
    DigitsOfJoin(storage, prefix + num + ".png");
    assert ds + (dp + num) == ds + dp + num;
  }

  /** A numeral read after leading digits. */
  lemma ValueAfterLead(lead: string, n: nat)
    requires AllDigits(lead)
    ensures DecimalValue(lead + Numeral(n)) == DecimalValue(lead) * Pow10(|Numeral(n)|) + n
  {
    DecimalValueOfConcat(lead, Numeral(n));
    NumeralRoundTrip(n);
  }

  /** The frame number of the file ffmpeg writes for frame `n` as
      `<storage>/<prefix><n>.png` (lib/frame-comparer.ts:44,56,68): the
      digits of the storage directory and of the prefix come first. */
  lemma ExtractedFrameNumber(storage: string, prefix: string, n: nat)
    ensures FrameNumber(Join(storage, prefix + Numeral(n) + ".png"))
         == DecimalValue(Digits(storage) + Digits(prefix)) * Pow10(|Numeral(n)|) + n
  {
    DigitsOfFramePath(storage, prefix, Numeral(n));
    ValueAfterLead(Digits(storage) + Digits(prefix), n);
  }

  /** A digit string is its own digit stripping. */
  lemma {:induction false} AllDigitsAreKept(ds: string)
    requires AllDigits(ds)
    ensures Digits(ds) == ds
  {
    if ds != [] {
      AllDigitsAreKept(ds[1..]);
      assert ds == [ds[0]] + ds[1..];
    }
  }

  /** With no digit in the storage directory or in the name prefix, the
      frame number of the n-th extracted frame is n. */
  lemma ExtractedFrameNumberIsIndex(storage: string, prefix: string, n: nat)
    requires NoDigits(storage) && NoDigits(prefix)
    ensures FrameNumber(Join(storage, prefix + Numeral(n) + ".png")) == n
  {
    ExtractedFrameNumber(storage, prefix, n);
    DigitsEmptyIffNoDigits(storage);
    DigitsEmptyIffNoDigits(prefix);
    assert Digits(storage) + Digits(prefix) == [];
  }

  /** A digit at the end of the storage directory's name is read in front
      of the frame's own numeral: frame 5 stored under `/tmp/run2` has frame
      number 25. */
  lemma DirectoryDigitShiftsFrameNumber(dir: string, prefix: string, d: nat, n: nat)
    requires NoDigits(dir) && NoDigits(prefix) && d < 10
    ensures FrameNumber(Join(dir + [DigitChar(d)], prefix + Numeral(n) + ".png")) == d * Pow10(|Numeral(n)|) + n
  {
    var c := DigitChar(d);
    ExtractedFrameNumber(dir + [c], prefix, n);
    DigitsOfConcat(dir, [c]);
    DigitsEmptyIffNoDigits(dir);
    DigitsEmptyIffNoDigits(prefix);
    assert Digits([c]) == [c];
    assert Digits(dir + [c]) + Digits(prefix) == [c];
    assert DecimalValue([c]) == d;
  }
}

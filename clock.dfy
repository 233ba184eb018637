/**
 * Clock arithmetic of the availability engine: the local helpers `toMinutes`
 * and `toTimeString` of `generateTimeSlots`, together with the pieces of the
 * JavaScript runtime they rely on (`split`, `Number`, `String`, `padStart`).
 */
module Clock {
  import opened Wrappers

  /** `s.split(sep)` for a one-character separator: the fields between separators, in order. */
  function Split(s: string, sep: char): (parts: seq<string>)
    ensures |parts| >= 1
    decreases |s|
  {
    if s == [] then [""]
    else
      var rest := Split(s[1..], sep);
      if s[0] == sep then [""] + rest else [[s[0]] + rest[0]] + rest[1..]
  }

  /** No field of a split contains the separator. */
  lemma {:induction false} SplitFieldsFree(s: string, sep: char)
    ensures forall i :: 0 <= i < |Split(s, sep)| ==> sep !in Split(s, sep)[i]
    decreases |s|
  {
    if s != [] {
      SplitFieldsFree(s[1..], sep);
    }
  }

  /** `parts.join(sep)`, the inverse of `Split`. */
  function Join(parts: seq<string>, sep: char): string
  {
    if |parts| <= 1 then (if parts == [] then "" else parts[0])
    else parts[0] + [sep] + Join(parts[1..], sep)
  }

  /** Splitting and joining again gives back the original string. */
  lemma {:induction false} SplitJoin(s: string, sep: char)
    ensures Join(Split(s, sep), sep) == s
    decreases |s|
  {
    if s != [] {
      var rest := Split(s[1..], sep);
      SplitJoin(s[1..], sep);
      if s[0] == sep {
        assert Split(s, sep) == [""] + rest;
        assert s == [sep] + s[1..];
      } else {
        var parts := Split(s, sep);
        assert parts == [[s[0]] + rest[0]] + rest[1..];
        if |rest| == 1 {
          assert Join(rest, sep) == rest[0];
        } else {
          assert Join(rest, sep) == rest[0] + [sep] + Join(rest[1..], sep);
          assert parts[1..] == rest[1..];
        }
        assert s == [s[0]] + s[1..];
      }
    }
  }

  /** A separator-free field followed by the separator splits off as the first field. */
  lemma {:induction false} SplitAfterField(a: string, sep: char, b: string)
    requires sep !in a
    ensures Split(a + [sep] + b, sep) == [a] + Split(b, sep)
    decreases |a|
  {
    if a == [] {
      assert [] + [sep] + b == [sep] + b;
      assert ([sep] + b)[1..] == b;
    } else {
      SplitAfterField(a[1..], sep, b);
      assert (a + [sep] + b)[1..] == a[1..] + [sep] + b;
      assert [a[0]] + a[1..] == a;
    }
  }

  predicate IsDigit(c: char) { '0' <= c <= '9' }

  predicate AllDigits(s: string) { forall i :: 0 <= i < |s| ==> IsDigit(s[i]) }

  function DigitChar(n: nat): char
    requires n < 10
  {
    ('0' as int + n) as char
  }

  /** Decimal value of a digit string, most significant digit first; "" is 0. */
  function DigitsValue(s: string): nat
    requires AllDigits(s)
  {
    if s == [] then 0 else DigitsValue(s[..|s| - 1]) * 10 + (s[|s| - 1] as int - '0' as int)
  }

  /**
   * `Number(s)` for the strings this model covers: the empty string is 0 and a
   * string of decimal digits is its value; anything else is `NaN` (None).
   */
  function ParseNumber(s: string): Option<nat>
  {
    if AllDigits(s) then Some(DigitsValue(s)) else None
  }

  /** `String(n)` for a non-negative integer: its shortest decimal digits. */
  function NatToString(n: nat): string
    decreases n
  {
    if n < 10 then [DigitChar(n)] else NatToString(n / 10) + [DigitChar(n % 10)]
  }

  /** `String(n)` is a non-empty digit string whose value is `n`. */
  lemma {:induction false} NatToStringDigits(n: nat)
    ensures |NatToString(n)| >= 1 && AllDigits(NatToString(n))
    ensures DigitsValue(NatToString(n)) == n
    decreases n
  {
    if n >= 10 {
      var prefix := NatToString(n / 10);
      NatToStringDigits(n / 10);
      var s := prefix + [DigitChar(n % 10)];
      assert s[..|s| - 1] == prefix;
    }
  }

  /** `s.padStart(2, '0')`: zeros in front of `s` up to a length of two. */
  function PadStart2(s: string): string
  {
    if |s| >= 2 then s else if |s| == 1 then ['0'] + s else "00"
  }

  /** The padded string has length at least two, ends with `s` and starts with zeros only. */
  lemma PadStart2Shape(s: string)
    ensures |PadStart2(s)| == if |s| >= 2 then |s| else 2
    ensures PadStart2(s)[|PadStart2(s)| - |s|..] == s
    ensures forall i :: 0 <= i < |PadStart2(s)| - |s| ==> PadStart2(s)[i] == '0'
  {
  }

  /** Leading zeros do not change the value of a digit string. */
  lemma {:induction false} LeadingZeros(r: string, s: string)
    requires |s| <= |r| && r[|r| - |s|..] == s && AllDigits(s)
    requires forall i :: 0 <= i < |r| - |s| ==> r[i] == '0'
    ensures AllDigits(r) && DigitsValue(r) == DigitsValue(s)
    decreases |s|
  {
    if s == [] {
      ZerosValue(r);
    } else {
      var r' := r[..|r| - 1];
      var s' := s[..|s| - 1];
      assert r'[|r'| - |s'|..] == s' by {
        assert r[|r| - |s|..][..|s| - 1] == s';
      }
      assert r[|r| - 1] == s[|s| - 1];
      LeadingZeros(r', s');
    }
  }

  lemma {:induction false} ZerosValue(r: string)
    requires forall i :: 0 <= i < |r| ==> r[i] == '0'
    ensures AllDigits(r) && DigitsValue(r) == 0
  {
    if r != [] {
      ZerosValue(r[..|r| - 1]);
    }
  }

  /** A two-or-more-digit zero-padded rendering of `n`, as `toTimeString` builds each field. */
  function Field(n: nat): string
  {
    PadStart2(NatToString(n))
  }

  /** A printed field is a digit string of length two or more whose value is `n`. */
  lemma FieldDigits(n: nat)
    ensures AllDigits(Field(n)) && DigitsValue(Field(n)) == n && |Field(n)| >= 2
  {
    NatToStringDigits(n);
    PadStart2Shape(NatToString(n));
    LeadingZeros(Field(n), NatToString(n));
  }

  /**
   * `toMinutes`: "HH:MM" to minutes since midnight, `h * 60 + m`. The result is
   * None exactly where the source computes `NaN`: a string without a ':' (the
   * minute field is `undefined`) or a field that is not a number. Fields after
   * the second are ignored, as the destructuring `[h, m]` ignores them.
   */
  function ToMinutes(time: string): Option<nat>
  {
    var parts := Split(time, ':');
    if |parts| < 2 then None
    else
      match (ParseNumber(parts[0]), ParseNumber(parts[1]))
      case (Some(h), Some(m)) => Some(h * 60 + m)
      case _ => None
  }

  /**
   * `toTimeString`: minutes to "HH:MM", hours `Math.floor(minutes / 60)` and
   * minutes `minutes % 60`, each zero-padded to two digits. Hours are not
   * wrapped at 24.
   */
  function ToTimeString(minutes: nat): string
  {
    Field(minutes / 60) + [':'] + Field(minutes % 60)
  }

  /** Reading a printed time back with `toMinutes` gives the minutes it was printed from. */
  lemma TimeStringRoundTrip(minutes: nat)
    ensures ToMinutes(ToTimeString(minutes)) == Some(minutes)
  {
    TimeStringParses(minutes / 60, minutes % 60);
  }

  /** The two printed fields split apart again and parse back to their values. */
  lemma TimeStringParses(h: nat, m: nat)
    ensures ToMinutes(Field(h) + [':'] + Field(m)) == Some(h * 60 + m)
  {
    var hs, ms := Field(h), Field(m);
    FieldDigits(h);
    FieldDigits(m);
    assert ':' !in hs by {
      forall i | 0 <= i < |hs| ensures hs[i] != ':' { assert IsDigit(hs[i]); }
    }
    assert ':' !in ms by {
      forall i | 0 <= i < |ms| ensures ms[i] != ':' { assert IsDigit(ms[i]); }
    }
    SplitAfterField(hs, ':', ms);
    SplitWithoutSep(ms, ':');
    var parts := Split(hs + [':'] + ms, ':');
    assert parts == [hs, ms];
    assert ParseNumber(hs) == Some(h);
    assert ParseNumber(ms) == Some(m);
  }

  lemma {:induction false} SplitWithoutSep(s: string, sep: char)
    requires sep !in s
    ensures Split(s, sep) == [s]
    decreases |s|
  {
    if s != [] {
      SplitWithoutSep(s[1..], sep);
      assert [s[0]] + s[1..] == s;
    }
  }

  /** Distinct minute values print as distinct clock strings. */
  lemma TimeStringInjective(a: nat, b: nat)
    requires ToTimeString(a) == ToTimeString(b)
    ensures a == b
  {
    TimeStringRoundTrip(a);
    TimeStringRoundTrip(b);
  }

  /** The minutes of a clock string, as the final sort reads them (0 for a string that does not parse). */
  function KeyMinute(k: string): nat
  {
    ToMinutes(k).GetOr(0)
  }

  /** The sort key of a printed time is that time. */
  lemma KeyMinutePrinted(t: nat)
    ensures KeyMinute(ToTimeString(t)) == t
  {
    TimeStringRoundTrip(t);
  }

  /**
   * `isDateInRange`, on day numbers: both ends inclusive. The JavaScript
   * `Date` parsing and the reset to local midnight make the time of day
   * irrelevant, which day numbers express directly; a range end that does not
   * parse (an Invalid Date) compares false, so it contains no day.
   */
  predicate DateInRange(day: int, start: Option<int>, end: Option<int>)
  {
    start.Some? && end.Some? && start.value <= day <= end.value
  }

  /** A one-day range holds that day alone, and an inverted range holds no day. */
  lemma DateInRangeInclusive(day: int, start: Option<int>, end: Option<int>)
    ensures start.Some? && start == end ==> (DateInRange(day, start, end) <==> day == start.value)
    ensures start.Some? && end.Some? && start.value > end.value ==> !DateInRange(day, start, end)
  {
  }
}

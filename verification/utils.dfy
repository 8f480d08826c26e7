/**
 * The two string helpers of the call ledger: the phone-number grammar
 * check used by event ingestion, and the "1h 2m 3s" rendering of a
 * number of seconds used in its responses.
 */
module Utils {
  import opened Wrappers

  predicate IsDigit(c: char) {
    '0' <= c <= '9'
  }

  /** Every character of `s` is an ASCII decimal digit. */
  predicate AllDigits(s: string) {
    s == [] || (IsDigit(s[0]) && AllDigits(s[1..]))
  }

  lemma {:induction false} AllDigitsMeans(s: string)
    ensures AllDigits(s) <==> forall i | 0 <= i < |s| :: IsDigit(s[i])
  {
    if s != [] {
      AllDigitsMeans(s[1..]);
      assert forall i | 1 <= i < |s| :: s[i] == s[1..][i - 1];
    }
  }

  lemma {:induction false} AllDigitsConcat(a: string, b: string)
    requires AllDigits(a) && AllDigits(b)
    ensures AllDigits(a + b)
  {
    if a != [] {
      assert (a + b)[1..] == a[1..] + b;
      AllDigitsConcat(a[1..], b);
    } else {
      assert a + b == b;
    }
  }

  /**
   * The pattern ^\+?[0-9]+$ : an optional leading '+' followed by one or
   * more ASCII digits, and nothing else.
   */
  function IsValidPhoneNumber(s: string): (valid: bool)
    ensures valid <==>
      (exists i | 0 <= i < |s| :: IsDigit(s[i])) &&
      (forall i | 0 <= i < |s| :: IsDigit(s[i]) || (i == 0 && s[i] == '+'))
  {
    var digits := if |s| > 0 && s[0] == '+' then s[1..] else s;
    assert |s| > 0 && s[0] == '+' ==> forall i | 1 <= i < |s| :: s[i] == digits[i - 1];
    AllDigitsMeans(digits);
    |digits| > 0 && AllDigits(digits)
  }

  /** The empty string, a lone '+', and a '+' anywhere but first are all rejected. */
  lemma PhoneRejections(s: string, k: nat)
    requires 0 < k < |s| && s[k] == '+'
    ensures !IsValidPhoneNumber("") && !IsValidPhoneNumber("+")
    ensures !IsValidPhoneNumber(s)
  {
    assert !IsDigit("+"[0]);
    assert !IsDigit(s[k]);
  }

  function DigitChar(d: nat): (c: char)
    requires d < 10
    ensures IsDigit(c)
  {
    ('0' as int + d) as char
  }

  /** The value of a digit character (and 0 for any other character). */
  function DigitValue(c: char): (d: nat)
    ensures d < 10
    ensures IsDigit(c) ==> DigitChar(d) == c
  {
    if IsDigit(c) then c as int - '0' as int else 0
  }

  /** Decimal text of a natural number, as a template literal prints an integer. */
  function DecimalString(n: nat): (s: string)
    ensures |s| > 0 && AllDigits(s)
    ensures s[0] == '0' <==> n == 0
    ensures |s| == 1 <==> n < 10
    decreases n
  {
    if n < 10 then [DigitChar(n)]
    else
      var d := [DigitChar(n % 10)];
      AllDigitsConcat(DecimalString(n / 10), d);
      DecimalString(n / 10) + d
  }

  /** The number written by a string of digits, read left to right. */
  function DigitsValue(s: string): nat {
    if s == [] then 0 else 10 * DigitsValue(s[..|s| - 1]) + DigitValue(s[|s| - 1])
  }

  lemma {:induction false} DecimalStringRoundTrip(n: nat)
    ensures DigitsValue(DecimalString(n)) == n
  {
    if n >= 10 {
      DecimalStringRoundTrip(n / 10);
      var s := DecimalString(n);
      assert s[..|s| - 1] == DecimalString(n / 10);
    }
  }

  /** Array.prototype.join: the parts in order, with `sep` between neighbours. */
  function Join(parts: seq<string>, sep: string): string {
    if |parts| == 0 then ""
    else if |parts| == 1 then parts[0]
    else parts[0] + sep + Join(parts[1..], sep)
  }

  /** Whole hours, the minutes left over, the seconds left over. */
  function Split(seconds: nat): (hms: (nat, nat, nat))
    ensures hms.0 * 3600 + hms.1 * 60 + hms.2 == seconds
    ensures hms.1 < 60 && hms.2 < 60
  {
    (seconds / 3600, seconds % 3600 / 60, seconds % 60)
  }

  /**
   * The text FormatDuration produces: "0s" for a non-positive count;
   * otherwise the hours when nonzero, the minutes when nonzero and the
   * seconds always, as "<n>h", "<n>m", "<n>s", separated by single spaces.
   */
  function FormattedDuration(seconds: int): string {
    if seconds <= 0 then "0s"
    else
      var (h, m, r) := Split(seconds);
      HmsText(h, m, r)
  }

  /** "<h>h <m>m <r>s", leaving out the hours and the minutes when they are zero. */
  function HmsText(h: nat, m: nat, r: nat): string {
    if h > 0 then DecimalString(h) + ['h', ' '] + MsText(m, r) else MsText(m, r)
  }

  /** "<m>m <r>s", leaving out the minutes when they are zero. */
  function MsText(m: nat, r: nat): string {
    if m > 0 then DecimalString(m) + ['m', ' '] + SecondsText(r) else SecondsText(r)
  }

  function SecondsText(r: nat): string {
    DecimalString(r) + ['s']
  }

  /** The parts pushed for a split of hours, minutes and seconds. */
  function Parts(h: nat, m: nat, r: nat): seq<string> {
    (if h > 0 then [DecimalString(h) + "h"] else [])
    + (if m > 0 then [DecimalString(m) + "m"] else [])
    + [DecimalString(r) + "s"]
  }

  /** A pushed token followed by the separator is the token's text in the rendering. */
  lemma TokenThenSpace(n: nat, unit: char)
    ensures DecimalString(n) + [unit] + " " == DecimalString(n) + [unit, ' ']
  {
  }

  /** Joining the parts with single spaces gives the rendering. */
  lemma JoinParts(h: nat, m: nat, r: nat)
    ensures Join(Parts(h, m, r), " ") == HmsText(h, m, r)
  {
    var last := DecimalString(r) + "s";
    var tail := if m > 0 then [DecimalString(m) + "m", last] else [last];
    assert Join(tail, " ") == MsText(m, r) by {
      if m > 0 {
        TokenThenSpace(m, 'm');
        assert tail[1..] == [last];
      }
    }
    if h > 0 {
      TokenThenSpace(h, 'h');
      assert Parts(h, m, r) == [DecimalString(h) + "h"] + tail;
      assert Parts(h, m, r)[1..] == tail;
    } else {
      assert Parts(h, m, r) == tail;
    }
  }

  /** Builds the list of parts one push at a time, then joins it with spaces. */
  method FormatDuration(seconds: int) returns (text: string)
    ensures text == FormattedDuration(seconds)
  {
    if seconds <= 0 {
      return "0s";
    }
    var hours := seconds / 3600;
    var minutes := seconds % 3600 / 60;
    var remainingSeconds := seconds % 60;
    var parts: seq<string> := [];
    if hours > 0 {
      parts := parts + [DecimalString(hours) + "h"];
    }
    if minutes > 0 {
      parts := parts + [DecimalString(minutes) + "m"];
    }
    parts := parts + [DecimalString(remainingSeconds) + "s"];
    text := Join(parts, " ");
    assert parts == Parts(hours, minutes, remainingSeconds);
    JoinParts(hours, minutes, remainingSeconds);
  }

  lemma DigitsHoldNoLetter(s: string, c: char)
    requires AllDigits(s) && !IsDigit(c)
    ensures c !in s
  {
    AllDigitsMeans(s);
  }

  lemma MsTextLetters(m: nat, r: nat)
    ensures 'h' !in MsText(m, r)
    ensures 'm' in MsText(m, r) <==> m > 0
    ensures var t := MsText(m, r); |t| > 0 && t[|t| - 1] == 's'
  {
    DigitsHoldNoLetter(DecimalString(r), 'h');
    DigitsHoldNoLetter(DecimalString(r), 'm');
    DigitsHoldNoLetter(DecimalString(m), 'h');
    var sText := SecondsText(r);
    assert 'h' !in sText && 'm' !in sText;
    if m > 0 {
      var mp := DecimalString(m) + ['m', ' '];
      assert MsText(m, r) == mp + sText;
      assert 'h' !in mp;
      assert mp[|mp| - 2] == 'm';
    }
  }

  /** The presence of each unit letter in the rendering follows the arithmetic. */
  lemma FormattedDurationUnits(seconds: int)
    requires seconds > 0
    ensures var t := FormattedDuration(seconds);
      && ('h' in t <==> seconds / 3600 > 0)
      && ('m' in t <==> seconds % 3600 / 60 > 0)
      && t[|t| - 1] == 's'
  {
    var (h, m, r) := Split(seconds);
    MsTextLetters(m, r);
    var ms := MsText(m, r);
    if h > 0 {
      var hp := DecimalString(h) + ['h', ' '];
      DigitsHoldNoLetter(DecimalString(h), 'm');
      assert HmsText(h, m, r) == hp + ms;
      assert 'm' !in hp;
      assert hp[|hp| - 2] == 'h';
    }
  }

  /** Length of the run of digits at the front of `s`. */
  function LeadingDigits(s: string): (k: nat)
    ensures k <= |s|
  {
    if s == [] || !IsDigit(s[0]) then 0 else 1 + LeadingDigits(s[1..])
  }

  function UnitSeconds(c: char): Option<nat> {
    if c == 'h' then Some(3600)
    else if c == 'm' then Some(60)
    else if c == 's' then Some(1)
    else None
  }

  /**
   * Reads text of the form "<n><unit>" or "<n><unit> <rest>" back into a
   * number of seconds, where each unit is h, m or s.
   */
  function ParseDuration(s: string): Option<nat>
    decreases |s|
  {
    var k := LeadingDigits(s);
    if k == 0 || k == |s| || UnitSeconds(s[k]).None? then None
    else ParseAfterToken(DigitsValue(s[..k]) * UnitSeconds(s[k]).value, s[k + 1..])
  }

  /** What follows a token worth `value` seconds: the end, or a space and more tokens. */
  function ParseAfterToken(value: nat, tail: string): Option<nat>
    decreases |tail|
  {
    if tail == [] then Some(value)
    else if tail[0] != ' ' then None
    else match ParseDuration(tail[1..])
      case None => None
      case Some(rest) => Some(value + rest)
  }

  lemma {:induction false} LeadingDigitsOfPrefix(digits: string, tail: string)
    requires AllDigits(digits)
    requires tail == [] || !IsDigit(tail[0])
    ensures LeadingDigits(digits + tail) == |digits|
  {
    if digits != [] {
      assert (digits + tail)[1..] == digits[1..] + tail;
      LeadingDigitsOfPrefix(digits[1..], tail);
    } else {
      assert digits + tail == tail;
    }
  }

  /** Parsing one "<n><unit>" token and what follows it. */
  lemma ParseToken(n: nat, u: char, tail: string)
    requires UnitSeconds(u).Some?
    ensures ParseDuration(DecimalString(n) + [u] + tail) == ParseAfterToken(n * UnitSeconds(u).value, tail)
  {
    var d := DecimalString(n);
    var s := d + [u] + tail;
    assert LeadingDigits(s) == |d| by {
      assert s == d + ([u] + tail);
      LeadingDigitsOfPrefix(d, [u] + tail);
    }
    assert DigitsValue(s[..|d|]) == n by {
      assert s[..|d|] == d;
      DecimalStringRoundTrip(n);
    }
    assert s[|d|] == u && s[|d| + 1..] == tail;
  }

  /** A token followed by a parsable remainder adds its own weight to the remainder's. */
  lemma ParseTokenThen(n: nat, u: char, w: nat, more: string, total: nat)
    requires UnitSeconds(u) == Some(w)
    requires ParseDuration(more) == Some(total)
    ensures ParseDuration(DecimalString(n) + [u, ' '] + more) == Some(n * w + total)
  {
    var tail := [' '] + more;
    assert ParseAfterToken(n * w, tail) == Some(n * w + total) by {
      assert tail[1..] == more;
    }
    assert DecimalString(n) + [u] + tail == DecimalString(n) + [u, ' '] + more;
    ParseToken(n, u, tail);
  }

  /** The last token of a rendering, "<r>s", reads back as r. */
  lemma ParseSecondsToken(r: nat)
    ensures ParseDuration(SecondsText(r)) == Some(r)
  {
    ParseToken(r, 's', "");
    assert DecimalString(r) + ['s'] + "" == DecimalString(r) + ['s'];
  }

  lemma MsTextRoundTrip(m: nat, r: nat)
    ensures ParseDuration(MsText(m, r)) == Some(m * 60 + r)
  {
    ParseSecondsToken(r);
    if m > 0 {
      ParseTokenThen(m, 'm', 60, SecondsText(r), r);
      assert MsText(m, r) == DecimalString(m) + ['m', ' '] + SecondsText(r);
    } else {
      assert MsText(m, r) == SecondsText(r);
    }
  }

  lemma HmsTextRoundTrip(h: nat, m: nat, r: nat)
    ensures ParseDuration(HmsText(h, m, r)) == Some(h * 3600 + m * 60 + r)
  {
    MsTextRoundTrip(m, r);
    if h > 0 {
      ParseTokenThen(h, 'h', 3600, MsText(m, r), m * 60 + r);
      assert HmsText(h, m, r) == DecimalString(h) + ['h', ' '] + MsText(m, r);
    } else {
      assert HmsText(h, m, r) == MsText(m, r);
    }
  }

  /** ParseDuration inverts FormattedDuration: the text gives back the seconds it was made from. */
  lemma FormattedDurationRoundTrip(seconds: int)
    ensures ParseDuration(FormattedDuration(seconds)) == Some(if seconds <= 0 then 0 else seconds)
  {
    if seconds <= 0 {
      ParseSecondsToken(0);
      assert SecondsText(0) == "0s" by {
        assert DecimalString(0) == ['0'];
      }
    } else {
      var hms := Split(seconds);
      HmsTextRoundTrip(hms.0, hms.1, hms.2);
      assert FormattedDuration(seconds) == HmsText(hms.0, hms.1, hms.2);
    }
  }
}

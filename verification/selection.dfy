/** The attribute selection read from the operator: a line of comma-separated
    1-based attribute numbers, turned into 0-based indices.  Each entry goes
    through Python 2's `int()`, which raises `ValueError` on an entry that is
    not a number (an empty entry included).
 */
module Selection {
  import opened Results
  import opened Text

  predicate IsDigit(c: char)
  {
    '0' <= c <= '9'
  }

  /** The value of a decimal digit character. */
  function DigitValue(c: char): int
  {
    c as int - '0' as int
  }

  /** A digit is neither whitespace nor a sign. */
  lemma DigitIsNotSpaceOrSign(c: char)
    requires IsDigit(c)
    ensures c !in Whitespace && c != '+' && c != '-'
  {
  }

  /** A non-empty run of decimal digits. */
  predicate IsDigits(s: string)
  {
    |s| > 0 && forall k :: 0 <= k < |s| ==> IsDigit(s[k])
  }

  /** The number a run of decimal digits denotes, leading zeros allowed. */
  function DigitsValue(s: string): int
    decreases |s|
  {
    if |s| == 0 then 0
    else DigitsValue(s[..|s| - 1]) * 10 + DigitValue(s[|s| - 1])
  }

  /** The decimal digits of `n`, without leading zeros: the partner of
      `DigitsValue` and of `ParseInt`. */
  function Decimal(n: nat): (s: string)
    ensures IsDigits(s)
  {
    if n < 10 then [('0' as int + n) as char]
    else Decimal(n / 10) + [('0' as int + n % 10) as char]
  }

  /** Python 2's `int(s)` on a byte string, as CPython 2.7 implements it for
      base 10: optional whitespace, an optional sign, optional whitespace
      again, at least one decimal digit, optional trailing whitespace.
      Anything else raises `ValueError`, which is `None` here. */
  function ParseInt(s: string): Option<int>
  {
    var t := Strip(s, Whitespace);
    if |t| > 0 && (t[0] == '+' || t[0] == '-') then
      var digits := TrimStart(t[1..], Whitespace);
      if IsDigits(digits) then
        Some(if t[0] == '-' then -DigitsValue(digits) else DigitsValue(digits))
      else None
    else if IsDigits(t) then Some(DigitsValue(t))
    else None
  }

  /** `t` is a numeral `int()` reads as `n` once the whitespace around it is
      gone: a run of digits, or a sign, whitespace, and a run of digits. */
  ghost predicate SignedNumeral(t: string, n: int)
  {
    || (IsDigits(t) && n == DigitsValue(t))
    || exists i :: SignedAt(t, i, n)
  }

  /** `t` is a sign, whitespace up to `i`, and from `i` a run of digits
      whose value with that sign is `n`. */
  predicate SignedAt(t: string, i: int, n: int)
  {
    && 1 <= i <= |t| && (t[0] == '+' || t[0] == '-')
    && AllIn(t[1..i], Whitespace) && IsDigits(t[i..])
    && n == (if t[0] == '-' then -DigitsValue(t[i..]) else DigitsValue(t[i..]))
  }

  /** What `int()` accepts strips to a signed numeral for its value. */
  lemma ParsedIsNumeral(s: string, n: int)
    requires ParseInt(s) == Some(n)
    ensures SignedNumeral(Strip(s, Whitespace), n)
  {
    var t := Strip(s, Whitespace);
    if |t| > 0 && (t[0] == '+' || t[0] == '-') {
      var digits := TrimStart(t[1..], Whitespace);
      TrimStartIsSuffix(t[1..], Whitespace);
      var i := 1 + |t[1..]| - |digits|;
      assert t[1..i] == t[1..][..|t[1..]| - |digits|];
      assert t[i..] == digits;
      assert SignedAt(t, i, n);
    }
  }

  /** A signed numeral for `n`, with whitespace around it, is read as `n`. */
  lemma NumeralIsParsed(s: string, n: int)
    requires SignedNumeral(Strip(s, Whitespace), n)
    ensures ParseInt(s) == Some(n)
  {
    var t := Strip(s, Whitespace);
    if IsDigits(t) && n == DigitsValue(t) {
      ParseUnsigned(s, t);
    } else {
      var i :| SignedAt(t, i, n);
      var sign, gap, digits := t[0], t[1..i], t[i..];
      assert t == [sign] + gap + digits;
      ParseSigned(s, sign, gap, digits);
    }
  }

  /** `int()` accepts an entry, with value `n`, exactly when the entry strips
      to a signed numeral for `n`. */
  lemma ParseIntReadsNumerals(s: string, n: int)
    ensures ParseInt(s) == Some(n) <==> SignedNumeral(Strip(s, Whitespace), n)
  {
    if ParseInt(s) == Some(n) {
      ParsedIsNumeral(s, n);
    }
    if SignedNumeral(Strip(s, Whitespace), n) {
      NumeralIsParsed(s, n);
    }
  }

  /** Reading back the digits of `n` gives `n`. */
  lemma {:induction false} DigitsOfDecimal(n: nat)
    ensures DigitsValue(Decimal(n)) == n
    decreases n
  {
    if n >= 10 {
      var s := Decimal(n);
      assert s[..|s| - 1] == Decimal(n / 10);
      DigitsOfDecimal(n / 10);
    }
  }

  /** An entry that strips to a run of digits is read as that number. */
  lemma ParseUnsigned(s: string, digits: string)
    requires Strip(s, Whitespace) == digits && IsDigits(digits)
    ensures ParseInt(s) == Some(DigitsValue(digits))
  {
    DigitIsNotSpaceOrSign(digits[0]);
  }

  /** An entry that strips to a sign, optional whitespace and a run of digits
      is read as that number with that sign. */
  lemma ParseSigned(s: string, sign: char, gap: string, digits: string)
    requires sign == '+' || sign == '-'
    requires AllIn(gap, Whitespace)
    requires Strip(s, Whitespace) == [sign] + gap + digits && IsDigits(digits)
    ensures ParseInt(s) == Some(if sign == '-' then -DigitsValue(digits) else DigitsValue(digits))
  {
    var t := [sign] + gap + digits;
    assert t[1..] == gap + digits;
    TrimStartSkips(gap, digits, Whitespace);
    DigitIsNotSpaceOrSign(digits[0]);
    assert TrimStart(digits, Whitespace) == digits;
  }

  /** `int()` reads a decimal numeral back, whatever whitespace surrounds it. */
  lemma ParseDecimal(n: nat, lead: string, trail: string)
    requires AllIn(lead, Whitespace) && AllIn(trail, Whitespace)
    ensures ParseInt(lead + Decimal(n) + trail) == Some(n)
  {
    var d := Decimal(n);
    DigitsOfDecimal(n);
    DigitIsNotSpaceOrSign(d[0]);
    DigitIsNotSpaceOrSign(d[|d| - 1]);
    StripPadding(lead, d, trail, Whitespace);
    ParseUnsigned(lead + d + trail, d);
  }

  /** `int()` reads a signed decimal numeral back, whatever whitespace
      surrounds it or separates the sign from the digits. */
  lemma ParseSignedDecimal(n: nat, sign: char, lead: string, gap: string, trail: string)
    requires AllIn(lead, Whitespace) && AllIn(gap, Whitespace) && AllIn(trail, Whitespace)
    requires sign == '+' || sign == '-'
    ensures ParseInt(lead + [sign] + gap + Decimal(n) + trail) == Some(if sign == '-' then 0 - n else n)
  {
    var d := Decimal(n);
    DigitsOfDecimal(n);
    var signed := [sign] + gap + d;
    assert lead + [sign] + gap + d + trail == lead + signed + trail;
    assert signed[|signed| - 1] == d[|d| - 1];
    DigitIsNotSpaceOrSign(d[|d| - 1]);
    StripPadding(lead, signed, trail, Whitespace);
    ParseSigned(lead + signed + trail, sign, gap, d);
  }

  /** An entry of nothing but whitespace (an empty entry included) is not a
      number. */
  lemma BlankIsNotANumber(s: string)
    requires AllIn(s, Whitespace)
    ensures ParseInt(s) == None
  {
    StripAllIn(s, Whitespace);
  }

  /** Every entry is something `int()` accepts. */
  predicate AllNumbers(entries: seq<string>)
  {
    forall k :: 0 <= k < |entries| ==> ParseInt(entries[k]).Some?
  }

  /** `indices` holds, in order, one index per entry: the entry's number
      minus one. */
  predicate ReadAs(entries: seq<string>, indices: seq<int>)
  {
    && |indices| == |entries|
    && forall k :: 0 <= k < |entries| ==> ParseInt(entries[k]) == Some(indices[k] + 1)
  }

  /** Every entry through `int()`, minus one, in order; the first entry that
      is not a number raises `ValueError`. */
  function ParseEntries(entries: seq<string>): (r: Result<seq<int>, Error>)
    ensures r.Success? <==> AllNumbers(entries)
    ensures r.Success? ==> ReadAs(entries, r.value)
    ensures r.Failure? ==> exists k :: FirstBad(entries, k) && r.error == ValueError(entries[k])
  {
    if |entries| == 0 then Success([])
    else
      match ParseInt(entries[0])
      case None =>
        assert FirstBad(entries, 0);
        Failure(ValueError(entries[0]))
      case Some(n) =>
        match ParseEntries(entries[1..])
        case Failure(e) =>
          var k :| FirstBad(entries[1..], k) && e == ValueError(entries[1..][k]);
          assert FirstBad(entries, k + 1);
          Failure(e)
        case Success(rest) => Success([n - 1] + rest)
  }

  /** Entry `k` is the first one that is not a number. */
  predicate FirstBad(entries: seq<string>, k: int)
  {
    && 0 <= k < |entries|
    && ParseInt(entries[k]).None?
    && forall j :: 0 <= j < k ==> ParseInt(entries[j]).Some?
  }

  /** The selection line: stripped, split at commas, and each entry read as a
      1-based number.  There is one index per entry, so one more than the
      commas in the stripped line; an entry that is not a number raises
      `ValueError`. */
  function ParseSelection(line: string): (r: Result<seq<int>, Error>)
    ensures r.Success? <==> AllNumbers(Split(Strip(line, Whitespace), ","))
    ensures r.Success? ==> ReadAs(Split(Strip(line, Whitespace), ","), r.value)
    ensures r.Success? ==> |r.value| == 1 + multiset(Strip(line, Whitespace))[',']
    ensures r.Failure? ==> r.error.ValueError?
  {
    var stripped := Strip(line, Whitespace);
    SplitCount(stripped, ',');
    ParseEntries(Split(stripped, ","))
  }

  /** The 1-based numerals the operator types for a list of indices. */
  function Ordinals(indices: seq<nat>): (r: seq<string>)
    ensures |r| == |indices|
  {
    seq(|indices|, k requires 0 <= k < |indices| => Decimal(indices[k] + 1))
  }

  /** A bare decimal numeral reads back as its number. */
  lemma ParseBareDecimal(n: nat)
    ensures ParseInt(Decimal(n)) == Some(n)
  {
    var d := Decimal(n);
    DigitsOfDecimal(n);
    DigitIsNotSpaceOrSign(d[0]);
    DigitIsNotSpaceOrSign(d[|d| - 1]);
    StripUntouched(d, Whitespace);
    ParseUnsigned(d, d);
  }

  /** The typed numerals of some indices read back as those indices. */
  lemma {:induction false} ParseOrdinals(indices: seq<nat>)
    ensures ParseEntries(Ordinals(indices)) == Success(indices)
    decreases |indices|
  {
    if |indices| > 0 {
      var ords := Ordinals(indices);
      ParseBareDecimal(indices[0] + 1);
      assert ords[1..] == Ordinals(indices[1..]);
      ParseOrdinals(indices[1..]);
      assert [indices[0]] + indices[1..] == indices;
    }
  }

  lemma DigitInSet(c: char)
    requires IsDigit(c)
    ensures c in {'0', '1', '2', '3', '4', '5', '6', '7', '8', '9', ','}
  {
    var d := DigitValue(c);
    assert c == ('0' as int + d) as char;
  }

  /** Typing the 1-based numbers of some indices, separated by commas, selects
      exactly those indices, in that order. */
  lemma SelectionRoundTrip(indices: seq<nat>)
    requires |indices| >= 1
    ensures ParseSelection(Join(",", Ordinals(indices))) == Success(indices)
  {
    var ords := Ordinals(indices);
    var line := Join(",", ords);
    var digitsOrComma := {'0', '1', '2', '3', '4', '5', '6', '7', '8', '9', ','};
    forall k | 0 <= k < |ords| ensures AllIn(ords[k], digitsOrComma) && ',' !in ords[k] {
      assert IsDigits(ords[k]);
      forall i | 0 <= i < |ords[k]| ensures ords[k][i] in digitsOrComma {
        DigitInSet(ords[k][i]);
      }
    }
    JoinAllIn(",", ords, digitsOrComma);
    StripUntouched(line, Whitespace);
    SplitJoin(ords, ',');
    ParseOrdinals(indices);
  }

  /** A blank selection line raises `ValueError`. */
  lemma BlankSelectionFails(line: string)
    requires AllIn(line, Whitespace)
    ensures ParseSelection(line) == Failure(ValueError([]))
  {
    StripAllIn(line, Whitespace);
    assert Split([], ",") == [[]];
    BlankIsNotANumber([]);
  }
}

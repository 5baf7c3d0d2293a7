/** The receipt-field validators of utils/dataframe_checks.py: a cell styler
    for the vendor tax ID (RNC) and one for the fiscal document number
    (NCF). Each returns the empty style for a valid cell and a fixed red
    style for an invalid one. */
module DataframeChecks {
  import opened Builtins

  /** The style both validators return for an invalid cell. */
  const RED := "background-color: red; color: white;"

  /** A table cell as the validators receive it: `None`, a string or an
      integer (the extraction schema declares the RNC an `int`). */
  datatype PyValue = PyNone | PyStr(s: string) | PyInt(i: int)

  /** Python truthiness: `None`, `""` and `0` are falsy. */
  predicate Truthy(v: PyValue) {
    match v
    case PyNone => false
    case PyStr(s) => s != ""
    case PyInt(i) => i != 0
  }

  /** `str(v)`. */
  function Str(v: PyValue): string {
    match v
    case PyNone => "None"
    case PyStr(s) => s
    case PyInt(i) => IntToStr(i)
  }

  // ------------------------------------------------------------------ RNC

  /** The RNC texts the validator accepts, stated without deleting
      anything: every character is a digit or a hyphen, and the digits
      number 9 or 11. */
  predicate RncText(t: string) {
    && (forall i :: 0 <= i < |t| ==> t[i] == '-' || IsDigit(t[i]))
    && (|t| - multiset(t)['-'] == 9 || |t| - multiset(t)['-'] == 11)
  }

  /** `highlight_invalid_rnc`: falsy cells are red; otherwise the text
      `str(val)` with every hyphen deleted must be all digits, 9 or 11 of
      them. The accepted cells are exactly those whose text is `RncText`
      (the falsy ones never are). */
  function HighlightInvalidRnc(val: PyValue): (r: string)
    ensures r == "" || r == RED
    ensures r == "" <==> RncText(Str(val))
  {
    if !Truthy(val) then
      FalsyTextRejected(val);
      RED
    else
      var digits := Remove(Str(val), '-');
      HyphenFreeDigits(Str(val));
      if !IsDigits(digits) || |digits| !in {9, 11} then RED else ""
  }

  /** The text of a falsy cell (`"None"`, `""` or `"0"`) is never `RncText`. */
  lemma FalsyTextRejected(v: PyValue)
    requires !Truthy(v)
    ensures !RncText(Str(v))
  {
    match v
    case PyNone =>
      assert Str(v)[0] == 'N';
    case PyStr(s) =>
    case PyInt(i) =>
      assert Str(v) == "0";
      assert multiset(Str(v))['-'] == 0;
  }

  /** Deleting the hyphens leaves 9 or 11 digits exactly when the text is
      `RncText`. */
  lemma HyphenFreeDigits(t: string)
    ensures var d := Remove(t, '-'); (IsDigits(d) && (|d| == 9 || |d| == 11)) <==> RncText(t)
  {
    var d := Remove(t, '-');
    RemoveSpec(t, '-');
    if AllDigits(d) {
      forall i | 0 <= i < |t| && t[i] != '-'
        ensures IsDigit(t[i])
      {
        assert t[i] in t;
        assert t[i] in d;
        var j :| 0 <= j < |d| && d[j] == t[i];
      }
    }
    if forall i :: 0 <= i < |t| ==> t[i] == '-' || IsDigit(t[i]) {
      forall j | 0 <= j < |d|
        ensures IsDigit(d[j])
      {
        assert d[j] in d;
        var i :| 0 <= i < |t| && t[i] == d[j];
      }
    }
  }

  /** A falsy cell is red. */
  lemma RncFalsyIsRed(v: PyValue)
    requires v == PyNone || v == PyStr("") || v == PyInt(0)
    ensures HighlightInvalidRnc(v) == RED
  {
    FalsyTextRejected(v);
  }

  /** Inserting a hyphen anywhere leaves the verdict unchanged (so does
      deleting one), including at the edges of an empty string. */
  lemma RncHyphenInsensitive(a: string, b: string)
    ensures HighlightInvalidRnc(PyStr(a + "-" + b)) == HighlightInvalidRnc(PyStr(a + b))
  {
    HyphenDeleted(a, b);
    HyphenFreeDigits(a + b);
    HyphenFreeDigits(a + "-" + b);
  }

  lemma HyphenDeleted(a: string, b: string)
    ensures Remove(a + "-" + b, '-') == Remove(a + b, '-')
  {
    RemoveAppend(a + "-", b, '-');
    RemoveAppend(a, "-", '-');
    RemoveAppend(a, b, '-');
    assert Remove("-", '-') == [];
  }

  /** Only hyphens are separators: any other non-digit character makes the
      cell red. */
  lemma RncOtherCharacterIsRed(s: string, i: nat)
    requires i < |s| && s[i] != '-' && !IsDigit(s[i])
    ensures HighlightInvalidRnc(PyStr(s)) == RED
  {
  }

  /** A text made only of hyphens is red. */
  lemma {:induction false} RncOnlyHyphensIsRed(s: string)
    requires forall i :: 0 <= i < |s| ==> s[i] == '-'
    ensures HighlightInvalidRnc(PyStr(s)) == RED
  {
    if s != [] {
      assert s == [s[0]] + s[1..];
      RncOnlyHyphensIsRed(s[1..]);
    }
  }

  /** An integer cell is valid exactly when its magnitude has 9 or 11
      digits. `str` of a negative integer starts with `-`, which the
      hyphen deletion removes, so a negative integer is judged by its
      magnitude. */
  lemma RncInteger(n: int)
    ensures var m := if n < 0 then -n else n;
      HighlightInvalidRnc(PyInt(n)) == "" <==>
        (100000000 <= m < 1000000000 || 10000000000 <= m < 100000000000)
  {
    var m := if n < 0 then -n else n;
    var d := NatToStr(m);
    assert HighlightInvalidRnc(PyInt(n)) == "" <==> |d| == 9 || |d| == 11 by {
      HyphenFreeDigits(Str(PyInt(n)));
    }
    assert |d| == 9 <==> 100000000 <= m < 1000000000 by {
      NatToStrLength(m, 9);
      Pow10Values();
    }
    assert |d| == 11 <==> 10000000000 <= m < 100000000000 by {
      NatToStrLength(m, 11);
      Pow10Values();
    }
  }

  lemma Pow10Values()
    ensures Pow10(8) == 100000000 && Pow10(9) == 1000000000
    ensures Pow10(10) == 10000000000 && Pow10(11) == 100000000000
  {
  }

  /** A plain digit string is valid exactly when it has 9 or 11 digits. */
  lemma RncDigitString(s: string)
    requires IsDigits(s)
    ensures HighlightInvalidRnc(PyStr(s)) == "" <==> |s| == 9 || |s| == 11
  {
    assert '-' !in s;
    RemoveAbsent(s, '-');
    HyphenFreeDigits(s);
  }

  lemma TwoHyphensDeleted(a: string, b: string, c: string)
    ensures Remove(a + "-" + b + "-" + c, '-') == Remove(a + b + c, '-')
  {
    HyphenDeleted(a + "-" + b, c);
    HyphenDeleted(a, b + c);
    assert a + "-" + b + c == a + "-" + (b + c);
    assert a + (b + c) == a + b + c;
  }

  /** The registry's sample RNC is valid. */
  lemma RncSampleRegistry(s: string)
    requires s == "131563856"
    ensures HighlightInvalidRnc(PyStr(s)) == ""
  {
    RncDigitString(s);
  }

  /** The extraction prompt's sample integer is valid. */
  lemma RncSampleInteger()
    ensures HighlightInvalidRnc(PyInt(130123456)) == ""
  {
    RncInteger(130123456);
  }

  /** A hyphenated 11-digit ID is valid. */
  lemma RncSampleHyphenated(a: string, b: string, c: string)
    requires a == "001" && b == "1234567" && c == "8"
    ensures HighlightInvalidRnc(PyStr(a + "-" + b + "-" + c)) == ""
  {
    var t := a + b + c;
    assert t == "00112345678";
    assert IsDigits(t);
    RemoveAbsent(t, '-');
    TwoHyphensDeleted(a, b, c);
    HyphenFreeDigits(a + "-" + b + "-" + c);
  }

  /** Ten and twelve digits are red. */
  lemma RncSampleTenDigits(s: string)
    requires s == "1315638560"
    ensures HighlightInvalidRnc(PyStr(s)) == RED
  {
    RncDigitString(s);
  }

  lemma RncSampleTwelveDigits(s: string)
    requires s == "131563856012"
    ensures HighlightInvalidRnc(PyStr(s)) == RED
  {
    RncDigitString(s);
  }

  /** Spaces are not separators. */
  lemma RncSampleSpaced(s: string)
    requires s == "131 563 856"
    ensures HighlightInvalidRnc(PyStr(s)) == RED
  {
    RncOtherCharacterIsRed(s, 3);
  }

  // ------------------------------------------------------------------ NCF

  /** `val.lstrip('0').upper()`. */
  function NormalizeNcf(s: string): string {
    Upper(LStrip(s, '0'))
  }

  /** `re.fullmatch(letter + r'\d{count}', s)`: the letter and then
      exactly `count` digits. */
  predicate FullMatch(s: string, letter: char, count: nat) {
    |s| == count + 1 && s[0] == letter && forall i :: 1 <= i < |s| ==> IsDigit(s[i])
  }

  /** The numeric value of the two-digit series code after the letter. */
  function CodeValue(n: string): (c: nat)
    requires |n| >= 3 && IsDigit(n[1]) && IsDigit(n[2])
    ensures c < 100
  {
    10 * DigitValue(n[1]) + DigitValue(n[2])
  }

  /** The fiscal numbers accepted after normalisation, stated on the code's
      value: `B` with ten digits and a code in 01..04 or 11..17, or `E` with
      twelve digits and a code in 31..34, 41 or 43..47. */
  predicate NcfNumber(n: string) {
    || (FullMatch(n, 'B', 10) && var c := CodeValue(n); 1 <= c <= 4 || 11 <= c <= 17)
    || (FullMatch(n, 'E', 12) && var c := CodeValue(n); 31 <= c <= 34 || c == 41 || 43 <= c <= 47)
  }

  /** The series code `ncf[1:3]` of a matched number is two digits whose
      value is `CodeValue`. */
  lemma SeriesCode(ncf: string, letter: char, count: nat)
    requires FullMatch(ncf, letter, count) && count >= 2
    ensures var code := ncf[1..3]; |code| == 2 && AllDigits(code) && DecimalValue(code) == CodeValue(ncf)
  {
    var code := ncf[1..3];
    assert code[0] == ncf[1] && code[1] == ncf[2];
    TwoDigitValue(code);
  }

  /** `highlight_invalid_ncf`: non-strings are red; otherwise the text is
      normalised and must be `B` with ten digits and a code from the lists
      `01`..`04`, `11`..`17`, or `E` with twelve digits and a code from
      `31`..`34`, `41`, `43`..`47`. The accepted cells are exactly the
      strings whose normal form is an `NcfNumber`. */
  function HighlightInvalidNcf(val: PyValue): (r: string)
    ensures r == "" || r == RED
    ensures r == "" <==> val.PyStr? && NcfNumber(NormalizeNcf(val.s))
  {
    if !val.PyStr? then RED
    else
      var ncf := NormalizeNcf(val.s);
      if FullMatch(ncf, 'B', 10) then
        var code := ncf[1..3];
        BSeriesCodes(ncf);
        if Listed(code, 1, 5) || Listed(code, 11, 18) then "" else RED
      else if FullMatch(ncf, 'E', 12) then
        var code := ncf[1..3];
        ESeriesCodes(ncf);
        if Listed(code, 31, 35) || code == "41" || Listed(code, 43, 48) then "" else RED
      else RED
  }

  /** The B-series code lists `01`..`04` and `11`..`17` hold exactly the
      codes of value 1..4 and 11..17. */
  lemma BSeriesCodes(ncf: string)
    requires FullMatch(ncf, 'B', 10)
    ensures var code := ncf[1..3];
      (Listed(code, 1, 5) || Listed(code, 11, 18)) <==>
        (1 <= CodeValue(ncf) <= 4 || 11 <= CodeValue(ncf) <= 17)
  {
    var code := ncf[1..3];
    SeriesCode(ncf, 'B', 10);
    ListedRange(code, 1, 5);
    ListedRange(code, 11, 18);
  }

  /** The E-series code lists `31`..`34`, `41` and `43`..`47` hold exactly
      the codes of value 31..34, 41 and 43..47. */
  lemma ESeriesCodes(ncf: string)
    requires FullMatch(ncf, 'E', 12)
    ensures var code := ncf[1..3];
      (Listed(code, 31, 35) || code == "41" || Listed(code, 43, 48)) <==>
        (31 <= CodeValue(ncf) <= 34 || CodeValue(ncf) == 41 || 43 <= CodeValue(ncf) <= 47)
  {
    var code := ncf[1..3];
    SeriesCode(ncf, 'E', 12);
    ListedRange(code, 31, 35);
    ListedRange(code, 43, 48);
    assert code[0] == ncf[1] && code[1] == ncf[2];
    Code41(code);
  }

  lemma Code41(code: string)
    requires |code| == 2 && AllDigits(code)
    ensures code == "41" <==> 10 * DigitValue(code[0]) + DigitValue(code[1]) == 41
  {
    assert DigitChar(DigitValue(code[0])) == code[0];
    assert DigitChar(DigitValue(code[1])) == code[1];
    assert code == "41" <==> code[0] == '4' && code[1] == '1';
  }

  /** A run of `k` zeros. */
  function Zeros(k: nat): (z: string)
    ensures |z| == k && forall i :: 0 <= i < k ==> z[i] == '0'
  {
    seq(k, _ => '0')
  }

  lemma {:induction false} LStripZeros(k: nat, s: string)
    ensures LStrip(Zeros(k) + s, '0') == LStrip(s, '0')
  {
    if k > 0 {
      assert (Zeros(k) + s)[1..] == Zeros(k - 1) + s;
      LStripZeros(k - 1, s);
    } else {
      assert Zeros(k) + s == s;
    }
  }

  /** Zero padding on the left never changes the verdict. */
  lemma NcfZeroPadding(k: nat, s: string)
    ensures HighlightInvalidNcf(PyStr(Zeros(k) + s)) == HighlightInvalidNcf(PyStr(s))
  {
    LStripZeros(k, s);
  }

  lemma {:induction false} UpperLStripCommute(s: string)
    ensures Upper(LStrip(s, '0')) == LStrip(Upper(s), '0')
  {
    if s != [] && s[0] == '0' {
      assert Upper(s)[1..] == Upper(s[1..]);
      UpperLStripCommute(s[1..]);
    }
  }

  /** Strings that upper-case alike are judged alike: the verdict ignores
      letter case. */
  lemma NcfCaseInsensitive(s: string, t: string)
    requires Upper(s) == Upper(t)
    ensures HighlightInvalidNcf(PyStr(s)) == HighlightInvalidNcf(PyStr(t))
  {
    UpperLStripCommute(s);
    UpperLStripCommute(t);
  }

  /** Normalising twice is normalising once. */
  lemma NormalizeIdempotent(s: string)
    ensures NormalizeNcf(NormalizeNcf(s)) == NormalizeNcf(s)
  {
    var z := LStrip(s, '0');
    UpperLStripCommute(Upper(z));
    assert Upper(Upper(z)) == Upper(z);
    assert LStrip(z, '0') == z;
  }

  /** An upper-case letter and digits are already normal. */
  lemma NormalOfLetterDigits(k: nat, letter: char, d: string)
    requires letter != '0' && AllDigits(d)
    ensures NormalizeNcf(Zeros(k) + [letter] + d) == [UpperChar(letter)] + d
  {
    assert Zeros(k) + [letter] + d == Zeros(k) + ([letter] + d);
    LStripZerosBefore(k, [letter] + d);
    UpperLetterDigits(letter, d);
  }

  lemma LStripZerosBefore(k: nat, w: string)
    requires w != [] && w[0] != '0'
    ensures LStrip(Zeros(k) + w, '0') == w
  {
    LStripZeros(k, w);
  }

  lemma UpperLetterDigits(letter: char, d: string)
    requires AllDigits(d)
    ensures Upper([letter] + d) == [UpperChar(letter)] + d
  {
    UpperDigits(d);
    assert ([letter] + d)[1..] == d;
  }

  /** The verdict on a string is read off its normal form. */
  lemma NcfVerdict(s: string, n: string)
    requires NormalizeNcf(s) == n
    ensures HighlightInvalidNcf(PyStr(s)) == (if NcfNumber(n) then "" else RED)
  {
  }

  lemma BNumber(d: string)
    requires |d| == 10 && AllDigits(d)
    ensures var c := 10 * DigitValue(d[0]) + DigitValue(d[1]);
      NcfNumber(['B'] + d) <==> (1 <= c <= 4 || 11 <= c <= 17)
  {
    var n := ['B'] + d;
    assert n[1] == d[0] && n[2] == d[1];
  }

  lemma ENumber(d: string)
    requires |d| == 12 && AllDigits(d)
    ensures var c := 10 * DigitValue(d[0]) + DigitValue(d[1]);
      NcfNumber(['E'] + d) <==> (31 <= c <= 34 || c == 41 || 43 <= c <= 47)
  {
    var n := ['E'] + d;
    assert n[1] == d[0] && n[2] == d[1];
  }

  /** The B-series rule: `B` (or `b`, after any zeros) with ten digits is
      valid exactly when the first two digits are 01..04 or 11..17. */
  lemma NcfSeriesB(k: nat, letter: char, d: string)
    requires letter == 'B' || letter == 'b'
    requires |d| == 10 && AllDigits(d)
    ensures var c := 10 * DigitValue(d[0]) + DigitValue(d[1]);
      HighlightInvalidNcf(PyStr(Zeros(k) + [letter] + d)) == if 1 <= c <= 4 || 11 <= c <= 17 then "" else RED
  {
    NormalOfLetterDigits(k, letter, d);
    assert UpperChar(letter) == 'B';
    NcfVerdict(Zeros(k) + [letter] + d, ['B'] + d);
    BNumber(d);
  }

  /** The E-series rule: `E` (or `e`, after any zeros) with twelve digits
      is valid exactly when the first two digits are 31..34, 41 or 43..47;
      35..40 and 42 are rejected. */
  lemma NcfSeriesE(k: nat, letter: char, d: string)
    requires letter == 'E' || letter == 'e'
    requires |d| == 12 && AllDigits(d)
    ensures var c := 10 * DigitValue(d[0]) + DigitValue(d[1]);
      HighlightInvalidNcf(PyStr(Zeros(k) + [letter] + d)) ==
        if 31 <= c <= 34 || c == 41 || 43 <= c <= 47 then "" else RED
  {
    NormalOfLetterDigits(k, letter, d);
    assert UpperChar(letter) == 'E';
    NcfVerdict(Zeros(k) + [letter] + d, ['E'] + d);
    ENumber(d);
  }

  /** A first significant character other than `B` or `E` in either case
      makes the number red. */
  lemma NcfOtherLetterIsRed(k: nat, c: char, rest: string)
    requires c != '0' && UpperChar(c) != 'B' && UpperChar(c) != 'E'
    ensures HighlightInvalidNcf(PyStr(Zeros(k) + [c] + rest)) == RED
  {
    var s := Zeros(k) + [c] + rest;
    assert s == Zeros(k) + ([c] + rest);
    LStripZerosBefore(k, [c] + rest);
    var n := Upper([c] + rest);
    assert n[0] == UpperChar(c);
    NcfVerdict(s, n);
  }

  lemma {:induction false} LStripAppend(s: string, tail: string)
    requires LStrip(s, '0') != []
    ensures LStrip(s + tail, '0') == LStrip(s, '0') + tail
  {
    assert (s + tail)[0] == s[0];
    if s[0] == '0' {
      assert (s + tail)[1..] == s[1..] + tail;
      LStripAppend(s[1..], tail);
    }
  }

  /** Anything after a valid number makes it red: the digit runs are exact. */
  lemma NcfTrailingIsRed(s: string, tail: string)
    requires HighlightInvalidNcf(PyStr(s)) == "" && tail != []
    ensures HighlightInvalidNcf(PyStr(s + tail)) == RED
  {
    LStripAppend(s, tail);
    var n, n' := NormalizeNcf(s), NormalizeNcf(s + tail);
    assert |n'| > |n| && n'[0] == n[0];
  }

  /** The extraction prompt's sample number is valid, also padded and in
      lower case. */
  lemma NcfSamplePrompt(s: string)
    requires s == "B0100055276"
    ensures HighlightInvalidNcf(PyStr(s)) == ""
  {
    var d := s[1..];
    assert s == ['B'] + d && AllDigits(d);
    assert d[0] == '0' && d[1] == '1';
    assert Zeros(0) + ['B'] + d == s;
    NcfSeriesB(0, 'B', d);
  }

  lemma NcfSamplePadded(s: string)
    requires s == "00b0100055276"
    ensures HighlightInvalidNcf(PyStr(s)) == ""
  {
    var d := s[3..];
    assert s == Zeros(2) + ['b'] + d && AllDigits(d);
    assert d[0] == '0' && d[1] == '1';
    NcfSeriesB(2, 'b', d);
  }

  /** Code 05 lies between the two B-series ranges. */
  lemma NcfSampleCode05(s: string)
    requires s == "B0500055276"
    ensures HighlightInvalidNcf(PyStr(s)) == RED
  {
    var d := s[1..];
    assert s == ['B'] + d && AllDigits(d);
    assert d[0] == '0' && d[1] == '5';
    assert Zeros(0) + ['B'] + d == s;
    NcfSeriesB(0, 'B', d);
  }

  /** Code 10 lies between the two B-series ranges. */
  lemma NcfSampleCode10(s: string)
    requires s == "B1000055276"
    ensures HighlightInvalidNcf(PyStr(s)) == RED
  {
    var d := s[1..];
    assert s == ['B'] + d && AllDigits(d);
    assert d[0] == '1' && d[1] == '0';
    assert Zeros(0) + ['B'] + d == s;
    NcfSeriesB(0, 'B', d);
  }

  /** Code 99 is past the B-series ranges. */
  lemma NcfSampleCode99(s: string)
    requires s == "B9900055276"
    ensures HighlightInvalidNcf(PyStr(s)) == RED
  {
    var d := s[1..];
    assert s == ['B'] + d && AllDigits(d);
    assert d[0] == '9' && d[1] == '9';
    assert Zeros(0) + ['B'] + d == s;
    NcfSeriesB(0, 'B', d);
  }

  /** Code 31 is an E-series code. */
  lemma NcfSampleCode31(s: string)
    requires s == "E310000000001"
    ensures HighlightInvalidNcf(PyStr(s)) == ""
  {
    var d := s[1..];
    assert s == ['E'] + d && AllDigits(d);
    assert d[0] == '3' && d[1] == '1';
    assert Zeros(0) + ['E'] + d == s;
    NcfSeriesE(0, 'E', d);
  }

  /** Code 35 is just past the first E-series range. */
  lemma NcfSampleCode35(s: string)
    requires s == "E350000000001"
    ensures HighlightInvalidNcf(PyStr(s)) == RED
  {
    var d := s[1..];
    assert s == ['E'] + d && AllDigits(d);
    assert d[0] == '3' && d[1] == '5';
    assert Zeros(0) + ['E'] + d == s;
    NcfSeriesE(0, 'E', d);
  }

  /** Code 42 is the gap between 41 and 43..47. */
  lemma NcfSampleCode42(s: string)
    requires s == "E420000000001"
    ensures HighlightInvalidNcf(PyStr(s)) == RED
  {
    var d := s[1..];
    assert s == ['E'] + d && AllDigits(d);
    assert d[0] == '4' && d[1] == '2';
    assert Zeros(0) + ['E'] + d == s;
    NcfSeriesE(0, 'E', d);
  }

  /** A cell that is not a string, `None` or a number, is red. */
  lemma NcfNonStringIsRed(v: PyValue)
    requires !v.PyStr?
    ensures HighlightInvalidNcf(v) == RED
  {
  }
}

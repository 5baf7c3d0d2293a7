/** Python's built-in string operations that the receipt validators and the
    registry scraper depend on, over ASCII text: `isdigit`, `isspace`,
    `replace(c, "")`, `str(int)`, `f'{i:02}'`, `lstrip`, `upper`, `split()`
    and `" ".join`. `DecimalValue` is not one of them: it is the reading of
    a digit string as a number, used to state what `str` and `f'{i:02}'`
    produce. Non-ASCII digits, non-ASCII whitespace and case mappings that
    change a string's length are outside the model. */
module Builtins {

  // ---------------------------------------------------------------- characters

  /** `c.isdigit()` for an ASCII character. */
  predicate IsDigit(c: char) {
    '0' <= c <= '9'
  }

  /** `c.isspace()` for an ASCII character: the space, the controls
      \t \n \v \f \r (codes 9 to 13) and the separators \x1c to \x1f
      (codes 28 to 31). */
  predicate IsSpace(c: char) {
    c == ' ' || 9 <= c as int <= 13 || 28 <= c as int <= 31
  }

  /** `c.upper()` for an ASCII character: only `a` to `z` change. */
  function UpperChar(c: char): char {
    if 'a' <= c <= 'z' then (c as int - 32) as char else c
  }

  function DigitChar(d: nat): (c: char)
    requires d < 10
    ensures IsDigit(c)
  {
    ('0' as int + d) as char
  }

  function DigitValue(c: char): (d: nat)
    requires IsDigit(c)
    ensures d < 10 && DigitChar(d) == c
  {
    c as int - '0' as int
  }

  // ---------------------------------------------------------- digit strings

  /** Every character of `s` is a digit (the empty string included). */
  predicate AllDigits(s: string) {
    forall i :: 0 <= i < |s| ==> IsDigit(s[i])
  }

  /** `s.isdigit()`: false on the empty string. */
  predicate IsDigits(s: string) {
    |s| > 0 && AllDigits(s)
  }

  /** The number a string of digits denotes. */
  function DecimalValue(s: string): nat
    requires AllDigits(s)
  {
    if s == [] then 0 else 10 * DecimalValue(s[..|s| - 1]) + DigitValue(s[|s| - 1])
  }

  function Pow10(k: nat): (p: nat)
    ensures p >= 1
  {
    if k == 0 then 1 else 10 * Pow10(k - 1)
  }

  /** `str(n)` for a non-negative integer: its decimal digits, with no
      leading zero except for `0` itself; `int` reads it back as `n`. */
  function NatToStr(n: nat): (r: string)
    ensures IsDigits(r)
    ensures r[0] == '0' <==> n == 0
    ensures DecimalValue(r) == n
  {
    if n < 10 then [DigitChar(n)]
    else
      var r := NatToStr(n / 10) + [DigitChar(n % 10)];
      assert r[..|r| - 1] == NatToStr(n / 10);
      r
  }

  /** `str(i)` for any integer: the digits of its magnitude, after a minus
      sign when it is negative. */
  function IntToStr(i: int): (r: string)
    ensures |r| > 0 && (i < 0 <==> r[0] == '-')
    ensures Remove(r, '-') == NatToStr(if i < 0 then -i else i)
    ensures multiset(r)['-'] == (if i < 0 then 1 else 0)
  {
    if i < 0 then
      var d := NatToStr(-i);
      RemoveAppend("-", d, '-');
      RemoveAbsent(d, '-');
      assert '-' !in d;
      assert multiset("-" + d) == multiset("-") + multiset(d);
      "-" + d
    else
      RemoveAbsent(NatToStr(i), '-');
      assert '-' !in NatToStr(i);
      NatToStr(i)
  }

  /** `str(n)` has `k` characters exactly when `n` lies in
      [10^(k-1), 10^k), or below 10 when `k` is 1. */
  lemma {:induction false} NatToStrLength(n: nat, k: nat)
    requires k >= 1
    ensures |NatToStr(n)| == k <==> (if k == 1 then n < 10 else Pow10(k - 1) <= n < Pow10(k))
  {
    if k >= 2 {
      assert Pow10(k) == 10 * Pow10(k - 1);
      assert Pow10(k - 1) == 10 * Pow10(k - 2);
      if n >= 10 {
        NatToStrLength(n / 10, k - 1);
        if k == 2 {
          assert Pow10(1) == 10;
        }
      } else {
        assert Pow10(k - 1) >= 10;
      }
    }
  }

  /** f'{i:02}': the digits of `i`, zero-padded on the left to width two. */
  function FormatTwoDigits(i: nat): (r: string)
    ensures IsDigits(r) && DecimalValue(r) == i
    ensures i < 100 ==> |r| == 2
  {
    var d := NatToStr(i);
    if |d| < 2 then
      var r := "0" + d;
      assert r[..|r| - 1] == "0";
      r
    else
      assert i < 100 ==> |d| == 2 by {
        if i < 100 {
          NatToStrLength(i, 2);
          assert Pow10(2) == 100;
        }
      }
      d
  }

  /** The value of a two-digit string. */
  lemma TwoDigitValue(a: string)
    requires |a| == 2 && AllDigits(a)
    ensures DecimalValue(a) == 10 * DigitValue(a[0]) + DigitValue(a[1])
  {
    assert a[..1][..0] == [];
    assert a[..|a| - 1] == a[..1] && a[..1][0] == a[0];
    assert DecimalValue(a[..1]) == DigitValue(a[0]);
  }

  /** A two-digit string is determined by its value. */
  lemma TwoDigitsDetermined(a: string, b: string)
    requires |a| == 2 && |b| == 2 && AllDigits(a) && AllDigits(b)
    requires DecimalValue(a) == DecimalValue(b)
    ensures a == b
  {
    TwoDigitValue(a);
    TwoDigitValue(b);
    assert DigitChar(DigitValue(a[0])) == a[0];
  }

  /** `code in [f'{i:02}' for i in range(lo, hi)]`: the list is scanned
      from `lo` upwards. */
  predicate Listed(code: string, lo: nat, hi: nat)
    decreases hi - lo
  {
    lo < hi && (code == FormatTwoDigits(lo) || Listed(code, lo + 1, hi))
  }

  /** A two-digit code is listed exactly when its value lies in [lo, hi). */
  lemma {:induction false} ListedRange(code: string, lo: nat, hi: nat)
    requires |code| == 2 && AllDigits(code) && hi <= 100
    ensures Listed(code, lo, hi) <==> lo <= DecimalValue(code) < hi
    decreases hi - lo
  {
    if lo < hi {
      ListedRange(code, lo + 1, hi);
      if DecimalValue(code) == lo {
        TwoDigitsDetermined(code, FormatTwoDigits(lo));
      }
    }
  }

  // ------------------------------------------------ replace, lstrip, upper

  /** `s.replace(c, "")`: every occurrence of `c` deleted, nothing else. */
  function Remove(s: string, c: char): string {
    if s == [] then [] else (if s[0] == c then [] else [s[0]]) + Remove(s[1..], c)
  }

  /** What `Remove` keeps: every `c` goes, every other character stays. */
  lemma {:induction false} RemoveSpec(s: string, c: char)
    ensures var r := Remove(s, c);
      |r| == |s| - multiset(s)[c] && forall x :: x in r <==> x in s && x != c
  {
    if s != [] {
      assert s == [s[0]] + s[1..];
      RemoveSpec(s[1..], c);
    }
  }

  /** Deleting `c` keeps every other character as often as it occurs. */
  lemma {:induction false} RemoveCount(s: string, c: char, x: char)
    requires x != c
    ensures multiset(Remove(s, c))[x] == multiset(s)[x]
  {
    if s != [] {
      RemoveCount(s[1..], c, x);
      assert s == [s[0]] + s[1..];
      var head: string := if s[0] == c then [] else [s[0]];
      assert multiset(Remove(s, c)) == multiset(head) + multiset(Remove(s[1..], c));
    }
  }

  lemma {:induction false} RemoveAppend(a: string, b: string, c: char)
    ensures Remove(a + b, c) == Remove(a, c) + Remove(b, c)
  {
    if a != [] {
      assert (a + b)[0] == a[0] && (a + b)[1..] == a[1..] + b;
      RemoveAppend(a[1..], b, c);
      var head: string := if a[0] == c then [] else [a[0]];
      assert Remove(a + b, c) == head + (Remove(a[1..], c) + Remove(b, c));
      assert Remove(a, c) == head + Remove(a[1..], c);
    } else {
      assert a + b == b;
    }
  }

  lemma {:induction false} RemoveAbsent(s: string, c: char)
    requires c !in s
    ensures Remove(s, c) == s
  {
    if s != [] {
      assert s == [s[0]] + s[1..];
      RemoveAbsent(s[1..], c);
    }
  }

  /** `s.lstrip(c)` for a single character `c`: the leading run of `c`
      removed, the rest kept as it was. */
  function LStrip(s: string, c: char): (r: string)
    ensures |r| <= |s| && r == s[|s| - |r|..]
    ensures forall i :: 0 <= i < |s| - |r| ==> s[i] == c
    ensures r == [] || r[0] != c
  {
    if s != [] && s[0] == c then LStrip(s[1..], c) else s
  }

  /** `s.upper()` on ASCII text. */
  function Upper(s: string): (r: string)
    ensures |r| == |s|
    ensures forall i :: 0 <= i < |s| ==> r[i] == UpperChar(s[i])
  {
    if s == [] then [] else [UpperChar(s[0])] + Upper(s[1..])
  }

  /** Upper-casing leaves digits alone. */
  lemma UpperDigits(d: string)
    requires AllDigits(d)
    ensures Upper(d) == d
  {
    assert forall i :: 0 <= i < |d| ==> Upper(d)[i] == d[i];
  }

  // --------------------------------------------------------- split and join

  /** A word of `str.split()`: a non-empty run with no whitespace. */
  predicate IsWord(w: string) {
    |w| > 0 && forall i :: 0 <= i < |w| ==> !IsSpace(w[i])
  }

  /** The longest prefix of `s` that holds no whitespace. */
  function LeadingWord(s: string): (w: string)
    ensures w <= s
    ensures forall i :: 0 <= i < |w| ==> !IsSpace(w[i])
    ensures |w| == |s| || IsSpace(s[|w|])
  {
    if s == [] || IsSpace(s[0]) then [] else [s[0]] + LeadingWord(s[1..])
  }

  /** `s` with every whitespace character deleted. */
  function NonSpace(s: string): string {
    if s == [] then [] else (if IsSpace(s[0]) then [] else [s[0]]) + NonSpace(s[1..])
  }

  /** The words written one after another, `"".join(words)`. */
  function Concat(words: seq<string>): string {
    if words == [] then [] else words[0] + Concat(words[1..])
  }

  lemma {:induction false} NonSpaceAppend(a: string, b: string)
    ensures NonSpace(a + b) == NonSpace(a) + NonSpace(b)
  {
    if a != [] {
      assert (a + b)[0] == a[0] && (a + b)[1..] == a[1..] + b;
      NonSpaceAppend(a[1..], b);
      var head: string := if IsSpace(a[0]) then [] else [a[0]];
      assert NonSpace(a + b) == head + (NonSpace(a[1..]) + NonSpace(b));
    } else {
      assert a + b == b;
    }
  }

  /** Deleting whitespace keeps text that has none. */
  lemma {:induction false} NonSpaceOfWord(w: string)
    requires forall i :: 0 <= i < |w| ==> !IsSpace(w[i])
    ensures NonSpace(w) == w
  {
    if w != [] {
      NonSpaceOfWord(w[1..]);
      assert w == [w[0]] + w[1..];
    }
  }

  /** Deleting whitespace keeps every other character as often as it occurs. */
  lemma {:induction false} NonSpaceCount(s: string, c: char)
    requires !IsSpace(c)
    ensures multiset(NonSpace(s))[c] == multiset(s)[c]
  {
    if s != [] {
      NonSpaceCount(s[1..], c);
      assert s == [s[0]] + s[1..];
      var head: string := if IsSpace(s[0]) then [] else [s[0]];
      assert multiset(NonSpace(s)) == multiset(head) + multiset(NonSpace(s[1..]));
    }
  }

  lemma ConcatWordFirst(s: string, w: string, words: seq<string>)
    requires w <= s && forall i :: 0 <= i < |w| ==> !IsSpace(w[i])
    requires Concat(words) == NonSpace(s[|w|..])
    ensures Concat([w] + words) == NonSpace(s)
  {
    assert s == w + s[|w|..];
    NonSpaceAppend(w, s[|w|..]);
    NonSpaceOfWord(w);
    assert ([w] + words)[1..] == words;
  }

  /** `s.split()` without a separator: the maximal whitespace-free runs of
      `s`, in order. Each is a word made of characters of `s`, and together
      they hold every non-whitespace character of `s`, in order. */
  function Split(s: string): (words: seq<string>)
    ensures forall i :: 0 <= i < |words| ==> IsWord(words[i])
    ensures forall i, c :: 0 <= i < |words| && c in words[i] ==> c in s
    ensures Concat(words) == NonSpace(s)
    decreases |s|
  {
    if s == [] then []
    else if IsSpace(s[0]) then
      assert forall c :: c in s[1..] ==> c in s;
      Split(s[1..])
    else
      var w := LeadingWord(s);
      var rest := Split(s[|w|..]);
      SplitCons(s, w, rest);
      [w] + rest
  }

  /** The words of `s` are its leading word followed by the words after it. */
  lemma SplitCons(s: string, w: string, rest: seq<string>)
    requires w <= s && IsWord(w)
    requires forall i :: 0 <= i < |rest| ==> IsWord(rest[i])
    requires forall i, c :: 0 <= i < |rest| && c in rest[i] ==> c in s[|w|..]
    requires Concat(rest) == NonSpace(s[|w|..])
    ensures forall i :: 0 <= i < |[w] + rest| ==> IsWord(([w] + rest)[i])
    ensures forall i, c :: 0 <= i < |[w] + rest| && c in ([w] + rest)[i] ==> c in s
    ensures Concat([w] + rest) == NonSpace(s)
  {
    assert forall c :: c in w ==> c in s;
    assert forall c :: c in s[|w|..] ==> c in s;
    ConcatWordFirst(s, w, rest);
  }

  /** `" ".join(words)`; its characters are spaces or come from the words. */
  function Join(words: seq<string>): (r: string)
    ensures forall c :: c in r ==> c == ' ' || exists i :: 0 <= i < |words| && c in words[i]
  {
    if words == [] then ""
    else if |words| == 1 then words[0]
    else
      var rest := Join(words[1..]);
      assert forall c :: c in rest ==> c == ' ' || exists i :: 0 <= i < |words| && c in words[i] by {
        forall c | c in rest && c != ' '
          ensures exists i :: 0 <= i < |words| && c in words[i]
        {
          var j :| 0 <= j < |words[1..]| && c in words[1..][j];
          assert c in words[j + 1];
        }
      }
      words[0] + " " + rest
  }

  /** Text in the shape `" ".join(s.split())` produces: every whitespace
      character is a single space with a non-whitespace character on each
      side, so there is none at either end and no run of two. */
  predicate IsCollapsed(r: string) {
    forall i :: 0 <= i < |r| && IsSpace(r[i]) ==>
      r[i] == ' ' && 0 < i < |r| - 1 && !IsSpace(r[i - 1]) && !IsSpace(r[i + 1])
  }

  /** `" ".join(s.split())`: the words of `s`, kept in order, separated by
      one space each; no character is introduced except the space, and
      every non-whitespace character of `s` stays, in order. */
  function Collapse(s: string): (r: string)
    ensures IsCollapsed(r)
    ensures Split(r) == Split(s)
    ensures forall c :: c in r ==> c == ' ' || c in s
    ensures NonSpace(r) == NonSpace(s)
  {
    var words := Split(s);
    JoinCollapsed(words);
    SplitJoin(words);
    JoinNonSpace(words);
    Join(words)
  }

  /** Deleting the whitespace of joined words leaves the words run together. */
  lemma {:induction false} JoinNonSpace(words: seq<string>)
    requires forall i :: 0 <= i < |words| ==> IsWord(words[i])
    ensures NonSpace(Join(words)) == Concat(words)
  {
    if words != [] {
      var w := words[0];
      NonSpaceOfWord(w);
      if |words| == 1 {
        assert Concat(words) == w + Concat([]);
      } else {
        var rest := Join(words[1..]);
        JoinNonSpace(words[1..]);
        assert Join(words) == w + " " + rest;
        SpaceBetween(w, rest);
        assert Concat(words) == w + Concat(words[1..]);
      }
    }
  }

  lemma SpaceBetween(w: string, rest: string)
    requires forall i :: 0 <= i < |w| ==> !IsSpace(w[i])
    ensures NonSpace(w + " " + rest) == w + NonSpace(rest)
  {
    NonSpaceAppend(w + " ", rest);
    NonSpaceAppend(w, " ");
    NonSpaceOfWord(w);
    assert IsSpace(" "[0]) && " "[1..] == [];
    assert NonSpace(" ") == [];
    assert NonSpace(w + " ") == w;
  }

  lemma {:induction false} JoinCollapsed(words: seq<string>)
    requires forall i :: 0 <= i < |words| ==> IsWord(words[i])
    ensures IsCollapsed(Join(words))
    ensures words != [] ==> var r := Join(words); |r| > 0 && !IsSpace(r[0]) && !IsSpace(r[|r| - 1])
  {
    if |words| > 1 {
      JoinCollapsed(words[1..]);
      var w, rest := words[0], Join(words[1..]);
      var r := w + " " + rest;
      assert IsWord(w);
      forall i | 0 <= i < |r| && IsSpace(r[i])
        ensures r[i] == ' ' && 0 < i < |r| - 1 && !IsSpace(r[i - 1]) && !IsSpace(r[i + 1])
      {
        if i > |w| {
          assert r[i] == rest[i - |w| - 1];
          assert r[i - 1] == rest[i - |w| - 2];
          assert r[i + 1] == rest[i - |w|];
        }
      }
    }
  }

  /** A word followed by nothing or by whitespace is the leading word. */
  lemma {:induction false} LeadingWordOf(w: string, rest: string)
    requires forall i :: 0 <= i < |w| ==> !IsSpace(w[i])
    requires rest == [] || IsSpace(rest[0])
    ensures LeadingWord(w + rest) == w
  {
    if w != [] {
      assert (w + rest)[1..] == w[1..] + rest;
      LeadingWordOf(w[1..], rest);
    }
  }

  /** `split` undoes `" ".join` on words. */
  lemma {:induction false} SplitJoin(words: seq<string>)
    requires forall i :: 0 <= i < |words| ==> IsWord(words[i])
    ensures Split(Join(words)) == words
  {
    if |words| == 1 {
      var w := words[0];
      LeadingWordOf(w, []);
      assert w + [] == w;
      assert w[|w|..] == [];
    } else if |words| > 1 {
      var w, rest := words[0], Join(words[1..]);
      var r := w + " " + rest;
      LeadingWordOf(w, " " + rest);
      assert r == w + (" " + rest);
      assert r[|w|..] == " " + rest;
      assert (" " + rest)[1..] == rest;
      SplitJoin(words[1..]);
      assert words == [w] + words[1..];
    }
  }

  /** A whitespace character at the front contributes no word. */
  lemma SplitSpaceFirst(c: char, s: string)
    requires IsSpace(c)
    ensures Split([c] + s) == Split(s)
  {
    assert ([c] + s)[1..] == s;
  }

  /** A word followed by nothing or by whitespace is the first word. */
  lemma SplitWordFirst(w: string, t: string)
    requires IsWord(w)
    requires t == [] || IsSpace(t[0])
    ensures Split(w + t) == [w] + Split(t)
  {
    LeadingWordOf(w, t);
    assert (w + t)[0] == w[0];
    assert (w + t)[|w|..] == t;
  }

  lemma WordsAssoc(w: string, x: seq<string>, y: seq<string>)
    ensures [w] + (x + y) == ([w] + x) + y
  {
  }

  /** The step of `SplitAtSpace` for a text that starts with a word. */
  lemma SplitAtSpaceAfterWord(w: string, t: string, u: string, b: string)
    requires IsWord(w)
    requires u == [] || IsSpace(u[0])
    requires t == [] || IsSpace(t[0])
    requires Split(u) == Split(t) + Split(b)
    ensures Split(w + u) == Split(w + t) + Split(b)
  {
    SplitWordFirst(w, u);
    SplitWordFirst(w, t);
    WordsAssoc(w, Split(t), Split(b));
  }

  /** `split()` breaks words at every whitespace character: the words of
      `a + [c] + b` are the words of `a` followed by the words of `b`.
      Together with `SplitJoin([w])` (a word splits into itself) this
      fixes `Split` on every input. */
  lemma {:induction false} SplitAtSpace(a: string, c: char, b: string)
    requires IsSpace(c)
    ensures Split(a + [c] + b) == Split(a) + Split(b)
    decreases |a|, 1
  {
    if a == [] {
      assert a + [c] + b == [c] + b;
      SplitSpaceFirst(c, b);
    } else if IsSpace(a[0]) {
      SplitAtSpaceSpaceHead(a, c, b);
    } else {
      SplitAtSpaceWordHead(a, c, b);
    }
  }

  lemma {:induction false} SplitAtSpaceSpaceHead(a: string, c: char, b: string)
    requires IsSpace(c) && a != [] && IsSpace(a[0])
    ensures Split(a + [c] + b) == Split(a) + Split(b)
    decreases |a|, 0
  {
    var t := a[1..];
    SplitAtSpace(t, c, b);
    assert (a + [c] + b)[0] == a[0];
    assert (a + [c] + b)[1..] == t + [c] + b;
  }

  lemma {:induction false} SplitAtSpaceWordHead(a: string, c: char, b: string)
    requires IsSpace(c) && a != [] && !IsSpace(a[0])
    ensures Split(a + [c] + b) == Split(a) + Split(b)
    decreases |a|, 0
  {
    var w := LeadingWord(a);
    var t := a[|w|..];
    var u := t + [c] + b;
    assert a == w + t;
    assert a + [c] + b == w + u;
    assert u[0] == if t == [] then c else t[0];
    SplitAtSpace(t, c, b);
    SplitAtSpaceAfterWord(w, t, u, b);
  }

  /** The strings `Collapse` leaves unchanged are exactly the collapsed
      ones; in particular it is idempotent. */
  lemma {:induction false} CollapseFixpoint(r: string)
    ensures Collapse(r) == r <==> IsCollapsed(r)
    decreases |r|
  {
    if IsCollapsed(r) && r != [] {
      var w := LeadingWord(r);
      assert |w| > 0;
      if |w| == |r| {
        assert w == r;
        assert r[|w|..] == [];
        assert Split(r) == [w];
      } else {
        var rest := r[|w| + 1..];
        assert r[|w|] == ' ';
        assert rest[0] == r[|w| + 1];
        assert IsCollapsed(rest) by {
          forall i | 0 <= i < |rest| && IsSpace(rest[i])
            ensures rest[i] == ' ' && 0 < i < |rest| - 1 && !IsSpace(rest[i - 1]) && !IsSpace(rest[i + 1])
          {
            assert rest[i] == r[|w| + 1 + i];
          }
        }
        assert r[|w|..][1..] == rest;
        assert Split(r) == [w] + Split(rest);
        CollapseFixpoint(rest);
        assert Split(rest) != [];
        assert r == w + " " + rest;
      }
    }
  }

  lemma CollapseIdempotent(s: string)
    ensures Collapse(Collapse(s)) == Collapse(s)
  {
    CollapseFixpoint(Collapse(s));
  }
}

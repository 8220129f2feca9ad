/** The string operations the handshake uses, as Rust defines them on ASCII text. */
module Text {
  import opened Basics

  /** White space in an ASCII text. */
  predicate IsSpace(c: char) { '\t' <= c <= '\r' || c == ' ' }

  function TrimStart(s: string): string
    decreases |s|
  {
    if s != "" && IsSpace(s[0]) then TrimStart(s[1..]) else s
  }

  function TrimEnd(s: string): string
    decreases |s|
  {
    if s != "" && IsSpace(s[|s| - 1]) then TrimEnd(s[..|s| - 1]) else s
  }

  function Trim(s: string): string { TrimEnd(TrimStart(s)) }

  /** No space at either end. */
  predicate Trimmed(s: string) { s == "" || (!IsSpace(s[0]) && !IsSpace(s[|s| - 1])) }

  lemma TrimTrimmed(s: string)
    requires Trimmed(s)
    ensures Trim(s) == s && Trim(" " + s) == s
  {
    assert (" " + s)[1..] == s;
    if s == "" { assert TrimStart(" ") == TrimStart(""); }
  }

  /** `split` on a character. */
  function Split(s: string, c: char): (r: seq<string>)
    ensures |r| >= 1
    decreases |s|
  {
    if s == "" then [""]
    else
      var r := Split(s[1..], c);
      if s[0] == c then [""] + r else [[s[0]] + r[0]] + r[1..]
  }

  lemma {:induction false} SplitFree(s: string, c: char)
    requires c !in s
    ensures Split(s, c) == [s]
    decreases |s|
  {
    if s != "" {
      SplitFree(s[1..], c);
      assert [s[0]] + s[1..] == s;
    }
  }

  lemma {:induction false} SplitFirst(a: string, c: char, b: string)
    requires c !in a
    ensures Split(a + [c] + b, c) == [a] + Split(b, c)
    decreases |a|
  {
    if a == "" {
      assert (a + [c] + b)[1..] == b;
    } else {
      assert (a + [c] + b)[1..] == a[1..] + [c] + b;
      SplitFirst(a[1..], c, b);
      assert [a[0]] + a[1..] == a;
    }
  }

  lemma {:induction false} SplitConcat(a: string, c: char, b: string)
    ensures Split(a + [c] + b, c) == Split(a, c) + Split(b, c)
    decreases |a|
  {
    if a == "" {
      assert (a + [c] + b)[1..] == b;
    } else {
      assert (a + [c] + b)[1..] == a[1..] + [c] + b;
      SplitConcat(a[1..], c, b);
    }
  }

  function Join(ps: seq<string>, c: char): string
    requires |ps| >= 1
    decreases |ps|
  {
    if |ps| == 1 then ps[0] else ps[0] + [c] + Join(ps[1..], c)
  }

  lemma {:induction false} SplitJoin(ps: seq<string>, c: char)
    requires |ps| >= 1 && forall p | p in ps :: c !in p
    ensures Split(Join(ps, c), c) == ps
    decreases |ps|
  {
    if |ps| == 1 {
      SplitFree(ps[0], c);
    } else {
      SplitJoin(ps[1..], c);
      SplitFirst(ps[0], c, Join(ps[1..], c));
    }
  }

  // ---------------------------------------------------------------- u8 in decimal

  const DIGITS: string := "0123456789"

  function DigitValue(c: char): Option<nat> {
    if '0' <= c <= '9' then Some(c as nat - '0' as nat) else None
  }

  function DigitsValue(s: string): Option<nat>
    decreases |s|
  {
    if s == "" then Some(0)
    else
      match (DigitsValue(s[..|s| - 1]), DigitValue(s[|s| - 1]))
      case (Some(n), Some(d)) => Some(10 * n + d)
      case _ => None
  }

  /** `parse::<u8>().ok()`: an optional plus sign, digits, no overflow. */
  function ParseU8(s: string): Option<byte> {
    var digits := if s != "" && s[0] == '+' then s[1..] else s;
    if digits == "" then None
    else
      match DigitsValue(digits)
      case Some(n) => if n < 256 then Some(n) else None
      case None => None
  }

  function ShowU8(n: byte): string {
    if n < 10 then [DIGITS[n]]
    else if n < 100 then [DIGITS[n / 10], DIGITS[n % 10]]
    else [DIGITS[n / 100], DIGITS[n / 10 % 10], DIGITS[n % 10]]
  }

  lemma DigitShown(d: nat)
    requires d < 10
    ensures DigitValue(DIGITS[d]) == Some(d) && DIGITS[d] != '+' && DIGITS[d] != '='
            && DIGITS[d] != ';' && !IsSpace(DIGITS[d]) && DIGITS[d] != '\r' && DIGITS[d] != '\n'
  {
  }

  lemma DigitsOne(a: char)
    ensures DigitsValue([a]) == DigitValue(a)
  {
    assert [a][..0] == "";
  }

  lemma DigitsMore(s: string, a: char)
    requires DigitsValue(s).Some? && DigitValue(a).Some?
    ensures DigitsValue(s + [a]) == Some(10 * DigitsValue(s).value + DigitValue(a).value)
  {
    assert (s + [a])[..|s|] == s;
  }

  lemma Decimal(n: byte)
    ensures 100 * (n / 100) + 10 * (n / 10 % 10) + n % 10 == n
    ensures n < 100 ==> n / 10 % 10 == n / 10
    ensures n / 100 < 10
  {
  }

  lemma ParseTwo(a: nat, b: nat)
    requires a < 10 && b < 10
    ensures DigitsValue([DIGITS[a], DIGITS[b]]) == Some(10 * a + b)
  {
    hide DigitValue, DigitsValue, IsSpace;
    DigitShown(a);
    DigitShown(b);
    DigitsOne(DIGITS[a]);
    DigitsMore([DIGITS[a]], DIGITS[b]);
    assert [DIGITS[a]] + [DIGITS[b]] == [DIGITS[a], DIGITS[b]];
  }

  lemma ParseThree(a: nat, b: nat, c: nat)
    requires a < 10 && b < 10 && c < 10
    ensures DigitsValue([DIGITS[a], DIGITS[b], DIGITS[c]]) == Some(100 * a + 10 * b + c)
  {
    hide DigitValue, DigitsValue, IsSpace;
    ParseTwo(a, b);
    DigitShown(c);
    DigitsMore([DIGITS[a], DIGITS[b]], DIGITS[c]);
    assert [DIGITS[a], DIGITS[b]] + [DIGITS[c]] == [DIGITS[a], DIGITS[b], DIGITS[c]];
  }

  lemma ShowU8Parses(n: byte)
    ensures ParseU8(ShowU8(n)) == Some(n)
  {
    hide DigitValue, DigitsValue, IsSpace;
    Decimal(n);
    if n < 10 {
      DigitShown(n);
      DigitsOne(DIGITS[n]);
    } else if n < 100 {
      DigitShown(n / 10);
      ParseTwo(n / 10, n % 10);
    } else {
      DigitShown(n / 100);
      ParseThree(n / 100, n / 10 % 10, n % 10);
    }
  }

  /** What a printed number never contains. */
  lemma ShowU8Clean(n: byte)
    ensures var s := ShowU8(n);
      s != "" && Trimmed(s) && '=' !in s && ';' !in s && '\r' !in s && '\n' !in s
  {
    hide IsSpace, DigitValue;
    DigitShown(n % 10);
    DigitShown(n / 10 % 10);
    if n < 10 { DigitShown(n); }
    if n >= 100 { DigitShown(n / 100); }
  }

  // ---------------------------------------------------------------- what the operations mean

  /** Tab, line feed, vertical tab, form feed, carriage return and space. */
  lemma SpaceMeaning(c: char)
    ensures IsSpace(c) <==> c as int in {9, 10, 11, 12, 13, 32}
  {
  }

  predicate AllSpace(s: string) { forall i :: 0 <= i < |s| ==> IsSpace(s[i]) }

  lemma {:induction false} TrimStartMeaning(s: string) returns (before: string)
    ensures s == before + TrimStart(s) && AllSpace(before)
    ensures TrimStart(s) == "" || !IsSpace(TrimStart(s)[0])
    decreases |s|
  {
    hide IsSpace;
    if s != "" && IsSpace(s[0]) {
      var more := TrimStartMeaning(s[1..]);
      before := [s[0]] + more;
      assert s == [s[0]] + s[1..];
    } else {
      before := "";
      assert "" + s == s;
    }
  }

  lemma {:induction false} TrimEndMeaning(s: string) returns (after: string)
    ensures s == TrimEnd(s) + after && AllSpace(after)
    ensures var t := TrimEnd(s); t == "" || (!IsSpace(t[|t| - 1]) && t[0] == s[0])
    decreases |s|
  {
    hide IsSpace;
    if s != "" && IsSpace(s[|s| - 1]) {
      var more := TrimEndMeaning(s[..|s| - 1]);
      after := more + [s[|s| - 1]];
      assert s == s[..|s| - 1] + [s[|s| - 1]];
    } else {
      after := "";
      assert s + "" == s;
    }
  }

  /** Trimming takes the space off both ends, and nothing else. */
  lemma TrimMeaning(s: string) returns (before: string, after: string)
    ensures s == before + Trim(s) + after && AllSpace(before) && AllSpace(after) && Trimmed(Trim(s))
  {
    hide IsSpace, TrimStart, TrimEnd, AllSpace;
    before := TrimStartMeaning(s);
    after := TrimEndMeaning(TrimStart(s));
    Reassociate(before, Trim(s), after);
  }

  lemma Reassociate(a: string, b: string, c: string)
    ensures a + b + c == a + (b + c)
  {
  }

  /** A trimmed text with space around it trims to itself. */
  lemma TrimPadded(before: string, t: string, after: string)
    requires AllSpace(before) && AllSpace(after) && Trimmed(t)
    ensures Trim(before + t + after) == t
  {
    hide IsSpace;
    TrimStartPadded(before, t + after);
    assert before + t + after == before + (t + after);
    if t == "" {
      assert t + after == after;
      TrimStartSpace(after);
    } else {
      TrimStartKeeps(t + after);
      TrimEndPadded(t, after);
    }
  }

  lemma {:induction false} TrimStartPadded(before: string, t: string)
    requires AllSpace(before)
    ensures TrimStart(before + t) == TrimStart(t)
    decreases |before|
  {
    hide IsSpace;
    if before == "" {
      assert before + t == t;
    } else {
      assert (before + t)[1..] == before[1..] + t;
      TrimStartPadded(before[1..], t);
    }
  }

  lemma {:induction false} TrimStartSpace(s: string)
    requires AllSpace(s)
    ensures TrimStart(s) == ""
    decreases |s|
  {
    if s != "" { TrimStartSpace(s[1..]); }
  }

  lemma TrimStartKeeps(s: string)
    requires s != "" && !IsSpace(s[0])
    ensures TrimStart(s) == s
  {
  }

  lemma {:induction false} TrimEndPadded(t: string, after: string)
    requires AllSpace(after) && (t == "" || !IsSpace(t[|t| - 1]))
    ensures TrimEnd(t + after) == t
    decreases |after|
  {
    hide IsSpace;
    if after == "" {
      assert t + after == t;
    } else {
      var n := |after| - 1;
      assert (t + after)[..|t| + n] == t + after[..n];
      TrimEndPadded(t, after[..n]);
    }
  }

  /** Splitting takes a text apart into pieces without the separator, and loses nothing. */
  lemma {:induction false} SplitMeaning(s: string, c: char)
    ensures var ps := Split(s, c); Join(ps, c) == s && forall p | p in ps :: c !in p
    decreases |s|
  {
    if s != "" {
      SplitMeaning(s[1..], c);
      var r, ps := Split(s[1..], c), Split(s, c);
      assert s == [s[0]] + s[1..];
      if s[0] == c {
        assert ps[1..] == r;
        assert "" + [c] + Join(r, c) == [c] + Join(r, c);
      } else {
        assert ps[1..] == r[1..];
        if |r| > 1 { assert [s[0]] + (r[0] + [c] + Join(r[1..], c)) == [s[0]] + r[0] + [c] + Join(r[1..], c); }
        forall p | p in ps ensures c !in p { if p != ps[0] { assert p in r[1..]; } else { assert r[0] in r; } }
      }
    }
  }

  function Zeros(k: nat): string { seq(k, _ => '0') }

  lemma ShowMore(n: nat, d: nat)
    requires 1 <= n && d < 10 && 10 * n + d < 256
    ensures ShowU8(10 * n + d) == ShowU8(n) + [DIGITS[d]]
  {
    var m := 10 * n + d;
    assert m / 10 == n && m % 10 == d && m / 100 == n / 10;
  }

  lemma DigitIs(c: char)
    requires DigitValue(c).Some?
    ensures DigitValue(c).value < 10 && DIGITS[DigitValue(c).value] == c
  {
  }

  /** A numeral below 256 is the number as it is printed, with zeros in front. */
  lemma {:induction false} DigitsMeaning(s: string) returns (k: nat)
    requires s != "" && DigitsValue(s).Some? && DigitsValue(s).value < 256
    ensures s == Zeros(k) + ShowU8(DigitsValue(s).value)
    decreases |s|
  {
    hide DigitValue, DigitsValue, ShowU8;
    var init, c := s[..|s| - 1], s[|s| - 1];
    assert s == init + [c];
    DigitsSnoc(init, c);
    DigitIs(c);
    var d, m := DigitValue(c).value, DigitsValue(init).value;
    if init == "" {
      k := 0;
      ShowDigit(d);
      NoZeros([c]);
    } else {
      var j := DigitsMeaning(init);
      if m == 0 {
        k := j + 1;
        ShowDigit(0);
        ShowDigit(d);
        assert Zeros(k) == Zeros(j) + ['0'];
      } else {
        k := j;
        ShowMore(m, d);
        assert Zeros(j) + (ShowU8(m) + [c]) == Zeros(j) + ShowU8(m) + [c];
      }
    }
  }

  lemma DigitsSnoc(s: string, c: char)
    requires DigitsValue(s + [c]).Some?
    ensures DigitsValue(s).Some? && DigitValue(c).Some?
    ensures DigitsValue(s + [c]).value == 10 * DigitsValue(s).value + DigitValue(c).value
    ensures s == "" ==> DigitsValue(s).value == 0
  {
    assert (s + [c])[..|s|] == s;
  }

  lemma NoZeros(s: string)
    ensures Zeros(0) + s == s
  {
  }

  lemma ShowDigit(d: nat)
    requires d < 10
    ensures ShowU8(d) == [DIGITS[d]]
  {
  }

  lemma {:induction false} ZerosParse(k: nat, s: string)
    ensures DigitsValue(Zeros(k) + s) == DigitsValue(s)
    decreases |s|, k
  {
    if s != "" {
      ZerosParse(k, s[..|s| - 1]);
      assert (Zeros(k) + s)[..|Zeros(k) + s| - 1] == Zeros(k) + s[..|s| - 1];
    } else if k > 0 {
      ZerosParse(k - 1, "");
      assert Zeros(k)[..k - 1] == Zeros(k - 1);
      assert Zeros(k) + "" == Zeros(k) && Zeros(k - 1) + "" == Zeros(k - 1);
    }
  }

  /** s is a numeral for n: an optional plus sign, any zeros, and n as it is printed. */
  ghost predicate Numeral(s: string, n: byte) { exists plus, k :: s == NumeralText(plus, k, n) }

  function NumeralText(plus: bool, k: nat, n: byte): string {
    (if plus then "+" else "") + (Zeros(k) + ShowU8(n))
  }

  /** What is read as a number: exactly the numerals of the numbers below 256. */
  lemma ParseU8Meaning(s: string)
    ensures forall n: byte :: ParseU8(s) == Some(n) <==> Numeral(s, n)
  {
    hide ShowU8, DigitsValue;
    forall n: byte ensures ParseU8(s) == Some(n) <==> Numeral(s, n) {
      if ParseU8(s) == Some(n) {
        var plus := s != "" && s[0] == '+';
        var digits := if plus then s[1..] else s;
        var k := DigitsMeaning(digits);
        assert s == NumeralText(plus, k, n);
      }
      if Numeral(s, n) {
        var plus, k :| s == NumeralText(plus, k, n);
        NumeralParses(plus, k, n);
      }
    }
  }

  lemma NumeralParses(plus: bool, k: nat, n: byte)
    ensures ParseU8(NumeralText(plus, k, n)) == Some(n)
  {
    hide DigitsValue;
    var digits := Zeros(k) + ShowU8(n);
    var s := (if plus then "+" else "") + digits;
    ZerosParse(k, ShowU8(n));
    ShowU8Parses(n);
    NoPlus(n);
    assert digits[0] != '+' by { if k == 0 { assert digits == ShowU8(n); } }
    if plus { assert s[1..] == digits; } else { assert s == digits; }
  }

  lemma NoPlus(n: byte)
    ensures ShowU8(n) != "" && ShowU8(n)[0] != '+'
  {
    hide IsSpace, DigitValue;
    DigitShown(n % 10);
    DigitShown(n / 10 % 10);
    if n < 10 { DigitShown(n); }
    if n < 100 { DigitShown(n / 10 % 10); }
    if n >= 100 { DigitShown(n / 100); }
  }

  lemma Samples()
    ensures ShowU8(0) == "0" && ShowU8(9) == "9" && ShowU8(15) == "15" && ShowU8(255) == "255"
  {
  }
}

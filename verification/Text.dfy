/** Trimming, and the decimal text of integers as Rust's `to_string` and `parse` treat it. */
module Text {
  import opened Prelude
  import opened Numerals

  /** The characters with the Unicode property White_Space. */
  predicate IsWhitespace(c: char) {
    || '\U{0009}' <= c <= '\U{000D}'
    || c in {' ', '\U{0085}', '\U{00A0}', '\U{1680}', '\U{2028}', '\U{2029}', '\U{202F}', '\U{205F}', '\U{3000}'}
    || '\U{2000}' <= c <= '\U{200A}'
  }

  function TrimStart(s: string): string {
    if s != [] && IsWhitespace(s[0]) then TrimStart(s[1..]) else s
  }

  function TrimEnd(s: string): string {
    if s != [] && IsWhitespace(s[|s| - 1]) then TrimEnd(s[..|s| - 1]) else s
  }

  function Trim(s: string): string {
    TrimEnd(TrimStart(s))
  }

  /** A text whose two ends are not whitespace. */
  ghost predicate Trimmed(s: string) {
    s != [] ==> !IsWhitespace(s[0]) && !IsWhitespace(s[|s| - 1])
  }

  lemma {:induction false} TrimEndKeepsFront(s: string)
    ensures TrimEnd(s) <= s
    ensures TrimEnd(s) != [] ==> !IsWhitespace(TrimEnd(s)[|TrimEnd(s)| - 1])
  {
    if s != [] && IsWhitespace(s[|s| - 1]) {
      TrimEndKeepsFront(s[..|s| - 1]);
    }
  }

  lemma {:induction false} TrimStartClean(s: string)
    ensures TrimStart(s) != [] ==> !IsWhitespace(TrimStart(s)[0])
  {
    if s != [] && IsWhitespace(s[0]) {
      TrimStartClean(s[1..]);
    }
  }

  lemma TrimIdempotent(s: string)
    ensures Trimmed(Trim(s))
    ensures Trim(Trim(s)) == Trim(s)
  {
    TrimStartClean(s);
    TrimEndKeepsFront(TrimStart(s));
  }

  ghost predicate AllSpace(s: string) {
    forall i :: 0 <= i < |s| ==> IsWhitespace(s[i])
  }

  lemma {:induction false} TrimEndOf(s: string, after: string)
    requires AllSpace(after) && (s != [] ==> !IsWhitespace(s[|s| - 1]))
    ensures TrimEnd(s + after) == s
  {
    if after == [] {
      assert s + after == s;
    } else {
      assert (s + after)[..|s + after| - 1] == s + after[..|after| - 1];
      TrimEndOf(s, after[..|after| - 1]);
    }
  }

  lemma {:induction false} TrimStartOf(before: string, s: string)
    requires AllSpace(before)
    ensures TrimStart(before + s) == TrimStart(s)
  {
    if before == [] {
      assert before + s == s;
    } else {
      assert (before + s)[1..] == before[1..] + s;
      TrimStartOf(before[1..], s);
    }
  }

  lemma {:induction false} TrimOf(before: string, s: string, after: string)
    requires AllSpace(before) && AllSpace(after) && Trimmed(s)
    ensures Trim(before + s + after) == s
  {
    assert before + s + after == before + (s + after);
    TrimStartOf(before, s + after);
    if s == [] {
      TrimStartOf(after, []);
      assert s + after == after + [];
    } else {
      TrimEndOf(s, after);
    }
  }

  lemma {:induction false} TrimStartSplit(s: string) returns (before: string)
    ensures AllSpace(before) && s == before + TrimStart(s)
  {
    before := [];
    if s != [] && IsWhitespace(s[0]) {
      var rest := TrimStartSplit(s[1..]);
      before := [s[0]] + rest;
    }
  }

  lemma {:induction false} TrimEndSplit(s: string) returns (after: string)
    ensures AllSpace(after) && s == TrimEnd(s) + after
  {
    after := [];
    if s != [] && IsWhitespace(s[|s| - 1]) {
      var rest := TrimEndSplit(s[..|s| - 1]);
      after := rest + [s[|s| - 1]];
    }
  }

  /** Trimming removes whitespace at both ends, all of it, and nothing else. */
  lemma TrimExact(s: string, t: string)
    ensures Trim(s) == t <==>
      Trimmed(t) && exists before, after :: AllSpace(before) && AllSpace(after) && s == before + t + after
  {
    if Trim(s) == t {
      TrimIdempotent(s);
      var before := TrimStartSplit(s);
      var after := TrimEndSplit(TrimStart(s));
      assert s == before + t + after;
    } else if Trimmed(t) {
      forall before, after | AllSpace(before) && AllSpace(after) ensures s != before + t + after {
        TrimOf(before, t, after);
      }
    }
  }

  /** The code points that trimming removes; no visible ASCII character is one of them. */
  lemma SpaceCodes(c: char)
    ensures IsWhitespace(c) <==>
      || 9 <= c as int <= 13 || 8192 <= c as int <= 8202
      || c as int in {32, 133, 160, 5760, 8232, 8233, 8239, 8287, 12288}
    ensures 33 <= c as int <= 126 ==> !IsWhitespace(c)
  {
  }

  /** The decimal text of an integer, with any outer whitespace, trims to itself. */
  lemma DecimalSurvives(before: string, n: int, after: string)
    requires AllSpace(before) && AllSpace(after)
    ensures Trim(before + DecimalText(n) + after) == DecimalText(n)
  {
    NatTextDenotes(if n < 0 then -n else n);
    var t := DecimalText(n);
    assert forall i :: 0 <= i < |t| ==> t[i] == '-' || '0' <= t[i] <= '9';
    TrimOf(before, t, after);
  }

  predicate IsDigit(c: char) {
    '0' <= c <= '9'
  }

  predicate AllDigits(t: string) {
    forall i :: 0 <= i < |t| ==> IsDigit(t[i])
  }

  function DigitSeq(t: string): seq<nat>
    requires AllDigits(t)
  {
    seq(|t|, i requires 0 <= i < |t| => t[i] as int - '0' as int)
  }

  function DenotedNat(t: string): Option<nat> {
    if t != [] && AllDigits(t) then Some(Value(DigitSeq(t), 10)) else None
  }

  /** The integer a decimal text denotes; only signed types read a minus sign. */
  function Denoted(t: string, signed: bool): Option<int> {
    if |t| > 1 && t[0] == '+' then
      DenotedNat(t[1..])
    else if signed && |t| > 1 && t[0] == '-' then
      match DenotedNat(t[1..])
      case Some(n) => Some(0 - n)
      case None => None
    else
      DenotedNat(t)
  }

  /** `str::parse` for the integer type with range `lo..=hi`. */
  function ParseInt(t: string, lo: int, hi: int): (r: Option<int>)
    ensures r.Some? ==> lo <= r.value <= hi
  {
    match Denoted(t, lo < 0)
    case Some(n) => if lo <= n <= hi then Some(n) else None
    case None => None
  }

  function NatText(n: nat): string {
    if n == 0 then "0" else
      var d := Digits(n, 10);
      seq(|d|, i requires 0 <= i < |d| => ('0' as int + d[i]) as char)
  }

  /** `to_string` of an integer. */
  function DecimalText(n: int): string {
    if n < 0 then "-" + NatText(-n) else NatText(n)
  }

  lemma NatTextDenotes(n: nat)
    ensures AllDigits(NatText(n)) && DenotedNat(NatText(n)) == Some(n)
  {
    if n == 0 {
      assert DigitSeq("0")[..0] == [];
    } else {
      ValueOfDigits(n, 10);
      assert DigitSeq(NatText(n)) == Digits(n, 10);
    }
  }

  /** Printing an integer and parsing the text gives the integer back; a negative one needs a signed type. */
  lemma DecimalRoundTrip(n: int, lo: int, hi: int)
    requires lo <= 0
    ensures ParseInt(DecimalText(n), lo, hi) == if lo <= n <= hi then Some(n) else None
  {
    NatTextDenotes(if n < 0 then -n else n);
    if n < 0 {
      assert DecimalText(n)[1..] == NatText(-n);
    }
  }

  function Zeros(k: nat): (z: string)
    ensures |z| == k && forall i :: 0 <= i < k ==> z[i] == '0'
  {
    seq(k, _ => '0')
  }

  lemma {:induction false} PaddedDenotes(k: nat, n: nat)
    ensures AllDigits(Zeros(k) + NatText(n)) && DenotedNat(Zeros(k) + NatText(n)) == Some(n)
  {
    NatTextDenotes(n);
    LeadingZeros(k, DigitSeq(NatText(n)), 10);
    assert DigitSeq(Zeros(k) + NatText(n)) == seq(k, _ => 0) + DigitSeq(NatText(n));
  }

  lemma {:induction false} DenotedPads(t: string) returns (k: nat)
    requires t != [] && AllDigits(t)
    ensures t == Zeros(k) + NatText(DenotedNat(t).value)
  {
    k := 0;
    if t[0] == '0' && |t| > 1 {
      var rest := DenotedPads(t[1..]);
      k := rest + 1;
      var n := DenotedNat(t[1..]).value;
      assert t == Zeros(k) + NatText(n) by {
        assert t == ['0'] + t[1..] && Zeros(k) == ['0'] + Zeros(rest);
      }
      PaddedDenotes(k, n);
    } else if t[0] != '0' {
      DigitsOfValue(DigitSeq(t), 10);
      assert NatText(DenotedNat(t).value) == t;
    } else {
      assert t == "0" && DigitSeq(t) == [0] && [0][..0] == [];
    }
  }

  /** `t` is a sign that the type reads, any number of zeros, and the decimal text of the absolute value. */
  ghost predicate Spells(t: string, n: int, signed: bool) {
    exists k: nat :: SpellsWith(t, n, signed, k)
  }

  ghost predicate SpellsWith(t: string, n: int, signed: bool, k: nat) {
    || (n >= 0 && t == Zeros(k) + NatText(n))
    || (n >= 0 && t == "+" + Zeros(k) + NatText(n))
    || (n <= 0 && signed && t == "-" + Zeros(k) + NatText(-n))
  }

  lemma AfterSign(t: string, zeros: string, digits: string)
    requires t != [] && t[1..] == zeros + digits
    ensures t == [t[0]] + zeros + digits
  {
    assert t == [t[0]] + t[1..];
  }

  lemma {:induction false} DenotedSpells(t: string, n: int, signed: bool)
    requires Denoted(t, signed) == Some(n)
    ensures Spells(t, n, signed)
  {
    if |t| > 1 && (t[0] == '+' || (signed && t[0] == '-')) {
      var k := DenotedPads(t[1..]);
      AfterSign(t, Zeros(k), NatText(DenotedNat(t[1..]).value));
      assert SpellsWith(t, n, signed, k);
    } else {
      var k := DenotedPads(t);
      assert SpellsWith(t, n, signed, k);
    }
  }

  /** A text denotes exactly the integers it spells: no other sign, no other digits, no inner space. */
  lemma {:induction false} DenotedExactly(t: string, n: int, signed: bool)
    ensures Denoted(t, signed) == Some(n) <==> Spells(t, n, signed)
  {
    if Denoted(t, signed) == Some(n) {
      DenotedSpells(t, n, signed);
    } else if Spells(t, n, signed) {
      var k: nat :| SpellsWith(t, n, signed, k);
      SpelledDenotes(t, n, signed, k);
    }
  }

  lemma SpelledDenotes(t: string, n: int, signed: bool, k: nat)
    requires SpellsWith(t, n, signed, k)
    ensures Denoted(t, signed) == Some(n)
  {
    var m := if n < 0 then -n else n;
    var digits := Zeros(k) + NatText(m);
    PaddedDenotes(k, m);
    assert IsDigit(digits[0]);
    if t != digits {
      assert t[1..] == digits;
    }
  }

  function HexDigit(c: char): (d: Option<nat>)
    ensures d.Some? ==> d.value < 16
  {
    if '0' <= c <= '9' then Some(c as int - '0' as int)
    else if 'a' <= c <= 'f' then Some(c as int - 'a' as int + 10)
    else if 'A' <= c <= 'F' then Some(c as int - 'A' as int + 10)
    else None
  }

  /** The lower-case hexadecimal digit. */
  function HexChar(d: nat): (c: char)
    requires d < 16
    ensures HexDigit(c) == Some(d) && ('0' <= c <= '9' || 'a' <= c <= 'f')
  {
    if d < 10 then ('0' as int + d) as char else ('a' as int + d - 10) as char
  }

  /** The digits of both cases, at their values. */
  lemma HexDigitExact(c: char)
    ensures HexDigit(c).Some? <==> c in "0123456789abcdef" || c in "ABCDEF"
    ensures HexDigit(c).Some? ==>
      "0123456789abcdef"[HexDigit(c).value] == c || "0123456789ABCDEF"[HexDigit(c).value] == c
  {
  }
}

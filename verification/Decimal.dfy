/** Exact comparison of decimal strings, src/card/delegation.ts. */
module Decimal {
  import opened Wrappers
  import opened Digits

  /** What JavaScript's `trim` removes. */
  predicate IsSpace(c: char) {
    || '\t' <= c <= '\r' || c == ' ' || c == '\U{00A0}' || c == '\U{1680}' || '\U{2000}' <= c <= '\U{200A}'
    || c == '\U{2028}' || c == '\U{2029}' || c == '\U{202F}' || c == '\U{205F}' || c == '\U{3000}' || c == '\U{FEFF}'
  }

  function Trim(s: string): string {
    if s != [] && IsSpace(s[0]) then Trim(s[1..])
    else if s != [] && IsSpace(s[|s| - 1]) then Trim(s[..|s| - 1])
    else s
  }

  datatype Parts = Parts(whole: string, fraction: string)

  predicate Wellformed(parts: Parts) {
    parts.whole != [] && AllDigits(parts.whole) && AllDigits(parts.fraction)
  }

  /** Where the digits at the start of a string end. */
  function DigitsEnd(s: string, from: nat): (end: nat)
    requires from <= |s|
    ensures from <= end <= |s|
    ensures forall i :: from <= i < end ==> IsDigit(s[i])
    ensures end < |s| ==> !IsDigit(s[end])
    decreases |s| - from
  {
    if from < |s| && IsDigit(s[from]) then DigitsEnd(s, from + 1) else from
  }

  /** Digits, optionally followed by a point and more digits; nothing else. */
  function DecimalParts(text: string): (parts: Option<Parts>)
    ensures parts.Some? ==> Wellformed(parts.value)
  {
    var s := Trim(text);
    var k := DigitsEnd(s, 0);
    if k == 0 then None
    else if k == |s| then Some(Parts(s, ""))
    else if s[k] == '.' && k + 1 < |s| && AllDigits(s[k + 1..]) then Some(Parts(s[..k], s[k + 1..]))
    else None
  }

  // ---- Which texts are decimals ------------------------------------------------------

  predicate AllSpace(s: string) {
    forall i :: 0 <= i < |s| ==> IsSpace(s[i])
  }

  /** Trimming removes space around a text that has none at its ends, and nothing else. */
  lemma {:induction false} TrimsSpace(before: string, core: string, after: string)
    requires AllSpace(before) && AllSpace(after)
    requires core == "" || (!IsSpace(core[0]) && !IsSpace(core[|core| - 1]))
    ensures Trim(before + core + after) == core
    decreases |before| + |after|
  {
    var text := before + core + after;
    if before != "" {
      assert text[1..] == before[1..] + core + after;
      TrimsSpace(before[1..], core, after);
    } else if core == "" && after != "" {
      assert text == after && text[1..] == "" + core + after[1..];
      TrimsSpace("", core, after[1..]);
    } else if after != "" {
      var n := |after| - 1;
      assert text[..|text| - 1] == before + core + after[..n];
      TrimsSpace(before, core, after[..n]);
    } else {
      assert text == core;
    }
  }

  /** From i to j the text is what is left of it when trimmed; around that there is only space. */
  ghost predicate Trims(text: string, i: nat, j: nat) {
    && i <= j <= |text| && Trim(text) == text[i..j] && AllSpace(text[..i]) && AllSpace(text[j..])
    && (i == j || (!IsSpace(text[i]) && !IsSpace(text[j - 1])))
  }

  lemma {:induction false} TrimsFront(text: string, i: nat, j: nat)
    requires text != "" && IsSpace(text[0]) && Trims(text[1..], i, j)
    ensures Trims(text, i + 1, j + 1)
  {
    assert text[1..][i..j] == text[i + 1..j + 1] && text[1..][j..] == text[j + 1..];
    assert text[..i + 1] == [text[0]] + text[1..][..i];
  }

  lemma {:induction false} TrimsBack(text: string, i: nat, j: nat)
    requires text != "" && !IsSpace(text[0]) && IsSpace(text[|text| - 1]) && Trims(text[..|text| - 1], i, j)
    ensures Trims(text, i, j)
  {
    var n := |text| - 1;
    assert text[..n][i..j] == text[i..j] && text[..n][..i] == text[..i];
    assert text[j..] == text[..n][j..] + [text[n]];
  }

  /** Trimming always leaves such a part. */
  lemma {:induction false} TrimLeaves(text: string) returns (i: nat, j: nat)
    ensures Trims(text, i, j)
  {
    if text != "" && IsSpace(text[0]) {
      i, j := TrimLeaves(text[1..]);
      TrimsFront(text, i, j);
      i, j := i + 1, j + 1;
    } else if text != "" && IsSpace(text[|text| - 1]) {
      i, j := TrimLeaves(text[..|text| - 1]);
      TrimsBack(text, i, j);
    } else {
      i, j := 0, |text|;
      assert text[..0] == "" && text[j..] == "" && text[0..j] == text;
    }
  }

  /** How parts are written: the whole digits, and behind a point those of the fraction, if any. */
  function Written(parts: Parts): string {
    if parts.fraction == "" then parts.whole else parts.whole + "." + parts.fraction
  }

  lemma {:induction false} DigitsEndAt(s: string, from: nat, end: nat)
    requires from <= end <= |s| && (forall i :: from <= i < end ==> IsDigit(s[i])) && (end < |s| ==> !IsDigit(s[end]))
    ensures DigitsEnd(s, from) == end
    decreases end - from
  {
    if from < end {
      DigitsEndAt(s, from + 1, end);
    }
  }

  /** A decimal with any space around it is read as its digits. */
  lemma {:induction false} DecimalsAreRead(before: string, parts: Parts, after: string)
    requires AllSpace(before) && AllSpace(after) && Wellformed(parts)
    ensures DecimalParts(before + Written(parts) + after) == Some(parts)
  {
    var s := Written(parts);
    assert s[0] == parts.whole[0];
    assert s[|s| - 1] == if parts.fraction == "" then parts.whole[|s| - 1] else parts.fraction[|parts.fraction| - 1];
    TrimsSpace(before, s, after);
    DigitsEndAt(s, 0, |parts.whole|);
    if parts.fraction != "" {
      assert s[..|parts.whole|] == parts.whole && s[|parts.whole| + 1..] == parts.fraction;
    }
  }

  /** And nothing else is read as a decimal. */
  lemma {:induction false} OnlyDecimalsAreRead(text: string) returns (before: string, after: string)
    ensures AllSpace(before) && AllSpace(after)
    ensures DecimalParts(text).Some? ==> text == before + Written(DecimalParts(text).value) + after
  {
    var i, j := TrimLeaves(text);
    before, after := text[..i], text[j..];
    var s := Trim(text);
    assert text == before + s + after;
    var k := DigitsEnd(s, 0);
    if k < |s| && s[k] == '.' {
      assert s == s[..k] + "." + s[k + 1..];
    }
  }

  /** JavaScript's white space and line ends, by code point. */
  lemma {:induction false} SpacesAre(c: char)
    ensures IsSpace(c) <==>
      || c as int in {0x09, 0x0A, 0x0B, 0x0C, 0x0D, 0x20, 0xA0, 0x1680, 0x2028, 0x2029, 0x202F, 0x205F, 0x3000, 0xFEFF}
      || 0x2000 <= c as int <= 0x200A
  {
  }

  function Zeros(count: nat): (s: string)
    ensures |s| == count && AllDigits(s)
  {
    seq(count, _ => '0')
  }

  function Max(a: nat, b: nat): nat {
    if a > b then a else b
  }

  /** The digits as one integer, with the fraction padded to a common length. */
  function Scaled(parts: Parts, scale: nat): nat
    requires Wellformed(parts) && |parts.fraction| <= scale
  {
    NatOf(parts.whole + parts.fraction + Zeros(scale - |parts.fraction|))
  }

  predicate DecimalLte(child: string, parent: string) {
    var (c, p) := (DecimalParts(child), DecimalParts(parent));
    && c.Some? && p.Some?
    && var scale := Max(|c.value.fraction|, |p.value.fraction|);
    Scaled(c.value, scale) <= Scaled(p.value, scale)
  }

  // ---- The rationals that the strings denote -----------------------------------------

  function Pow10(n: nat): (power: nat)
    ensures power > 0
  {
    if n == 0 then 1 else 10 * Pow10(n - 1)
  }

  /** What the parts denote: all digits over ten to the number of fraction digits. */
  ghost function Value(parts: Parts): real
    requires Wellformed(parts)
  {
    NatOf(parts.whole + parts.fraction) as real / Pow10(|parts.fraction|) as real
  }

  lemma {:induction false} NatOfSnoc(s: string, c: char)
    requires AllDigits(s) && IsDigit(c)
    ensures AllDigits(s + [c]) && NatOf(s + [c]) == 10 * NatOf(s) + DigitValue(c)
  {
    assert (s + [c])[..|s|] == s;
  }

  lemma {:induction false} TimesTen(n: nat, p: nat)
    ensures 10 * (n * p) == n * (10 * p)
  {
  }

  lemma {:induction false} PadMultiplies(s: string, count: nat)
    requires AllDigits(s)
    ensures AllDigits(s + Zeros(count)) && NatOf(s + Zeros(count)) == NatOf(s) * Pow10(count)
  {
    if count == 0 {
      assert s + Zeros(0) == s;
    } else {
      PadMultiplies(s, count - 1);
      assert s + Zeros(count) == s + Zeros(count - 1) + ['0'];
      NatOfSnoc(s + Zeros(count - 1), '0');
      TimesTen(NatOf(s), Pow10(count - 1));
    }
  }

  lemma {:induction false} Pow10Adds(a: nat, b: nat)
    ensures Pow10(a) * Pow10(b) == Pow10(a + b)
  {
    if a > 0 {
      Pow10Adds(a - 1, b);
    }
  }

  lemma {:induction false} ScaledIsMultiple(parts: Parts, scale: nat)
    requires Wellformed(parts) && |parts.fraction| <= scale
    ensures Scaled(parts, scale) == NatOf(parts.whole + parts.fraction) * Pow10(scale - |parts.fraction|)
    ensures Pow10(|parts.fraction|) * Pow10(scale - |parts.fraction|) == Pow10(scale)
  {
    PadMultiplies(parts.whole + parts.fraction, scale - |parts.fraction|);
    Pow10Adds(|parts.fraction|, scale - |parts.fraction|);
  }

  lemma {:induction false} ScaledOrder(c: Parts, p: Parts, scale: nat)
    requires Wellformed(c) && Wellformed(p) && |c.fraction| <= scale && |p.fraction| <= scale
    ensures Scaled(c, scale) <= Scaled(p, scale) <==> Value(c) <= Value(p)
  {
    ScaledIsMultiple(c, scale);
    ScaledIsMultiple(p, scale);
    CommonDenominator(NatOf(c.whole + c.fraction), NatOf(p.whole + p.fraction), Pow10(|c.fraction|), Pow10(|p.fraction|),
                      Pow10(scale - |c.fraction|), Pow10(scale - |p.fraction|));
  }

  /** Comparing fractions is comparing numerators over a common denominator. */
  lemma {:induction false} CommonDenominator(m: nat, n: nat, a: nat, b: nat, k: nat, l: nat)
    requires a > 0 && b > 0 && k > 0 && l > 0 && a * k == b * l
    ensures m * k <= n * l <==> m as real / a as real <= n as real / b as real
  {
    var d := (a * k) as real;
    Rescale(m, a, k);
    Rescale(n, b, l);
    assert m as real / a as real == (m * k) as real / d;
    assert n as real / b as real == (n * l) as real / d;
    DivideOrder((m * k) as real, (n * l) as real, d);
  }

  lemma {:induction false} Rescale(m: nat, a: nat, k: nat)
    requires a > 0 && k > 0
    ensures a * k > 0 && m as real / a as real == (m * k) as real / (a * k) as real
  {
    var q := m as real / a as real;
    assert q * a as real == m as real;
    assert (m * k) as real == m as real * k as real;
    assert (a * k) as real == a as real * k as real;
    assert (m * k) as real == q * (a * k) as real;
  }

  lemma {:induction false} DivideOrder(x: real, y: real, d: real)
    requires d > 0.0
    ensures x <= y <==> x / d <= y / d
  {
    assert (x / d) * d == x && (y / d) * d == y;
  }

  /** The comparison is exact: it holds of two strings precisely when both are decimals and the
      first denotes a rational that is at most the second's, at whatever precision. */
  lemma {:induction false} DecimalLteIsExact(child: string, parent: string)
    ensures DecimalLte(child, parent) <==>
      && DecimalParts(child).Some? && DecimalParts(parent).Some?
      && Value(DecimalParts(child).value) <= Value(DecimalParts(parent).value)
  {
    if DecimalParts(child).Some? && DecimalParts(parent).Some? {
      var (c, p) := (DecimalParts(child).value, DecimalParts(parent).value);
      ScaledOrder(c, p, Max(|c.fraction|, |p.fraction|));
    }
  }

  lemma {:induction false} DecimalLteTransitive(a: string, b: string, c: string)
    requires DecimalLte(a, b) && DecimalLte(b, c)
    ensures DecimalLte(a, c)
  {
    DecimalLteIsExact(a, b);
    DecimalLteIsExact(b, c);
    DecimalLteIsExact(a, c);
  }
}

/**
 The decimal printer and the two parsers every codec relies on (src/util.rs, src/core/intset.rs):
 `itoa`, the strict `string2ll` and the lenient `parse_i64`.
 */
module Decimal {
  import opened Bits
  import opened Words

  const ZERO: byte := 48
  const MINUS: byte := 45
  const PLUS: byte := 43
  const I64_MAX: nat := 0x7FFF_FFFF_FFFF_FFFF

  // ---- digit strings ----

  predicate IsDigit(b: byte) { 48 <= b <= 57 }

  function Digit(d: nat): (b: byte)
    requires d < 10
    ensures IsDigit(b)
  {
    48 + d
  }

  function DigitValue(b: byte): (d: nat)
    requires IsDigit(b)
    ensures d < 10 && Digit(d) == b
  {
    var x: int := b;
    x - 48
  }

  predicate AllDigits(s: Bytes) { forall i :: 0 <= i < |s| ==> IsDigit(s[i]) }

  function Value(s: Bytes): nat
    requires AllDigits(s)
  {
    if s == [] then 0 else 10 * Value(s[..|s| - 1]) + DigitValue(s[|s| - 1])
  }

  function Digits(u: nat): (s: Bytes)
    ensures s != [] && AllDigits(s)
  {
    if u < 10 then [Digit(u)] else Digits(u / 10) + [Digit(u % 10)]
  }

  /** Decimal form of an integer, as printed. */
  function Printed(v: int): (s: Bytes)
    ensures s != []
  {
    if v < 0 then [MINUS] + Digits(-v) else Digits(v)
  }

  lemma {:induction false} ValueOfDigits(u: nat)
    ensures Value(Digits(u)) == u
    ensures u > 0 ==> Digits(u)[0] != ZERO
  {
    if u >= 10 {
      ValueOfDigits(u / 10);
      assert Digits(u)[..|Digits(u)| - 1] == Digits(u / 10);
    }
  }

  lemma {:induction false} DigitsOfValue(s: Bytes)
    requires s != [] && AllDigits(s) && s[0] != ZERO
    ensures Digits(Value(s)) == s && Value(s) > 0
    decreases |s|
  {
    var n := |s| - 1;
    if n == 0 {
      assert s[..0] == [] && Value(s) == DigitValue(s[0]);
      assert Digit(DigitValue(s[0])) == s[0];
    } else {
      DigitsOfValue(s[..n]);
      assert s == s[..n] + [s[n]];
    }
  }

  lemma {:induction false} ValueMonotone(s: Bytes, k: nat)
    requires AllDigits(s) && k <= |s|
    ensures Value(s[..k]) <= Value(s)
    decreases |s|
  {
    if k < |s| {
      var t := s[..|s| - 1];
      ValueMonotone(t, k);
      assert t[..k] == s[..k];
    } else {
      assert s[..k] == s;
    }
  }

  lemma {:induction false} DigitsLength(u: nat, k: nat)
    requires 1 <= k && u < Power(10, k)
    ensures |Digits(u)| <= k
  {
    if u >= 10 {
      DigitsLength(u / 10, k - 1);
    }
  }

  lemma PrintedLength(v: int)
    requires IsI64(v)
    ensures |Printed(v)| <= 20
  {
    assert Power(10, 19) == 10_000_000_000_000_000_000 by {
      assert Power(10, 4) == 10_000;
      assert Power(10, 8) == 100_000_000;
      assert Power(10, 12) == 1_000_000_000_000;
      assert Power(10, 16) == 10_000_000_000_000_000;
    }
    DigitsLength(if v < 0 then -v else v, 19);
  }

  // ---- the strict parser ----

  /** What `string2ll` accepts, and as which value. */
  function Parsed(s: Bytes): Option<int> {
    if s == [] then None
    else if s == [ZERO] then Some(0)
    else
      var negative := s[0] == MINUS;
      var d := if negative then s[1..] else s;
      if d == [] || !AllDigits(d) || d[0] == ZERO then None
      else if negative then
        if Value(d) > I64_MAX + 1 then None else Some(0 - Value(d))
      else
        if Value(d) > I64_MAX then None else Some(Value(d))
  }

  lemma ParsedPrinted(v: int)
    requires IsI64(v)
    ensures Parsed(Printed(v)) == Some(v)
  {
    var u := if v < 0 then -v else v;
    ValueOfDigits(u);
    hide Digits, Value;
    var s := Printed(v);
    if v < 0 {
      assert s[1..] == Digits(u);
    } else if v > 0 {
      assert IsDigit(s[0]);
    } else {
      PrintedZero();
    }
  }

  lemma PrintedZero()
    ensures Printed(0) == [ZERO]
  {
  }

  lemma PrintedParsed(s: Bytes)
    requires Parsed(s).Some?
    ensures IsI64(Parsed(s).value) && Printed(Parsed(s).value) == s
  {
    hide Digits, Value;
    if s == [ZERO] {
      PrintedZero();
    } else {
      var d := if s[0] == MINUS then s[1..] else s;
      DigitsOfValue(d);
      assert s[0] == MINUS ==> s == [MINUS] + d;
    }
  }

  /** The strict parser is the exact inverse of the printer: it accepts printed 64-bit integers and nothing else. */
  lemma ParsedIff(s: Bytes, v: int)
    ensures Parsed(s) == Some(v) <==> IsI64(v) && Printed(v) == s
  {
    hide Parsed, Printed;
    if IsI64(v) {
      ParsedPrinted(v);
    }
    if Parsed(s) == Some(v) {
      PrintedParsed(s);
    }
  }

  // ---- the lenient parser ----

  /** What `parse_i64` accepts: an optional sign and digits, leading zeros included. */
  function ParsedLoose(s: Bytes): Option<int> {
    if s == [] then None
    else
      var neg := s[0] == MINUS;
      var d := if neg || s[0] == PLUS then s[1..] else s;
      if d == [] || !AllDigits(d) then None
      else if neg then
        if Value(d) > I64_MAX + 1 then None else Some(0 - Value(d))
      else
        if Value(d) > I64_MAX then None else Some(Value(d))
  }

  lemma ParsedLoosePrinted(v: int)
    requires IsI64(v)
    ensures ParsedLoose(Printed(v)) == Some(v)
  {
    var u := if v < 0 then -v else v;
    ValueOfDigits(u);
    if v < 0 {
      assert Printed(v)[1..] == Digits(u);
    } else {
      assert IsDigit(Printed(v)[0]);
    }
  }

  /** A printed natural number reads as itself, or not at all when it is beyond 63 bits. */
  lemma ParsedLooseNatural(n: nat)
    ensures ParsedLoose(Printed(n)) == if n <= I64_MAX then Some(n) else None
  {
    ValueOfDigits(n);
    assert IsDigit(Printed(n)[0]);
  }

  // ---- the loops ----

  method Itoa(v: int) returns (r: Bytes)
    requires IsI64(v)
    ensures r == Printed(v)
  {
    if v == 0 {
      return [ZERO];
    }
    PrintedLength(v);
    hide Digits, Power;
    var buf := new byte[20](_ => 0);
    var neg := v < 0;
    var u: nat := if neg then -v else v;
    var pos := WriteDigits(buf, u);
    if neg {
      pos := pos - 1;
      ghost var was := buf[pos + 1..];
      buf[pos] := MINUS;
      assert buf[pos..] == [MINUS] + was;
    }
    r := buf[pos..];
  }

  lemma DigitsStep(u: nat, tail: Bytes)
    requires u > 0
    ensures u >= 10 ==> Digits(u) + tail == Digits(u / 10) + ([Digit(u % 10)] + tail)
    ensures u < 10 ==> Digits(u) + tail == [Digit(u % 10)] + tail && u / 10 == 0
  {
  }

  method WriteDigits(buf: array<byte>, magnitude: nat) returns (pos: nat)
    requires 0 < magnitude && |Digits(magnitude)| <= buf.Length
    modifies buf
    ensures pos + |Digits(magnitude)| == buf.Length && buf[pos..] == Digits(magnitude)
  {
    hide Digits;
    var u := magnitude;
    pos := buf.Length;
    ghost var done: Bytes := [];
    while u > 0
      invariant 0 <= u && pos <= buf.Length && buf[pos..] == done
      invariant (if u == 0 then [] else Digits(u)) + done == Digits(magnitude)
    {
      DigitsStep(u, done);
      assert |Digits(u)| + |done| == |Digits(u) + done|;
      pos := pos - 1;
      buf[pos] := Digit(u % 10);
      done := [Digit(u % 10)] + done;
      u := u / 10;
    }
    assert [] + done == done;
  }

  /** The accumulating loop shared by both parsers: the value, or None on a non-digit or a 64-bit overflow. */
  method Accumulate(d: Bytes) returns (r: Option<nat>)
    ensures r == if AllDigits(d) && Value(d) < TWO64 then Some(Value(d)) else None
  {
    var v: nat := 0;
    for i := 0 to |d|
      invariant AllDigits(d[..i]) && v == Value(d[..i]) < TWO64
    {
      if !IsDigit(d[i]) {
        return None;
      }
      assert d[..i + 1][..i] == d[..i];
      var next := 10 * v + DigitValue(d[i]);
      if next >= TWO64 {
        if AllDigits(d) {
          ValueMonotone(d, i + 1);
        }
        return None;
      }
      v := next;
    }
    assert d[..|d|] == d;
    r := Some(v);
  }

  method String2ll(s: Bytes) returns (r: Option<int>)
    ensures r == Parsed(s)
  {
    if s == [] {
      return None;
    }
    if s == [ZERO] {
      return Some(0);
    }
    var negative := s[0] == MINUS;
    var d := if negative then s[1..] else s;
    if d == [] || !IsDigit(d[0]) || d[0] == ZERO {
      return None;
    }
    var v := Accumulate(d);
    if v.None? {
      return None;
    }
    if negative {
      r := if v.value > I64_MAX + 1 then None else Some(0 - v.value);
    } else {
      r := if v.value > I64_MAX then None else Some(v.value);
    }
  }

  method ParseI64(s: Bytes) returns (r: Option<int>)
    ensures r == ParsedLoose(s)
  {
    if s == [] {
      return None;
    }
    var neg := s[0] == MINUS;
    var d := if neg || s[0] == PLUS then s[1..] else s;
    if d == [] {
      return None;
    }
    var v := Accumulate(d);
    if v.None? {
      return None;
    }
    if neg {
      r := if v.value > I64_MAX + 1 then None else Some(0 - v.value);
    } else {
      r := if v.value > I64_MAX then None else Some(v.value);
    }
  }
}

/**
 The pre-authentication encoding of DSSE v1 envelopes (registry-scanner/pkg/image/verify.go).

 What is signed is this encoding, so two envelopes must never share one. The encoding is inverted by
 a reader here, which the program does not have.
 */
module Dsse {
  import opened Options
  import opened Sequences
  import Strings

  const SPACE: byte := 0x20

  /** "DSSEv1 " */
  const HEADER: seq<byte> := [0x44, 0x53, 0x53, 0x45, 0x76, 0x31, SPACE]

  predicate IsDigit(b: byte) {
    0x30 <= b <= 0x39
  }

  /** The decimal digits of a number, as %d prints them. */
  function Decimal(n: nat): (s: seq<byte>)
    ensures s != [] && forall i :: 0 <= i < |s| ==> IsDigit(s[i])
  {
    if n < 10 then [0x30 + n] else Decimal(n / 10) + [0x30 + n % 10]
  }

  function ComputePAE(payloadType: seq<byte>, payload: seq<byte>): seq<byte> {
    HEADER + Decimal(|payloadType|) + [SPACE] + payloadType + [SPACE] + Decimal(|payload|) + [SPACE] + payload
  }

  // ---------------------------------------------------------------------------------------------
  // Reading the encoding
  // ---------------------------------------------------------------------------------------------

  function DigitsEnd(s: seq<byte>, i: nat): (n: nat)
    requires i <= |s|
    ensures i <= n <= |s|
    ensures n < |s| ==> !IsDigit(s[n])
    ensures forall j :: i <= j < n ==> IsDigit(s[j])
    decreases |s| - i
  {
    if i < |s| && IsDigit(s[i]) then DigitsEnd(s, i + 1) else i
  }

  function Value(s: seq<byte>): nat
    requires forall i :: 0 <= i < |s| ==> IsDigit(s[i])
  {
    if s == [] then 0
    else
      assert IsDigit(s[|s| - 1]);
      var digit: int := s[|s| - 1];
      10 * Value(s[..|s| - 1]) + (digit - 0x30)
  }

  /** A length, a space, that many bytes, and what follows them. */
  function ReadField(s: seq<byte>): Option<(seq<byte>, seq<byte>)> {
    var n := DigitsEnd(s, 0);
    if n == 0 || n == |s| || s[n] != SPACE then None
    else
      var length := Value(s[..n]);
      if n + 1 + length > |s| then None else Some((s[n + 1..n + 1 + length], s[n + 1 + length..]))
  }

  function ReadPAE(s: seq<byte>): Option<(seq<byte>, seq<byte>)> {
    if !(HEADER <= s) then None
    else
      var first := ReadField(s[|HEADER|..]);
      if first.None? || first.value.1 == [] || first.value.1[0] != SPACE then None
      else
        var second := ReadField(first.value.1[1..]);
        if second.None? || second.value.1 != [] then None
        else Some((first.value.0, second.value.0))
  }

  lemma {:induction false} ValueOfDecimal(n: nat)
    ensures Value(Decimal(n)) == n
  {
    if n >= 10 {
      ValueOfDecimal(n / 10);
      var s := Decimal(n);
      assert s[..|s| - 1] == Decimal(n / 10);
    } else {
      assert Decimal(n)[..0] == [];
    }
  }

  lemma {:induction false} DigitsEndAt(s: seq<byte>, i: nat, n: nat)
    requires i <= n < |s| && !IsDigit(s[n]) && forall j :: i <= j < n ==> IsDigit(s[j])
    ensures DigitsEnd(s, i) == n
    decreases n - i
  {
    if i < n {
      DigitsEndAt(s, i + 1, n);
    }
  }

  lemma FieldParts(digits: seq<byte>, field: seq<byte>, rest: seq<byte>, s: seq<byte>)
    requires s == digits + [SPACE] + field + rest
    ensures s[..|digits|] == digits && s[|digits|] == SPACE
    ensures s[|digits| + 1..|digits| + 1 + |field|] == field && s[|digits| + 1 + |field|..] == rest
  {
  }

  lemma FieldIsRead(field: seq<byte>, rest: seq<byte>)
    ensures ReadField(Decimal(|field|) + [SPACE] + field + rest) == Some((field, rest))
  {
    ValueOfDecimal(|field|);
    DigitsAreRead(Decimal(|field|), field, rest, Decimal(|field|) + [SPACE] + field + rest);
  }

  lemma DigitsAreRead(digits: seq<byte>, field: seq<byte>, rest: seq<byte>, s: seq<byte>)
    requires digits != [] && (forall i :: 0 <= i < |digits| ==> IsDigit(digits[i])) && Value(digits) == |field|
    requires s == digits + [SPACE] + field + rest
    ensures ReadField(s) == Some((field, rest))
  {
    FieldParts(digits, field, rest, s);
    FieldAt(s, |digits|, field, rest);
  }

  lemma FieldAt(s: seq<byte>, n: nat, field: seq<byte>, rest: seq<byte>)
    requires 0 < n < |s| && (forall i :: 0 <= i < n ==> IsDigit(s[i])) && s[n] == SPACE
    requires Value(s[..n]) == |field| && n + 1 + |field| <= |s|
    requires s[n + 1..n + 1 + |field|] == field && s[n + 1 + |field|..] == rest
    ensures ReadField(s) == Some((field, rest))
  {
    DigitsEndAt(s, 0, n);
  }

  /** The encoding can be read back, for every payload type and payload. */
  lemma PAEIsRead(payloadType: seq<byte>, payload: seq<byte>)
    ensures ReadPAE(ComputePAE(payloadType, payload)) == Some((payloadType, payload))
  {
    var s := ComputePAE(payloadType, payload);
    var second := Decimal(|payload|) + [SPACE] + payload + [];
    var rest := [SPACE] + second;
    assert s == HEADER + (Decimal(|payloadType|) + [SPACE] + payloadType + rest);
    assert s[|HEADER|..] == Decimal(|payloadType|) + [SPACE] + payloadType + rest;
    FieldIsRead(payloadType, rest);
    assert rest[1..] == second;
    FieldIsRead(payload, []);
  }

  /** Equal encodings have equal payload types and equal payloads. */
  lemma PAEIsInjective(t1: seq<byte>, p1: seq<byte>, t2: seq<byte>, p2: seq<byte>)
    requires ComputePAE(t1, p1) == ComputePAE(t2, p2)
    ensures t1 == t2 && p1 == p2
  {
    PAEIsRead(t1, p1);
    PAEIsRead(t2, p2);
  }

  // ---------------------------------------------------------------------------------------------
  // The encoding as text
  // ---------------------------------------------------------------------------------------------

  /** The bytes of a text in US-ASCII. */
  ghost predicate Spells(bytes: seq<byte>, text: string) {
    |bytes| == |text| && forall i :: 0 <= i < |text| ==> bytes[i] == text[i] as int
  }

  lemma {:induction false} DecimalSpells(n: nat)
    ensures Spells(Decimal(n), Strings.Decimal(n))
  {
    Strings.DigitIs(n % 10);
    if n >= 10 {
      DecimalSpells(n / 10);
    }
  }

  lemma HeaderSpells()
    ensures Spells(HEADER, "DSSEv1 ") && Spells([SPACE], " ")
  {
  }

  /** The encoding is `DSSEv1`, and the lengths and the texts of type and payload, all separated by spaces. */
  lemma PAESpells(payloadType: seq<byte>, payload: seq<byte>, typeText: string, text: string)
    requires Spells(payloadType, typeText) && Spells(payload, text)
    ensures var a, b := Strings.Decimal(|typeText|), Strings.Decimal(|text|);
            Spells(ComputePAE(payloadType, payload), "DSSEv1 " + a + " " + typeText + " " + b + " " + text)
  {
    HeaderSpells();
    DecimalSpells(|payloadType|);
    DecimalSpells(|payload|);
    var a, b := Strings.Decimal(|typeText|), Strings.Decimal(|text|);
    FieldSpells(HEADER, Decimal(|payloadType|), payloadType, "DSSEv1 ", a, typeText);
    var first := HEADER + Decimal(|payloadType|) + [SPACE] + payloadType;
    var firstText := "DSSEv1 " + a + " " + typeText;
    SpellsBoth(first, [SPACE], firstText, " ");
    FieldSpells(first + [SPACE], Decimal(|payload|), payload, firstText + " ", b, text);
  }

  /** A length and a field behind what comes before. */
  lemma FieldSpells(before: seq<byte>, length: seq<byte>, field: seq<byte>, beforeText: string, lengthText: string,
                    fieldText: string)
    requires Spells(before, beforeText) && Spells(length, lengthText) && Spells(field, fieldText)
    ensures Spells(before + length + [SPACE] + field, beforeText + lengthText + " " + fieldText)
  {
    HeaderSpells();
    SpellsBoth(before, length, beforeText, lengthText);
    SpellsBoth(before + length, [SPACE], beforeText + lengthText, " ");
    SpellsBoth(before + length + [SPACE], field, beforeText + lengthText + " ", fieldText);
  }

  lemma SpellsBoth(a: seq<byte>, b: seq<byte>, aText: string, bText: string)
    requires Spells(a, aText) && Spells(b, bText)
    ensures Spells(a + b, aText + bText)
  {
  }
}

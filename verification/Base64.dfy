/** Base64 with padding, section 4 of RFC 4648, over byte strings, with the decoder's tolerance of line breaks. */
module Base64 {
  import opened Text

  const PAD: Byte := 61
  const NEWLINE: Byte := 10
  const RETURN: Byte := 13

  /** The character of a 6-bit value: A-Z, a-z, 0-9, plus and slash. */
  function Digit(v: int): (c: Byte)
    requires 0 <= v < 64
  {
    if v < 26 then 65 + v
    else if v < 52 then 97 + (v - 26)
    else if v < 62 then 48 + (v - 52)
    else if v == 62 then 43
    else 47
  }

  function Value(c: Byte): (v: Option<int>)
    ensures v.Some? ==> 0 <= v.value < 64 && Digit(v.value) == c
  {
    if 65 <= c <= 90 then Some(c - 65)
    else if 97 <= c <= 122 then Some(c - 97 + 26)
    else if 48 <= c <= 57 then Some(c - 48 + 52)
    else if c == 43 then Some(62)
    else if c == 47 then Some(63)
    else None
  }

  lemma ValueOfDigit(v: int)
    requires 0 <= v < 64
    ensures Value(Digit(v)) == Some(v)
    ensures Digit(v) != PAD && Digit(v) != NEWLINE && Digit(v) != RETURN
  {
  }

  /** The 6-bit values of three bytes. */
  function Sextets(b0: Byte, b1: Byte, b2: Byte): (v: (int, int, int, int))
    ensures 0 <= v.0 < 64 && 0 <= v.1 < 64 && 0 <= v.2 < 64 && 0 <= v.3 < 64
    ensures First(v.0, v.1) == b0 && Second(v.1, v.2) == b1 && Third(v.2, v.3) == b2
  {
    (b0 / 4, b0 % 4 * 16 + b1 / 16, b1 % 16 * 4 + b2 / 64, b2 % 64)
  }

  /** The four characters of up to three bytes. */
  function Quantum(b: Bytes): (q: Bytes)
    requires 1 <= |b| <= 3
    ensures |q| == 4
  {
    var v := Sextets(b[0], if |b| > 1 then b[1] else 0, if |b| > 2 then b[2] else 0);
    [Digit(v.0), Digit(v.1), if |b| > 1 then Digit(v.2) else PAD, if |b| > 2 then Digit(v.3) else PAD]
  }

  function Head(b: Bytes): (head: Bytes)
    ensures |head| <= 3 && (b != [] ==> head != [])
  {
    if |b| <= 3 then b else b[..3]
  }

  function Tail(b: Bytes): (tail: Bytes)
    ensures Head(b) + tail == b && (tail != [] ==> |Head(b)| == 3)
  {
    if |b| <= 3 then [] else b[3..]
  }

  function Encode(b: Bytes): (s: Bytes)
    decreases |b|
  {
    if b == [] then [] else Quantum(Head(b)) + Encode(Tail(b))
  }

  /** The bytes of four characters; padding is allowed in the last quantum only. */
  function Unquantum(q: Bytes, last: bool): (b: Option<Bytes>)
    requires |q| == 4
  {
    var v0, v1, v2, v3 := Value(q[0]), Value(q[1]), Value(q[2]), Value(q[3]);
    if v0.None? || v1.None? then None
    else if v2.None? then
      if q[2] == PAD && q[3] == PAD && last then Some([First(v0.value, v1.value)]) else None
    else if v3.None? then
      if q[3] == PAD && last then Some([First(v0.value, v1.value), Second(v1.value, v2.value)]) else None
    else Some([First(v0.value, v1.value), Second(v1.value, v2.value), Third(v2.value, v3.value)])
  }

  function First(v0: int, v1: int): (b: Byte)
    requires 0 <= v0 < 64 && 0 <= v1 < 64
  {
    v0 * 4 + v1 / 16
  }

  function Second(v1: int, v2: int): (b: Byte)
    requires 0 <= v1 < 64 && 0 <= v2 < 64
  {
    v1 % 16 * 16 + v2 / 4
  }

  function Third(v2: int, v3: int): (b: Byte)
    requires 0 <= v2 < 64 && 0 <= v3 < 64
  {
    v2 % 4 * 64 + v3
  }

  /** The alphabet of section 4 of RFC 4648, by the values of its characters. */
  lemma Alphabet(v: int)
    ensures 0 <= v < 26 ==> Digit(v) == "ABCDEFGHIJKLMNOPQRSTUVWXYZ"[v] as int
    ensures 26 <= v < 52 ==> Digit(v) == "abcdefghijklmnopqrstuvwxyz"[v - 26] as int
    ensures 52 <= v < 62 ==> Digit(v) == "0123456789"[v - 52] as int
    ensures Digit(62) == '+' as int && Digit(63) == '/' as int
  {
    if 0 <= v < 26 {
      Capitals(v);
    }
  }

  lemma Capitals(v: int)
    requires 0 <= v < 26
    ensures Digit(v) == "ABCDEFGHIJKLMNOPQRSTUVWXYZ"[v] as int
  {
  }

  /** Three bytes and the four values of their characters are the same 24 bits, the most significant first. */
  lemma QuantumBits(b0: Byte, b1: Byte, b2: Byte)
    ensures var q := Quantum([b0, b1, b2]);
            var v0, v1, v2, v3 := Value(q[0]), Value(q[1]), Value(q[2]), Value(q[3]);
            && v0.Some? && v1.Some? && v2.Some? && v3.Some?
            && 0x40000 * v0.value + 0x1000 * v1.value + 0x40 * v2.value + v3.value ==
               0x10000 * (b0 as int) + 0x100 * (b1 as int) + b2
  {
    var v := Sextets(b0, b1, b2);
    SextetBits(b0, b1, b2);
    ValueOfDigit(v.0);
    ValueOfDigit(v.1);
    ValueOfDigit(v.2);
    ValueOfDigit(v.3);
  }

  /** Bytes that are missing count as zero, and their characters are pads. */
  lemma QuantumPads(b0: Byte, b1: Byte)
    ensures Quantum([b0, b1]) == Quantum([b0, b1, 0])[..3] + ['=' as int]
    ensures Quantum([b0]) == Quantum([b0, 0, 0])[..2] + ['=' as int, '=' as int]
  {
  }

  lemma SextetBits(b0: Byte, b1: Byte, b2: Byte)
    ensures var v := Sextets(b0, b1, b2);
            0x40000 * v.0 + 0x1000 * v.1 + 0x40 * v.2 + v.3 == 0x10000 * (b0 as int) + 0x100 * (b1 as int) + b2
  {
  }

  function DecodeQuanta(s: Bytes): (b: Option<Bytes>)
  {
    if s == [] then Some([])
    else if |s| < 4 then None
    else
      var first := Unquantum(s[..4], |s| == 4);
      var rest := DecodeQuanta(s[4..]);
      if first.Some? && rest.Some? then Some(first.value + rest.value) else None
  }

  /** Line breaks are skipped wherever they stand. */
  function WithoutBreaks(s: Bytes): (t: Bytes)
  {
    if s == [] then []
    else if s[0] == NEWLINE || s[0] == RETURN then WithoutBreaks(s[1..])
    else [s[0]] + WithoutBreaks(s[1..])
  }

  function Decode(s: Bytes): (b: Option<Bytes>)
  {
    DecodeQuanta(WithoutBreaks(s))
  }

  predicate InAlphabet(c: Byte)
  {
    Value(c).Some? || c == PAD
  }

  lemma QuantumInAlphabet(b: Bytes)
    requires 1 <= |b| <= 3
    ensures forall c <- Quantum(b) :: InAlphabet(c)
  {
    var v := Sextets(b[0], if |b| > 1 then b[1] else 0, if |b| > 2 then b[2] else 0);
    ValueOfDigit(v.0);
    ValueOfDigit(v.1);
    ValueOfDigit(v.2);
    ValueOfDigit(v.3);
  }

  lemma {:induction false} EncodeInAlphabet(b: Bytes)
    ensures forall c <- Encode(b) :: InAlphabet(c)
    decreases |b|
  {
    if b != [] {
      QuantumInAlphabet(Head(b));
      EncodeInAlphabet(Tail(b));
    }
  }

  lemma UnquantumOfThree(v0: int, v1: int, v2: int, v3: int, last: bool)
    requires 0 <= v0 < 64 && 0 <= v1 < 64 && 0 <= v2 < 64 && 0 <= v3 < 64
    ensures Unquantum([Digit(v0), Digit(v1), Digit(v2), Digit(v3)], last) ==
            Some([First(v0, v1), Second(v1, v2), Third(v2, v3)])
  {
    ValueOfDigit(v0);
    ValueOfDigit(v1);
    ValueOfDigit(v2);
    ValueOfDigit(v3);
  }

  lemma UnquantumOfTwo(v0: int, v1: int, v2: int)
    requires 0 <= v0 < 64 && 0 <= v1 < 64 && 0 <= v2 < 64
    ensures Unquantum([Digit(v0), Digit(v1), Digit(v2), PAD], true) == Some([First(v0, v1), Second(v1, v2)])
  {
    ValueOfDigit(v0);
    ValueOfDigit(v1);
    ValueOfDigit(v2);
  }

  lemma UnquantumOfOne(v0: int, v1: int)
    requires 0 <= v0 < 64 && 0 <= v1 < 64
    ensures Unquantum([Digit(v0), Digit(v1), PAD, PAD], true) == Some([First(v0, v1)])
  {
    ValueOfDigit(v0);
    ValueOfDigit(v1);
  }

  lemma UnquantumOfQuantum(b: Bytes, last: bool)
    requires 1 <= |b| <= 3 && (|b| < 3 ==> last)
    ensures Unquantum(Quantum(b), last) == Some(b)
  {
    var v := Sextets(b[0], if |b| > 1 then b[1] else 0, if |b| > 2 then b[2] else 0);
    if |b| == 1 {
      assert b == [b[0]];
      UnquantumOfOne(v.0, v.1);
    } else if |b| == 2 {
      assert b == [b[0], b[1]];
      UnquantumOfTwo(v.0, v.1, v.2);
    } else {
      assert b == [b[0], b[1], b[2]];
      UnquantumOfThree(v.0, v.1, v.2, v.3, last);
    }
  }

  lemma DecodeQuantum(q: Bytes, rest: Bytes)
    requires |q| == 4
    ensures DecodeQuanta(q + rest) ==
            (var first, b := Unquantum(q, rest == []), DecodeQuanta(rest);
             if first.Some? && b.Some? then Some(first.value + b.value) else None)
  {
    assert (q + rest)[..4] == q && (q + rest)[4..] == rest;
  }

  lemma {:induction false} DecodeQuantaOfEncode(b: Bytes)
    ensures DecodeQuanta(Encode(b)) == Some(b)
    decreases |b|
  {
    if b != [] {
      DecodeQuantaOfEncode(Tail(b));
      UnquantumOfQuantum(Head(b), Encode(Tail(b)) == []);
      DecodeQuantum(Quantum(Head(b)), Encode(Tail(b)));
    }
  }

  lemma {:induction false} NoBreaks(s: Bytes)
    requires forall c <- s :: InAlphabet(c)
    ensures WithoutBreaks(s) == s
  {
    if s != [] {
      assert InAlphabet(s[0]);
      NoBreaks(s[1..]);
    }
  }

  /** Decoding undoes encoding. */
  lemma DecodeOfEncode(b: Bytes)
    ensures Decode(Encode(b)) == Some(b)
  {
    EncodeInAlphabet(b);
    NoBreaks(Encode(b));
    DecodeQuantaOfEncode(b);
  }

  lemma {:induction false} BreaksOnlyAreSkipped(s: Bytes, c: Byte)
    requires c in s && c != NEWLINE && c != RETURN
    ensures c in WithoutBreaks(s)
  {
    if s[0] != c {
      BreaksOnlyAreSkipped(s[1..], c);
    }
  }

  lemma {:induction false} QuantaInAlphabet(s: Bytes, c: Byte)
    requires c in s && DecodeQuanta(s).Some?
    ensures InAlphabet(c)
  {
    assert c in s[..4] || c in s[4..];
    if c in s[4..] {
      QuantaInAlphabet(s[4..], c);
    }
  }

  /** Only characters of the alphabet, the pad and line breaks are accepted. */
  lemma DecodableInAlphabet(s: Bytes, c: Byte)
    requires c in s && Decode(s).Some?
    ensures InAlphabet(c) || c == NEWLINE || c == RETURN
  {
    if c != NEWLINE && c != RETURN {
      BreaksOnlyAreSkipped(s, c);
      QuantaInAlphabet(WithoutBreaks(s), c);
    }
  }

  lemma {:induction false} WithoutBreaksConcat(s: Bytes, t: Bytes)
    ensures WithoutBreaks(s + t) == WithoutBreaks(s) + WithoutBreaks(t)
  {
    if s == [] {
      assert s + t == t;
    } else {
      WithoutBreaksConcat(s[1..], t);
      assert (s + t)[1..] == s[1..] + t;
      ConsConcat(s[0], WithoutBreaks(s[1..]), WithoutBreaks(t));
    }
  }

  lemma ConsConcat(c: Byte, s: Bytes, t: Bytes)
    ensures [c] + (s + t) == ([c] + s) + t
  {
  }

  /** Characters of the alphabet, and then so many pads. */
  ghost predicate Padded(s: Bytes, pads: nat)
  {
    pads <= |s| && forall i :: 0 <= i < |s| ==> if i < |s| - pads then Value(s[i]).Some? else s[i] == '=' as int
  }

  /** The strings that decode: whole quanta, with at most two pads, at the end. */
  ghost predicate WellPadded(s: Bytes)
  {
    |s| % 4 == 0 && (Padded(s, 0) || Padded(s, 1) || Padded(s, 2))
  }

  lemma LastQuantum(s: Bytes)
    requires |s| == 4
    ensures DecodeQuanta(s).Some? <==> WellPadded(s)
  {
    assert s[..4] == s && s[4..] == [];
  }

  lemma FirstQuantum(s: Bytes, pads: nat)
    requires |s| >= 8 && pads <= 2
    ensures Padded(s, pads) <==> Padded(s[..4], 0) && Padded(s[4..], pads)
  {
    if Padded(s[..4], 0) && Padded(s[4..], pads) {
      forall i | 0 <= i < |s| ensures if i < |s| - pads then Value(s[i]).Some? else s[i] == '=' as int {
        if i < 4 {
          assert s[..4][i] == s[i];
        } else {
          assert s[4..][i - 4] == s[i];
        }
      }
    }
  }

  lemma InnerQuantum(q: Bytes)
    requires |q| == 4
    ensures Unquantum(q, false).Some? <==> Padded(q, 0)
  {
  }

  lemma OneQuantum(s: Bytes)
    requires |s| > 4
    ensures DecodeQuanta(s).Some? <==> Unquantum(s[..4], false).Some? && DecodeQuanta(s[4..]).Some?
  {
  }

  lemma PaddedAfterOne(s: Bytes)
    requires |s| > 4
    ensures WellPadded(s) <==> Padded(s[..4], 0) && WellPadded(s[4..])
  {
    if |s| >= 8 {
      FirstQuantum(s, 0);
      FirstQuantum(s, 1);
      FirstQuantum(s, 2);
    }
  }

  lemma {:induction false} QuantaDecode(s: Bytes)
    ensures DecodeQuanta(s).Some? <==> WellPadded(s)
  {
    if |s| == 4 {
      LastQuantum(s);
    } else if |s| > 4 {
      QuantaDecode(s[4..]);
      OneQuantum(s);
      InnerQuantum(s[..4]);
      PaddedAfterOne(s);
    }
  }

  /** What decodes: line breaks aside, whole quanta of the alphabet with at most two pads, at the very end. */
  lemma DecodesIffWellPadded(s: Bytes)
    ensures Decode(s).Some? <==> WellPadded(WithoutBreaks(s))
  {
    QuantaDecode(WithoutBreaks(s));
  }

  /** A line feed or a carriage return anywhere makes no difference. */
  lemma BreaksMakeNoDifference(s: Bytes, c: Byte, t: Bytes)
    requires c == '\n' as int || c == '\r' as int
    ensures Decode(s + [c] + t) == Decode(s + t)
  {
    WithoutBreaksConcat(s, t);
    WithoutBreaksConcat(s + [c], t);
    WithoutBreaksConcat(s, [c]);
    assert [c][1..] == [] && WithoutBreaks([c]) == [];
    assert WithoutBreaks(s) + [] == WithoutBreaks(s);
  }
}

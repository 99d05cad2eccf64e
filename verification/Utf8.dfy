/** UTF-8 as RFC 3629 defines it: encoding (section 3) and strict decoding (section 4). */
module Utf8 {
  import opened Collections
  import opened Wrappers

  type Byte = b: nat | b < 256

  /** A Unicode scalar value: any code point but a surrogate. */
  type Scalar = c: nat | c < 0x110000 && !(0xD800 <= c <= 0xDFFF)

  function EncodeOne(c: Scalar): (b: seq<Byte>)
    ensures 1 <= |b| <= 4
  {
    if c < 0x80 then [c]
    else if c < 0x800 then [0xC0 + c / 64, 0x80 + c % 64]
    else if c < 0x10000 then [0xE0 + c / 4096, 0x80 + c / 64 % 64, 0x80 + c % 64]
    else [0xF0 + c / 262144, 0x80 + c / 4096 % 64, 0x80 + c / 64 % 64, 0x80 + c % 64]
  }

  function Encode(s: seq<Scalar>): seq<Byte> { if s == [] then [] else EncodeOne(s[0]) + Encode(s[1..]) }

  predicate Tail(b: int) { 0x80 <= b <= 0xBF }

  /** A number from its digits in base 64, the last ones carried by continuation bytes. */
  function Joined(high: int, tail: int): int { high * 64 + (tail - 0x80) }

  datatype Step = Step(c: Scalar, length: nat)

  predicate TwoBytes(b0: int, b1: int) { 0xC2 <= b0 <= 0xDF && Tail(b1) }

  predicate ThreeBytes(b0: int, b1: int, b2: int) {
    0xE0 <= b0 <= 0xEF && Tail(b1) && Tail(b2) && (b0 == 0xE0 ==> b1 >= 0xA0) && (b0 == 0xED ==> b1 <= 0x9F)
  }

  predicate FourBytes(b0: int, b1: int, b2: int, b3: int) {
    0xF0 <= b0 <= 0xF4 && Tail(b1) && Tail(b2) && Tail(b3) && (b0 == 0xF0 ==> b1 >= 0x90) && (b0 == 0xF4 ==> b1 <= 0x8F)
  }

  /** The first character of a byte string, by the grammar of section 4: no overlong form, no surrogate. */
  function DecodeOne(b: seq<Byte>): Option<Step> {
    if |b| >= 1 && b[0] < 0x80 then Some(Step(b[0], 1))
    else if |b| >= 2 && TwoBytes(b[0], b[1]) then Some(Step(Joined(b[0] as int - 0xC0, b[1]), 2))
    else if |b| >= 3 && ThreeBytes(b[0], b[1], b[2]) then Some(Step(Joined(Joined(b[0] as int - 0xE0, b[1]), b[2]), 3))
    else if |b| >= 4 && FourBytes(b[0], b[1], b[2], b[3]) then
      Some(Step(Joined(Joined(Joined(b[0] as int - 0xF0, b[1]), b[2]), b[3]), 4))
    else None
  }

  /** Strict decoding: all of it, or nothing. */
  function Decode(b: seq<Byte>): Option<seq<Scalar>>
    decreases |b|
  {
    if b == [] then Some([])
    else
      var first := DecodeOne(b);
      if first.None? then None
      else
        var rest := Decode(b[first.value.length..]);
        if rest.None? then None else Some([first.value.c] + rest.value)
  }

  // ---------------------------------------------------------------- one character

  lemma Digits(c: nat)
    ensures Joined(c / 64, 0x80 + c % 64) == c
    ensures Joined(c / 4096, 0x80 + c / 64 % 64) == c / 64
    ensures Joined(c / 262144, 0x80 + c / 4096 % 64) == c / 4096
  {
    assert c / 64 / 64 == c / 4096;
    assert c / 4096 / 64 == c / 262144;
  }

  lemma Undigits(high: nat, tail: int)
    requires Tail(tail)
    ensures Joined(high, tail) / 64 == high && 0x80 + Joined(high, tail) % 64 == tail
  {
  }

  lemma FirstBytes(c: Scalar, rest: seq<Byte>)
    ensures var b := EncodeOne(c) + rest; forall i :: 0 <= i < |EncodeOne(c)| ==> b[i] == EncodeOne(c)[i]
  {
  }

  lemma DecodeOneEncoded(c: Scalar, rest: seq<Byte>)
    ensures DecodeOne(EncodeOne(c) + rest) == Some(Step(c, |EncodeOne(c)|))
  {
    Digits(c);
    FirstBytes(c, rest);
  }

  /** What is decoded first, if anything, is encoded as the bytes it was decoded from. */
  predicate ComesBack(b: seq<Byte>) {
    var first := DecodeOne(b);
    first.Some? ==> first.value.length <= |b| && EncodeOne(first.value.c) == b[..first.value.length]
  }

  lemma TwoComeBack(b: seq<Byte>)
    requires |b| >= 2 && TwoBytes(b[0], b[1])
    ensures ComesBack(b)
  {
    EncodedTwo(b[0], b[1]);
    assert b[..2] == [b[0], b[1]];
  }

  lemma ThreeComeBack(b: seq<Byte>)
    requires |b| >= 3 && ThreeBytes(b[0], b[1], b[2])
    ensures ComesBack(b)
  {
    EncodedThree(b[0], b[1], b[2]);
    assert b[..3] == [b[0], b[1], b[2]];
  }

  lemma FourComeBack(b: seq<Byte>)
    requires |b| >= 4 && FourBytes(b[0], b[1], b[2], b[3])
    ensures ComesBack(b)
  {
    EncodedFour(b[0], b[1], b[2], b[3]);
    assert b[..4] == [b[0], b[1], b[2], b[3]];
  }

  lemma EncodeOneDecoded(b: seq<Byte>)
    ensures ComesBack(b)
  {
    if |b| >= 1 && b[0] < 0x80 {
      assert b[..1] == [b[0]];
    } else if |b| >= 2 && TwoBytes(b[0], b[1]) {
      TwoComeBack(b);
    } else if |b| >= 3 && ThreeBytes(b[0], b[1], b[2]) {
      ThreeComeBack(b);
    } else if |b| >= 4 && FourBytes(b[0], b[1], b[2], b[3]) {
      FourComeBack(b);
    }
  }

  lemma EncodedTwo(b0: Byte, b1: Byte)
    requires TwoBytes(b0, b1)
    ensures EncodeOne(Joined(b0 as int - 0xC0, b1)) == [b0, b1]
  {
    Undigits(b0 as int - 0xC0, b1);
  }

  lemma EncodedThree(b0: Byte, b1: Byte, b2: Byte)
    requires ThreeBytes(b0, b1, b2)
    ensures EncodeOne(Joined(Joined(b0 as int - 0xE0, b1), b2)) == [b0, b1, b2]
  {
    ThreeDigits(b0 as int - 0xE0, b1, b2);
  }

  lemma EncodedFour(b0: Byte, b1: Byte, b2: Byte, b3: Byte)
    requires FourBytes(b0, b1, b2, b3)
    ensures EncodeOne(Joined(Joined(Joined(b0 as int - 0xF0, b1), b2), b3)) == [b0, b1, b2, b3]
  {
    FourDigits(b0 as int - 0xF0, b1, b2, b3);
  }

  lemma ThreeDigits(x: nat, t1: int, t2: int)
    requires Tail(t1) && Tail(t2)
    ensures var c := Joined(Joined(x, t1), t2); c / 4096 == x && 0x80 + c / 64 % 64 == t1 && 0x80 + c % 64 == t2
  {
    Undigits(x, t1);
    Undigits(Joined(x, t1), t2);
    var c := Joined(Joined(x, t1), t2);
    assert c / 64 / 64 == c / 4096;
  }

  lemma FourDigits(x: nat, t1: int, t2: int, t3: int)
    requires Tail(t1) && Tail(t2) && Tail(t3)
    ensures var c := Joined(Joined(Joined(x, t1), t2), t3);
            c / 262144 == x && 0x80 + c / 4096 % 64 == t1 && 0x80 + c / 64 % 64 == t2 && 0x80 + c % 64 == t3
  {
    ThreeDigits(x, t1, t2);
    var high := Joined(Joined(x, t1), t2);
    Undigits(high, t3);
    var c := Joined(high, t3);
    assert c / 64 / 64 == c / 4096 && c / 64 / 4096 == c / 262144;
  }

  // ---------------------------------------------------------------- whole strings

  /** Decoding undoes encoding. */
  lemma {:induction false} DecodeEncoded(s: seq<Scalar>)
    ensures Decode(Encode(s)) == Some(s)
  {
    if s != [] {
      DecodeOneEncoded(s[0], Encode(s[1..]));
      assert Encode(s)[|EncodeOne(s[0])|..] == Encode(s[1..]);
      DecodeEncoded(s[1..]);
      assert [s[0]] + s[1..] == s;
    }
  }

  lemma EncodeStarts(c: Scalar, rest: seq<Scalar>)
    ensures Encode([c] + rest) == EncodeOne(c) + Encode(rest)
  {
    assert ([c] + rest)[1..] == rest;
  }

  /** And encoding undoes decoding: every text has just one encoding that is accepted. */
  lemma {:induction false} EncodeDecoded(b: seq<Byte>)
    requires Decode(b).Some?
    ensures Encode(Decode(b).value) == b
    decreases |b|
  {
    if b != [] {
      var first := DecodeOne(b).value;
      var left := b[first.length..];
      EncodeOneDecoded(b);
      EncodeDecoded(left);
      EncodeStarts(first.c, Decode(left).value);
      Rejoin(b, first.length);
    }
  }

  lemma Rejoin(b: seq<Byte>, n: nat)
    requires n <= |b|
    ensures b[..n] + b[n..] == b
  {
  }

  lemma {:induction false} EncodeAppends(s: seq<Scalar>, t: seq<Scalar>)
    ensures Encode(s + t) == Encode(s) + Encode(t)
  {
    if s == [] {
      assert s + t == t;
    } else {
      EncodeAppends(s[1..], t);
      assert (s + t)[1..] == s[1..] + t && (s + t)[0] == s[0];
      Regroup(EncodeOne(s[0]), Encode(s[1..]), Encode(t));
    }
  }

  lemma EncodeGrows(s: seq<Scalar>, k: nat)
    requires k < |s|
    ensures Encode(s[..k + 1]) == Encode(s[..k]) + EncodeOne(s[k])
  {
    EncodeAppends(s[..k], [s[k]]);
    assert s[..k + 1] == s[..k] + [s[k]];
    assert Encode([s[k]]) == EncodeOne(s[k]);
  }

  lemma EncodePrefix(s: seq<Scalar>, k: nat)
    requires k <= |s|
    ensures |Encode(s[..k])| <= |Encode(s)| && Encode(s)[..|Encode(s[..k])|] == Encode(s[..k])
  {
    EncodeAppends(s[..k], s[k..]);
    assert s[..k] + s[k..] == s;
  }

  /** A text whose encoding starts another's is itself the start of it. */
  lemma {:induction false} PrefixOfEncoding(t: seq<Scalar>, s: seq<Scalar>)
    requires Encode(t) <= Encode(s)
    ensures t <= s
  {
    if t != [] {
      var more := Encode(s)[|Encode(t)|..];
      assert Encode(s) == EncodeOne(t[0]) + (Encode(t[1..]) + more);
      DecodeOneEncoded(t[0], Encode(t[1..]) + more);
      DecodeOneEncoded(s[0], Encode(s[1..]));
      assert Encode(s)[|EncodeOne(s[0])|..] == Encode(s[1..]);
      assert Encode(t[1..]) == Encode(t)[|EncodeOne(t[0])|..];
      PrefixOfEncoding(t[1..], s[1..]);
    }
  }
}

/** Cutting model-visible tool output at a byte limit, between characters (src/tool-output-limit.ts). */
module ToolOutputLimit {
  import opened Wrappers
  import opened Utf8

  const BYTE_ORDER_MARK: Scalar := 0xFEFF

  /** The platform's fatal decoder: strict, and it drops a byte order mark at the start. */
  function FatalDecode(b: seq<Byte>): Option<seq<Scalar>> {
    var s := Decode(b);
    if s.Some? && s.value != [] && s.value[0] == BYTE_ORDER_MARK then Some(s.value[1..]) else s
  }

  /** Output that fits is passed on; otherwise a prefix, with the byte counts its notice reports. */
  datatype Limited = Whole(output: seq<Scalar>) | Cut(prefix: seq<Scalar>, original: nat, retained: int)

  /** `k` characters fit the limit, and one more would not. */
  ghost predicate Longest(s: seq<Scalar>, k: nat, limit: int) {
    k <= |s| && |Encode(s[..k])| <= limit && (k < |s| ==> |Encode(s[..k + 1])| > limit)
  }

  /** A prefix of the bytes decodes exactly when it ends between two characters, and then to the characters before. */
  lemma DecodesAtBoundary(s: seq<Scalar>, n: nat)
    requires n <= |Encode(s)|
    ensures Decode(Encode(s)[..n]).Some? <==> exists k: nat :: k <= |s| && |Encode(s[..k])| == n
    ensures forall k: nat :: k <= |s| && |Encode(s[..k])| == n ==> Decode(Encode(s)[..n]) == Some(s[..k])
  {
    forall k: nat | k <= |s| && |Encode(s[..k])| == n ensures Decode(Encode(s)[..n]) == Some(s[..k]) {
      EncodePrefix(s, k);
      DecodeEncoded(s[..k]);
    }
    var t := Decode(Encode(s)[..n]);
    if t.Some? {
      EncodeDecoded(Encode(s)[..n]);
      PrefixOfEncoding(t.value, s);
      assert s[..|t.value|] == t.value;
    }
  }

  lemma {:induction false} EncodeMonotone(s: seq<Scalar>, j: nat, k: nat)
    requires j <= k <= |s|
    ensures |Encode(s[..j])| <= |Encode(s[..k])|
    decreases k - j
  {
    if j < k {
      EncodeGrows(s, k - 1);
      EncodeMonotone(s, j, k - 1);
    }
  }

  /** The last boundary at or before the limit belongs to the longest prefix that fits, at most three bytes before the limit. */
  lemma LastBoundary(s: seq<Scalar>, k: nat, n: nat, limit: nat)
    requires k <= |s| && |Encode(s[..k])| == n <= limit < |Encode(s)|
    requires forall m :: n < m <= limit ==> !(Decode(Encode(s)[..m]).Some?)
    ensures Longest(s, k, limit) && limit - n <= 3
  {
    assert s[..|s|] == s;
    EncodeGrows(s, k);
    var next := |Encode(s[..k + 1])|;
    EncodeMonotone(s, k + 1, |s|);
    if next <= limit { DecodesAtBoundary(s, next); }
  }

  /**
   Output over the limit is cut to the longest prefix of whole characters that fits, at most three bytes
   short of it, and the notice reports its bytes; only a byte order mark at the start is lost from the text.
   */
  method LimitModelToolOutput(output: seq<Scalar>, limitBytes: int) returns (r: Limited, ghost k: nat)
    ensures |Encode(output)| <= limitBytes ==> r == Whole(output)
    ensures |Encode(output)| > limitBytes ==> r.Cut? && r.original == |Encode(output)|
    ensures |Encode(output)| > limitBytes >= 0 ==>
              && Longest(output, k, limitBytes) && r.retained == |Encode(output[..k])| && limitBytes - r.retained <= 3
              && (r.prefix == output[..k] <==> !(k > 0 && output[0] == 0xFEFF))
              && (k > 0 && output[0] == 0xFEFF ==> r.prefix == output[1..k])
    ensures |Encode(output)| > limitBytes && limitBytes < 0 ==> r.prefix == [] && r.retained == limitBytes
  {
    var bytes := Encode(output);
    k := 0;
    if |bytes| <= limitBytes { return Whole(output), 0; }
    var retainedBytes := limitBytes;
    var prefix: seq<Scalar> := [];
    while retainedBytes > 0
      invariant prefix == [] && retainedBytes <= limitBytes && (limitBytes >= 0 ==> retainedBytes >= 0)
      invariant limitBytes < 0 ==> retainedBytes == limitBytes
      invariant forall m :: 0 <= retainedBytes < m <= limitBytes ==> !Decode(bytes[..m]).Some?
    {
      var decoded := FatalDecode(bytes[..retainedBytes]);
      if decoded.Some? {
        DecodesAtBoundary(output, retainedBytes);
        k :| k <= |output| && |Encode(output[..k])| == retainedBytes;
        LastBoundary(output, k, retainedBytes, limitBytes);
        assert output[..k] != [];
        assert output[..k][1..] == output[1..k];
        return Cut(decoded.value, |bytes|, retainedBytes), k;
      }
      retainedBytes := retainedBytes - 1;
    }
    if limitBytes >= 0 {
      assert output[..0] == [];
      LastBoundary(output, 0, 0, limitBytes);
    }
    return Cut(prefix, |bytes|, retainedBytes), 0;
  }
}

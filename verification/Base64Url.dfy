/** base64url without padding, over the platform's `btoa` and `atob` (src/grant-crypto.ts; section 5 of RFC 4648). */
module Base64Url {
  import opened Collections
  import opened Wrappers
  import opened Utf8

  type Sextet = v: nat | v < 64

  // ---------------------------------------------------------------- the standard alphabet and grouping

  function Symbol(v: Sextet): char {
    if v < 26 then (65 + v) as char
    else if v < 52 then (71 + v) as char
    else if v < 62 then (v - 4) as char
    else if v == 62 then '+' else '/'
  }

  function Value(c: char): Option<Sextet> {
    if 'A' <= c <= 'Z' then Some(c as int - 65)
    else if 'a' <= c <= 'z' then Some(c as int - 71)
    else if '0' <= c <= '9' then Some(c as int + 4)
    else if c == '+' then Some(62)
    else if c == '/' then Some(63)
    else None
  }

  /** Three bytes as four sextets. */
  function Group(a: Byte, b: Byte, c: Byte): (g: seq<Sextet>)
    ensures |g| == 4
  {
    [a / 4, a % 4 * 16 + b / 16, b % 16 * 4 + c / 64, c % 64]
  }

  /** Three bytes are four sextets; one or two bytes left over are two or three, the missing bits zero. */
  function Sextets(b: seq<Byte>): seq<Sextet>
    decreases |b|
  {
    if |b| == 0 then []
    else if |b| == 1 then Group(b[0], 0, 0)[..2]
    else if |b| == 2 then Group(b[0], b[1], 0)[..3]
    else Group(b[0], b[1], b[2]) + Sextets(b[3..])
  }

  function High(v: int, w: int): Byte
    requires 0 <= v < 64 && 0 <= w < 64
  {
    v * 4 + w / 16
  }

  function Middle(v: int, w: int): Byte
    requires 0 <= v < 64 && 0 <= w < 64
  {
    v % 16 * 16 + w / 4
  }

  function Low(v: int, w: int): Byte
    requires 0 <= v < 64 && 0 <= w < 64
  {
    v % 4 * 64 + w
  }

  /** The bytes a run of sextets spells; bits left over are dropped, and a single sextet spells nothing. */
  function Unsextets(v: seq<Sextet>): Option<seq<Byte>>
    decreases |v|
  {
    if |v| == 0 then Some([])
    else if |v| == 1 then None
    else if |v| == 2 then Some([High(v[0], v[1])])
    else if |v| == 3 then Some([High(v[0], v[1]), Middle(v[1], v[2])])
    else
      var rest := Unsextets(v[4..]);
      if rest.None? then None
      else Some([High(v[0], v[1]), Middle(v[1], v[2]), Low(v[2], v[3])] + rest.value)
  }

  lemma GroupUndone(a: Byte, b: Byte, c: Byte)
    ensures var g := Group(a, b, c); High(g[0], g[1]) == a && Middle(g[1], g[2]) == b && Low(g[2], g[3]) == c
  {
  }

  lemma UnsextetsGroup(g: seq<Sextet>, rest: seq<Sextet>)
    requires |g| == 4 && Unsextets(rest).Some?
    ensures Unsextets(g + rest) == Some([High(g[0], g[1]), Middle(g[1], g[2]), Low(g[2], g[3])] + Unsextets(rest).value)
    ensures Unsextets(g[..2]) == Some([High(g[0], g[1])])
    ensures Unsextets(g[..3]) == Some([High(g[0], g[1]), Middle(g[1], g[2])])
  {
    assert (g + rest)[4..] == rest;
  }

  lemma GroupSpells(a: Byte, b: Byte, c: Byte, rest: seq<Sextet>)
    requires Unsextets(rest).Some?
    ensures Unsextets(Group(a, b, c) + rest) == Some([a, b, c] + Unsextets(rest).value)
    ensures Unsextets(Group(a, b, c)[..2]) == Some([a]) && Unsextets(Group(a, b, c)[..3]) == Some([a, b])
  {
    GroupUndone(a, b, c);
    UnsextetsGroup(Group(a, b, c), rest);
  }

  lemma {:induction false} SextetsUndone(b: seq<Byte>)
    ensures Unsextets(Sextets(b)) == Some(b)
    decreases |b|
  {
    if |b| == 1 {
      GroupSpells(b[0], 0, 0, []);
      assert b == [b[0]];
    } else if |b| == 2 {
      GroupSpells(b[0], b[1], 0, []);
      assert b == [b[0], b[1]];
    } else if |b| >= 3 {
      SextetsUndone(b[3..]);
      GroupSpells(b[0], b[1], b[2], Sextets(b[3..]));
      FirstThree(b);
    }
  }

  lemma FirstThree(b: seq<Byte>)
    requires |b| >= 3
    ensures [b[0], b[1], b[2]] + b[3..] == b
  {
  }

  /** No run of whole bytes is one sextet over whole groups. */
  lemma {:induction false} SextetsLength(b: seq<Byte>)
    ensures |Sextets(b)| % 4 != 1
    decreases |b|
  {
    if |b| >= 3 { SextetsLength(b[3..]); }
  }

  // ---------------------------------------------------------------- string helpers

  function Spell(v: seq<Sextet>): string { seq(|v|, i requires 0 <= i < |v| => Symbol(v[i])) }

  function Replace(s: string, c: char, d: char): string { seq(|s|, i requires 0 <= i < |s| => if s[i] == c then d else s[i]) }

  function Without(s: string, c: char): string {
    if s == "" then "" else (if s[0] == c then "" else [s[0]]) + Without(s[1..], c)
  }

  predicate IsAsciiSpace(c: char) { c == ' ' || c == '\t' || c == '\n' || c as int == 12 || c == '\r' }

  function WithoutSpace(s: string): string {
    if s == "" then "" else (if IsAsciiSpace(s[0]) then "" else [s[0]]) + WithoutSpace(s[1..])
  }

  function Values(s: string): Option<seq<Sextet>> {
    if s == "" then Some([])
    else
      var first, rest := Value(s[0]), Values(s[1..]);
      if first.None? || rest.None? then None else Some([first.value] + rest.value)
  }

  // ---------------------------------------------------------------- btoa and atob

  function Padding(n: nat): string { if n % 4 == 2 then "==" else if n % 4 == 3 then "=" else "" }

  function Btoa(b: seq<Byte>): string { Spell(Sextets(b)) + Padding(|Sextets(b)|) }

  /** A text of whole groups may end in one or two padding characters. */
  function DropPadding(t: string): string {
    if |t| % 4 != 0 || t == "" || t[|t| - 1] != '=' then t
    else if t[|t| - 2] == '=' then t[..|t| - 2] else t[..|t| - 1]
  }

  /** Forgiving decoding: spaces are ignored, anything else outside the alphabet fails. */
  function Atob(s: string): Option<seq<Byte>> {
    var v := Values(DropPadding(WithoutSpace(s)));
    if v.None? then None else Unsextets(v.value)
  }

  // ---------------------------------------------------------------- the two methods

  function UrlEncode(b: seq<Byte>): string { Replace(Replace(Without(Btoa(b), '='), '+', '-'), '/', '_') }

  function Pads(n: nat): string { if n % 4 == 0 then "" else seq(4 - n % 4, i => '=') }

  function UrlDecode(s: string): Option<seq<Byte>> { Atob(Replace(Replace(s + Pads(|s|), '-', '+'), '_', '/')) }

  function Codes(text: string): seq<Byte>
    requires forall i :: 0 <= i < |text| ==> text[i] as int < 256
  {
    seq(|text|, i requires 0 <= i < |text| => text[i] as int)
  }

  /** Each byte becomes the character of that code, and the text goes to `btoa`. */
  method B64UrlEncode(bytes: seq<Byte>) returns (s: string)
    ensures s == UrlEncode(bytes)
  {
    var text: string := "";
    for i := 0 to |bytes|
      invariant |text| == i && forall k :: 0 <= k < i ==> text[k] as int == bytes[k]
    {
      text := text + [bytes[i] as char];
    }
    assert Codes(text) == bytes;
    s := Without(Btoa(Codes(text)), '=');
    s := Replace(s, '+', '-');
    s := Replace(s, '/', '_');
  }

  /** The characters `atob` gives back become bytes again, one by one. */
  method B64UrlDecode(s: string) returns (out: array?<Byte>)
    ensures out == null <==> UrlDecode(s).None?
    ensures out != null ==> fresh(out) && out[..] == UrlDecode(s).value
  {
    var padded := s + Pads(|s|);
    var bin := Atob(Replace(Replace(padded, '-', '+'), '_', '/'));
    if bin.None? { return null; }
    var bytes := new Byte[|bin.value|];
    for i := 0 to |bin.value|
      invariant bytes[..i] == bin.value[..i]
    {
      bytes[i] := bin.value[i];
    }
    assert bin.value[..|bin.value|] == bin.value;
    out := bytes;
  }

  // ---------------------------------------------------------------- round trip

  lemma SymbolIsLetter(v: Sextet)
    ensures Value(Symbol(v)) == Some(v)
    ensures Symbol(v) != '=' && Symbol(v) != '-' && Symbol(v) != '_' && !IsAsciiSpace(Symbol(v))
  {
  }

  lemma {:induction false} WithoutNone(s: string, c: char)
    requires forall i :: 0 <= i < |s| ==> s[i] != c
    ensures Without(s, c) == s
  {
    if s != "" {
      WithoutNone(s[1..], c);
      assert [s[0]] + s[1..] == s;
    }
  }

  lemma {:induction false} WithoutAppends(s: string, t: string, c: char)
    ensures Without(s + t, c) == Without(s, c) + Without(t, c)
  {
    if s == "" {
      assert s + t == t;
    } else {
      WithoutAppends(s[1..], t, c);
      assert (s + t)[1..] == s[1..] + t && (s + t)[0] == s[0];
      Regroup(if s[0] == c then "" else [s[0]], Without(s[1..], c), Without(t, c));
    }
  }

  lemma {:induction false} SpaceFree(s: string)
    requires forall i :: 0 <= i < |s| ==> !IsAsciiSpace(s[i])
    ensures WithoutSpace(s) == s
  {
    if s != "" {
      SpaceFree(s[1..]);
      assert [s[0]] + s[1..] == s;
    }
  }

  lemma {:induction false} ValuesOfSpelling(v: seq<Sextet>)
    ensures Values(Spell(v)) == Some(v)
  {
    if v != [] {
      assert Spell(v)[1..] == Spell(v[1..]);
      ValuesOfSpelling(v[1..]);
      SymbolIsLetter(v[0]);
      assert [v[0]] + v[1..] == v;
    }
  }

  /** Encoded text is the sextets in the URL alphabet, with no padding. */
  lemma EncodedSpelling(b: seq<Byte>)
    ensures UrlEncode(b) == Replace(Replace(Spell(Sextets(b)), '+', '-'), '/', '_')
  {
    var v := Sextets(b);
    forall i | 0 <= i < |Spell(v)| ensures Spell(v)[i] != '=' { SymbolIsLetter(v[i]); }
    WithoutNone(Spell(v), '=');
    WithoutAppends(Spell(v), Padding(|v|), '=');
    assert Without("=", '=') == "" && Without("==", '=') == "" by { assert "=="[1..] == "="; }
  }

  /** Decoding puts the padding and the standard alphabet back. */
  lemma ReplacedBack(t: string, pads: string)
    requires forall i :: 0 <= i < |t| ==> t[i] != '-' && t[i] != '_'
    requires forall i :: 0 <= i < |pads| ==> pads[i] == '='
    ensures Replace(Replace(Replace(Replace(t, '+', '-'), '/', '_') + pads, '-', '+'), '_', '/') == t + pads
  {
  }

  lemma PadsDropped(s: string)
    requires |s| % 4 != 1 && (s != "" ==> s[|s| - 1] != '=')
    ensures DropPadding(s + Pads(|s|)) == s
  {
    var t := s + Pads(|s|);
    assert t[..|s|] == s;
    if |s| % 4 != 0 { assert t[|s|] == '='; }
  }

  lemma PaddingDropped(v: seq<Sextet>)
    requires |v| % 4 != 1
    ensures DropPadding(WithoutSpace(Spell(v) + Pads(|v|))) == Spell(v)
  {
    var t := Spell(v) + Pads(|v|);
    forall i | 0 <= i < |t| ensures !IsAsciiSpace(t[i]) {
      if i < |v| { SymbolIsLetter(v[i]); }
    }
    SpaceFree(t);
    if v != [] { SymbolIsLetter(v[|v| - 1]); }
    PadsDropped(Spell(v));
  }

  /** base64url decoding undoes encoding, for every byte sequence. */
  lemma DecodeUndoesEncode(b: seq<Byte>)
    ensures UrlDecode(UrlEncode(b)) == Some(b)
  {
    var v := Sextets(b);
    SextetsUndone(b);
    SextetsLength(b);
    EncodedSpelling(b);
    forall i | 0 <= i < |v| ensures Spell(v)[i] != '-' && Spell(v)[i] != '_' { SymbolIsLetter(v[i]); }
    ReplacedBack(Spell(v), Pads(|v|));
    PaddingDropped(v);
    ValuesOfSpelling(v);
  }

  predicate UrlSafe(c: char) { 'A' <= c <= 'Z' || 'a' <= c <= 'z' || '0' <= c <= '9' || c == '_' || c == '-' }

  /** Encoded text is made of letters, digits, "-" and "_" only, and is empty only for no bytes. */
  lemma EncodedIsUrlSafe(b: seq<Byte>)
    ensures forall i :: 0 <= i < |UrlEncode(b)| ==> UrlSafe(UrlEncode(b)[i])
    ensures UrlEncode(b) == "" <==> b == []
  {
    EncodedSpelling(b);
    assert |UrlEncode(b)| == |Sextets(b)|;
  }

  // ---------------------------------------------------------------- text that is refused

  /** A character that is in neither alphabet, no padding and no space. */
  predicate Foreign(c: char) { !UrlSafe(c) && c != '+' && c != '/' && c != '=' && !IsAsciiSpace(c) }

  lemma {:induction false} ForeignSurvives(s: string, c: char)
    requires c in s && Foreign(c)
    ensures c in WithoutSpace(s)
  {
    if s[0] != c {
      assert c in s[1..];
      ForeignSurvives(s[1..], c);
    }
  }

  lemma {:induction false} ForeignHasNoValue(s: string, c: char)
    requires c in s && Value(c).None?
    ensures Values(s).None?
  {
    if s[0] != c {
      assert c in s[1..];
      ForeignHasNoValue(s[1..], c);
    }
  }

  lemma PaddingIsNotForeign(t: string, c: char)
    requires c in t && c != '='
    ensures c in DropPadding(t)
  {
    var i :| 0 <= i < |t| && t[i] == c;
    if i < |DropPadding(t)| { assert DropPadding(t)[i] == c; }
  }

  lemma ReplaceKeeps(s: string, c: char, from: char, to: char)
    requires c in s && c != from
    ensures c in Replace(s, from, to)
  {
    var i :| 0 <= i < |s| && s[i] == c;
    assert Replace(s, from, to)[i] == c;
  }

  /** A text with one foreign character in it is not decoded at all. */
  lemma ForeignIsRefused(s: string, c: char)
    requires c in s && Foreign(c)
    ensures UrlDecode(s).None?
  {
    var padded := s + Pads(|s|);
    ReplaceKeeps(padded, c, '-', '+');
    ReplaceKeeps(Replace(padded, '-', '+'), c, '_', '/');
    var t := Replace(Replace(padded, '-', '+'), '_', '/');
    ForeignSurvives(t, c);
    PaddingIsNotForeign(WithoutSpace(t), c);
    ForeignHasNoValue(DropPadding(WithoutSpace(t)), c);
  }

  // ---------------------------------------------------------------- the alphabet and the bits (sections 4 and 5 of RFC 4648)

  /** The URL alphabet: capital letters, small letters, digits, minus, underscore. */
  ghost function UrlLetter(v: Sextet): char {
    if v < 26 then ('A' as int + v) as char
    else if v < 52 then ('a' as int + (v - 26)) as char
    else if v < 62 then ('0' as int + (v - 52)) as char
    else if v == 62 then '-' else '_'
  }

  ghost function ByteAt(b: seq<Byte>, i: nat): Byte { if i < |b| then b[i] else 0 }

  /** The six bits at position `k` of a byte string followed by zero bits, most significant first. */
  ghost function SixBits(b: seq<Byte>, k: nat): Sextet {
    var n := ByteAt(b, k / 4 * 3) * 65536 + ByteAt(b, k / 4 * 3 + 1) * 256 + ByteAt(b, k / 4 * 3 + 2);
    match k % 4
    case 0 => n / 262144 % 64
    case 1 => n / 4096 % 64
    case 2 => n / 64 % 64
    case _ => n % 64
  }

  lemma NumberSplits(a: Byte, b: Byte, c: Byte)
    ensures var n := a * 65536 + b * 256 + c;
            && n / 262144 == a / 4 && n / 4096 == a * 16 + b / 16 && n / 64 == a * 1024 + b * 4 + c / 64
  {
    var n := a * 65536 + b * 256 + c;
    assert n == 262144 * (a / 4) + (a % 4 * 65536 + b * 256 + c);
    assert n == 4096 * (a * 16 + b / 16) + (b % 16 * 256 + c);
    assert n == 64 * (a * 1024 + b * 4 + c / 64) + c % 64;
  }

  lemma GroupIsNumber(a: Byte, b: Byte, c: Byte)
    ensures var n, g := a * 65536 + b * 256 + c, Group(a, b, c);
            g[0] == n / 262144 % 64 && g[1] == n / 4096 % 64 && g[2] == n / 64 % 64 && g[3] == n % 64
  {
    NumberSplits(a, b, c);
    assert a * 16 + b / 16 == 64 * (a / 4) + (a % 4 * 16 + b / 16);
    assert a * 1024 + b * 4 + c / 64 == 64 * (a * 16 + b / 16) + (b % 16 * 4 + c / 64);
    assert a * 65536 + b * 256 + c == 64 * (a * 1024 + b * 4 + c / 64) + c % 64;
  }

  lemma GroupBits(b: seq<Byte>, k: nat)
    requires k < 4
    ensures Group(ByteAt(b, 0), ByteAt(b, 1), ByteAt(b, 2))[k] == SixBits(b, k)
  {
    GroupIsNumber(ByteAt(b, 0), ByteAt(b, 1), ByteAt(b, 2));
  }

  lemma BitsFurther(b: seq<Byte>, k: nat)
    requires |b| >= 3 && k >= 4
    ensures SixBits(b, k) == SixBits(b[3..], k - 4)
  {
    assert k / 4 * 3 - 3 == (k - 4) / 4 * 3;
  }

  lemma {:induction false} SextetsAreBits(b: seq<Byte>, k: nat)
    ensures |Sextets(b)| == (4 * |b| + 2) / 3
    ensures k < |Sextets(b)| ==> Sextets(b)[k] == SixBits(b, k)
    decreases |b|
  {
    if k < 4 { GroupBits(b, k); }
    if |b| >= 3 {
      SextetsAreBits(b[3..], if k < 4 then 0 else k - 4);
      if k >= 4 { BitsFurther(b, k); }
    }
  }

  /** The encoding, character by character: the letter of each six bits in turn, and nothing for bits there are none of. */
  lemma EncodedExactly(b: seq<Byte>, k: nat)
    ensures |UrlEncode(b)| == (4 * |b| + 2) / 3
    ensures k < |UrlEncode(b)| ==> UrlEncode(b)[k] == UrlLetter(SixBits(b, k))
  {
    EncodedSpelling(b);
    SextetsAreBits(b, k);
  }
}

/** Tool-call ids every provider accepts, the same for a call and its result (src/tool-id-sanitize.ts). */
module ToolIdSanitize {
  import opened Collections
  import opened Wrappers
  import opened Utf16

  const MAX_TOOL_ID_LENGTH := 64
  const UNDERSCORE: CodeUnit := 95

  /** "toolcall_unknown" */
  const UNKNOWN: Text := [116, 111, 111, 108, 99, 97, 108, 108, 95, 117, 110, 107, 110, 111, 119, 110]

  predicate IdUnit(c: CodeUnit) { 48 <= c <= 57 || 65 <= c <= 90 || 97 <= c <= 122 || c == UNDERSCORE || c == 45 }

  predicate IsValidToolCallId(id: Text) { 1 <= |id| <= MAX_TOOL_ID_LENGTH && forall i :: 0 <= i < |id| ==> IdUnit(id[i]) }

  // ---------------------------------------------------------------- hexadecimal

  function HexDigit(d: nat): CodeUnit
    requires d < 16
  {
    if d < 10 then 48 + d else 87 + d
  }

  /** `toString(16)`: lower-case digits, no leading zeros. */
  function Hex(n: nat): Text { if n < 16 then [HexDigit(n)] else Hex(n / 16) + [HexDigit(n % 16)] }

  function DigitValue(c: CodeUnit): nat { if 48 <= c <= 57 then c - 48 else if 97 <= c <= 102 then c - 87 else 0 }

  function FromHex(t: Text): nat { if t == [] then 0 else FromHex(t[..|t| - 1]) * 16 + DigitValue(t[|t| - 1]) }

  lemma {:induction false} HexReadsBack(n: nat)
    ensures FromHex(Hex(n)) == n
    ensures forall i :: 0 <= i < |Hex(n)| ==> IdUnit(Hex(n)[i]) && Hex(n)[i] != UNDERSCORE
  {
    if n >= 16 {
      HexReadsBack(n / 16);
      assert Hex(n)[..|Hex(n)| - 1] == Hex(n / 16);
    } else {
      assert FromHex([]) == 0;
      assert Hex(n)[..0] == [];
    }
  }

  lemma {:induction false} HexIsShort(n: nat, width: nat, bound: nat)
    requires n < bound && bound == Power16(width)
    ensures |Hex(n)| <= Max(1, width)
  {
    if n >= 16 { HexIsShort(n / 16, width - 1, Power16(width - 1)); }
  }

  function Power16(k: nat): nat { if k == 0 then 1 else 16 * Power16(k - 1) }

  // ---------------------------------------------------------------- the hash suffix

  /** One round of 32-bit FNV-1a: xor, then multiply modulo 2^32. */
  function FnvRound(hash: bv32, c: CodeUnit): bv32 { (hash ^ (c as bv32)) * 0x01000193 }

  function Fnv(s: Text): bv32 { if s == [] then 0x811c9dc5 else FnvRound(Fnv(s[..|s| - 1]), s[|s| - 1]) }

  function PadStart(t: Text, width: nat): Text { if |t| >= width then t else seq(width - |t|, i => 48) + t }

  method Fnv1a32Hex(value: Text) returns (hex: Text)
    ensures hex == PadStart(Hex(Fnv(value) as nat), 8)
  {
    var hash: bv32 := 0x811c9dc5;
    for i := 0 to |value|
      invariant hash == Fnv(value[..i])
    {
      assert value[..i + 1][..i] == value[..i];
      hash := FnvRound(hash, value[i]);
    }
    assert value[..|value|] == value;
    return PadStart(Hex(hash as nat), 8);
  }

  function Suffix(s: Text): Text { [UNDERSCORE] + PadStart(Hex(Fnv(s) as nat), 8) }

  lemma SuffixIsNine(s: Text)
    ensures |Suffix(s)| == 9 && forall i :: 0 <= i < 9 ==> IdUnit(Suffix(s)[i])
  {
    var n := Fnv(s) as nat;
    assert Power16(8) == 0x1_0000_0000 by {
      assert Power16(4) == 0x1_0000 by { assert Power16(2) == 0x100; }
      assert Power16(6) == 0x100_0000;
    }
    HexIsShort(n, 8, Power16(8));
    HexReadsBack(n);
  }

  // ---------------------------------------------------------------- escaping

  function EscapeUnit(c: CodeUnit): Text { if IdUnit(c) then [c] else [UNDERSCORE] + Hex(c) + [UNDERSCORE] }

  function Escape(s: Text): Text { if s == [] then [] else EscapeUnit(s[0]) + Escape(s[1..]) }

  lemma {:induction false} EscapeIsValid(s: Text)
    ensures forall i :: 0 <= i < |Escape(s)| ==> IdUnit(Escape(s)[i])
    ensures |Escape(s)| >= |s|
  {
    if s != [] {
      EscapeIsValid(s[1..]);
      HexReadsBack(s[0]);
    }
  }

  /** The text up to the next underscore, or all of it. */
  function Word(t: Text): Text { if t == [] || t[0] == UNDERSCORE then [] else [t[0]] + Word(t[1..]) }

  /** Reading an escaped text back: between two underscores stands one unit in hexadecimal. */
  function Unescape(t: Text): Option<seq<nat>>
    decreases |t|
  {
    if t == [] then Some([])
    else if t[0] == UNDERSCORE then
      var word := Word(t[1..]);
      if |word| + 1 >= |t| then None
      else
        var rest := Unescape(t[|word| + 2..]);
        if rest.None? then None else Some([FromHex(word)] + rest.value)
    else
      var rest := Unescape(t[1..]);
      if rest.None? then None else Some([t[0]] + rest.value)
  }

  lemma {:induction false} WordEnds(h: Text, rest: Text)
    requires forall i :: 0 <= i < |h| ==> h[i] != UNDERSCORE
    ensures Word(h + [UNDERSCORE] + rest) == h
  {
    var t := h + [UNDERSCORE] + rest;
    if h == [] {
      assert t[0] == UNDERSCORE;
    } else {
      WordEnds(h[1..], rest);
      assert t[1..] == h[1..] + [UNDERSCORE] + rest;
      assert [h[0]] + h[1..] == h;
    }
  }

  predicate UnderscoreFree(s: Text) { forall i :: 0 <= i < |s| ==> s[i] != UNDERSCORE }

  /** The escape is uniquely decodable: without underscores of its own, a text comes back from its escape. */
  lemma {:induction false} UnescapeUndoesEscape(s: Text)
    requires UnderscoreFree(s)
    ensures Unescape(Escape(s)) == Some(s)
  {
    if s != [] {
      UnescapeUndoesEscape(s[1..]);
      assert [s[0]] + s[1..] == s;
      var rest := Escape(s[1..]);
      if IdUnit(s[0]) {
        assert Escape(s)[1..] == rest;
      } else {
        EscapedUnitReads(s[0], rest);
      }
    }
  }

  lemma EscapedUnitReads(c: CodeUnit, rest: Text)
    requires !IdUnit(c) && Unescape(rest).Some?
    ensures Unescape(EscapeUnit(c) + rest) == Some([c as nat] + Unescape(rest).value)
  {
    HexReadsBack(c);
    WordEnds(Hex(c), rest);
    Delimited(Hex(c), rest);
  }

  lemma Delimited(word: Text, rest: Text)
    ensures var t := [UNDERSCORE] + word + [UNDERSCORE] + rest;
            t[0] == UNDERSCORE && t[1..] == word + [UNDERSCORE] + rest && t[|word| + 2..] == rest
  {
  }

  /** The fallback token is no escape of anything. */
  lemma UnknownIsNoEscape()
    ensures Unescape(UNKNOWN) == None
  {
    TailFails(UNKNOWN, 8);
  }

  lemma {:induction false} TailFails(t: Text, n: nat)
    requires n < |t| && t[n] == UNDERSCORE && (forall i :: 0 <= i < |t| && i != n ==> t[i] != UNDERSCORE)
    ensures Unescape(t) == None
  {
    if n == 0 {
      WordIsAll(t[1..]);
    } else {
      TailFails(t[1..], n - 1);
    }
  }

  lemma {:induction false} WordIsAll(t: Text)
    requires UnderscoreFree(t)
    ensures Word(t) == t
  {
    if t != [] {
      WordIsAll(t[1..]);
      assert [t[0]] + t[1..] == t;
    }
  }

  // ---------------------------------------------------------------- sanitizing one id

  /** What an id is escaped to before its length is looked at; no text stands for an id that is no string. */
  function Normalized(id: Option<Text>): Text {
    var escaped := if id.Some? then Escape(id.value) else [];
    if escaped != [] then escaped else UNKNOWN
  }

  function Shortened(t: Text): Text {
    if |t| <= MAX_TOOL_ID_LENGTH then t else t[..MAX_TOOL_ID_LENGTH - 9] + Suffix(t)
  }

  function SanitizeToolCallId(id: Option<Text>): Text {
    if id.Some? && IsValidToolCallId(id.value) then id.value else Shortened(Normalized(id))
  }

  lemma UnknownIsValid()
    ensures IsValidToolCallId(UNKNOWN)
  {
  }

  /** Whatever the id was, the result is one every provider accepts, at most 64 units long. */
  lemma SanitizedIsValid(id: Option<Text>)
    ensures IsValidToolCallId(SanitizeToolCallId(id))
  {
    UnknownIsValid();
    if id.Some? { EscapeIsValid(id.value); }
    SuffixIsNine(Normalized(id));
  }

  /** A valid id is left alone, an invalid one never is, and sanitizing again changes nothing. */
  lemma SanitizeIsIdempotent(id: Text)
    ensures SanitizeToolCallId(Some(id)) == id <==> IsValidToolCallId(id)
    ensures SanitizeToolCallId(Some(SanitizeToolCallId(Some(id)))) == SanitizeToolCallId(Some(id))
  {
    SanitizedIsValid(Some(id));
  }

  lemma {:induction false} ValidIsItsEscape(id: Text)
    requires forall i :: 0 <= i < |id| ==> IdUnit(id[i])
    ensures Escape(id) == id
  {
    if id != [] {
      ValidIsItsEscape(id[1..]);
      assert [id[0]] + id[1..] == id;
    }
  }

  /** Unless it is too long or empty, an id is sanitized to its escape. */
  lemma SanitizedIsEscape(id: Text)
    requires id != [] && |Escape(id)| <= MAX_TOOL_ID_LENGTH
    ensures SanitizeToolCallId(Some(id)) == Escape(id)
  {
    EscapeIsValid(id);
    if IsValidToolCallId(id) { ValidIsItsEscape(id); }
  }

  /** Different ids without underscores, whose escapes fit, stay different, and a non-empty one differs from no id at all. */
  lemma DistinctIdsStayDistinct(a: Text, b: Text)
    requires a != b && UnderscoreFree(a) && UnderscoreFree(b)
    requires |Escape(a)| <= MAX_TOOL_ID_LENGTH && |Escape(b)| <= MAX_TOOL_ID_LENGTH
    ensures SanitizeToolCallId(Some(a)) != SanitizeToolCallId(Some(b))
    ensures a != [] ==> SanitizeToolCallId(Some(a)) != SanitizeToolCallId(None)
  {
    UnescapeUndoesEscape(a);
    UnescapeUndoesEscape(b);
    UnknownIsNoEscape();
    if a != [] { SanitizedIsEscape(a); }
    if b != [] { SanitizedIsEscape(b); }
  }

  // ---------------------------------------------------------------- when ids collide

  lemma {:induction false} EscapeAppends(s: Text, t: Text)
    ensures Escape(s + t) == Escape(s) + Escape(t)
  {
    if s == [] {
      assert s + t == t;
    } else {
      EscapeAppends(s[1..], t);
      EscapeStarts(s[0], s[1..]);
      EscapeStarts(s[0], s[1..] + t);
      Regrouped([s[0]], s[1..], t, s);
      Regroup(EscapeUnit(s[0]), Escape(s[1..]), Escape(t));
    }
  }

  lemma Regrouped(a: Text, b: Text, c: Text, s: Text)
    requires s == a + b
    ensures s + c == a + (b + c) && a + b == s
  {
  }

  lemma EscapeAround(u: Text, c: CodeUnit, v: Text)
    ensures Escape(u + [c] + v) == Escape(u) + EscapeUnit(c) + Escape(v)
  {
    EscapeAppends(u + [c], v);
    EscapeAppends(u, [c]);
    assert [c][1..] == [];
    assert Escape([c]) == EscapeUnit(c);
  }

  /** At `i` stands the escape of the illegal unit `c`. */
  predicate EscapeAt(a: Text, i: nat, c: CodeUnit) {
    !IdUnit(c) && i + |EscapeUnit(c)| <= |a| && a[i..i + |EscapeUnit(c)|] == EscapeUnit(c)
  }

  ghost predicate HoldsEscape(a: Text) { exists i: nat, c: CodeUnit :: EscapeAt(a, i, c) }

  /** Another id whose escape fits is sanitized to the same. */
  ghost predicate Collides(a: Text, b: Text) {
    b != a && |Escape(b)| <= MAX_TOOL_ID_LENGTH && SanitizeToolCallId(Some(b)) == SanitizeToolCallId(Some(a))
  }

  /** An id that reads like an escape meets the id it is the escape of. */
  lemma EscapedTwin(a: Text, i: nat, c: CodeUnit) returns (b: Text)
    requires IsValidToolCallId(a) && EscapeAt(a, i, c)
    ensures Collides(a, b)
  {
    var u, v := a[..i], a[i + |EscapeUnit(c)|..];
    b := u + [c] + v;
    assert a == u + EscapeUnit(c) + v;
    ValidIsItsEscape(u);
    ValidIsItsEscape(v);
    EscapeAround(u, c, v);
    assert b[i] == c;
    SanitizedIsEscape(b);
  }

  lemma IllegalUnit(b: Text) returns (i: nat)
    requires Escape(b) != b
    ensures i < |b| && !IdUnit(b[i])
  {
    if forall i :: 0 <= i < |b| ==> IdUnit(b[i]) { ValidIsItsEscape(b); }
    i :| i < |b| && !IdUnit(b[i]);
  }

  /** The escape of an id with an illegal unit holds the escape of that unit. */
  lemma EscapeShows(b: Text, i: nat)
    requires i < |b| && !IdUnit(b[i])
    ensures HoldsEscape(Escape(b))
  {
    SplitAt(b, i);
    EscapeAround(b[..i], b[i], b[i + 1..]);
    EscapeInside(Escape(b), Escape(b[..i]), b[i], Escape(b[i + 1..]));
  }

  lemma SplitAt(b: Text, i: nat)
    requires i < |b|
    ensures b == b[..i] + [b[i]] + b[i + 1..]
  {
  }

  lemma EscapeInside(a: Text, u: Text, c: CodeUnit, v: Text)
    requires !IdUnit(c) && a == u + EscapeUnit(c) + v
    ensures HoldsEscape(a)
  {
    Middle(u, EscapeUnit(c), v);
    assert EscapeAt(a, |u|, c);
  }

  lemma Middle(u: Text, e: Text, v: Text)
    ensures |u + e + v| >= |u| + |e| && (u + e + v)[|u|..|u| + |e|] == e
  {
  }

  lemma ShowsCollision(a: Text, b: Text)
    requires |Escape(a)| <= MAX_TOOL_ID_LENGTH && Collides(a, b)
    ensures !IsValidToolCallId(a) || a == UNKNOWN || HoldsEscape(a)
  {
    if IsValidToolCallId(a) && b != [] {
      SanitizedIsEscape(b);
      var i := IllegalUnit(b);
      EscapeShows(b, i);
    }
  }

  lemma UnknownMeetsEmpty()
    ensures Collides(UNKNOWN, []) && Collides([], UNKNOWN)
  {
    UnknownIsValid();
    ValidIsItsEscape(UNKNOWN);
  }

  /** An id that has to be rewritten meets the id that reads like its escape. */
  lemma MeetsItsEscape(a: Text)
    requires a != [] && |Escape(a)| <= MAX_TOOL_ID_LENGTH && !IsValidToolCallId(a)
    ensures Collides(a, Escape(a))
  {
    EscapeIsValid(a);
    SanitizedIsEscape(a);
    ValidIsItsEscape(Escape(a));
  }

  lemma FindsCollision(a: Text)
    ensures |Escape(a)| <= MAX_TOOL_ID_LENGTH && (!IsValidToolCallId(a) || a == UNKNOWN || HoldsEscape(a)) ==>
              exists b :: Collides(a, b)
  {
    if a == UNKNOWN || a == [] {
      UnknownMeetsEmpty();
    } else if |Escape(a)| <= MAX_TOOL_ID_LENGTH && !IsValidToolCallId(a) {
      MeetsItsEscape(a);
    } else if IsValidToolCallId(a) && HoldsEscape(a) {
      var i: nat, c: CodeUnit :| EscapeAt(a, i, c);
      var b := EscapedTwin(a, i, c);
    }
  }

  /**
   Among ids whose escapes fit, an id shares its sanitized form with another one exactly if it has to be
   rewritten, is the fallback token, or holds what reads like the escape of an illegal unit.
   */
  lemma CollidesExactly(a: Text)
    requires |Escape(a)| <= MAX_TOOL_ID_LENGTH
    ensures (exists b :: Collides(a, b)) <==> !IsValidToolCallId(a) || a == UNKNOWN || HoldsEscape(a)
  {
    if b :| Collides(a, b) { ShowsCollision(a, b); }
    FindsCollision(a);
  }

  lemma EscapeStarts(c: CodeUnit, rest: Text)
    ensures Escape([c] + rest) == EscapeUnit(c) + Escape(rest)
  {
    assert ([c] + rest)[1..] == rest;
  }

  lemma DottedEscapes()
    ensures Escape([97, 46, 98]) == [97, 95, 50, 101, 95, 98]
  {
    assert Hex(46) == [50, 101];
    EscapeStarts(98, []);
    EscapeStarts(46, [98]);
    EscapeStarts(97, [46, 98]);
  }

  /** With an underscore of its own, an id can meet the escape of another: "a.b" becomes "a_2e_b". */
  lemma UnderscoresCanCollide()
    ensures SanitizeToolCallId(Some([97, 46, 98])) == SanitizeToolCallId(Some([97, 95, 50, 101, 95, 98]))
    ensures SanitizeToolCallId(Some([97, 95, 50, 101, 95, 98])) == [97, 95, 50, 101, 95, 98]
  {
    var dotted: Text := [97, 46, 98];
    DottedEscapes();
    SanitizedIsEscape(dotted);
    EscapeIsValid(dotted);
  }

  // ---------------------------------------------------------------- the form of an id, spelled out

  /** One to sixty-four letters, digits, underscores and minus signs. */
  ghost predicate Legal(t: Text) { 1 <= |t| <= 64 && forall i :: 0 <= i < |t| ==> LegalUnit(t[i]) }

  ghost predicate LegalUnit(c: CodeUnit) {
    c < 128 && var ch := c as char; 'a' <= ch <= 'z' || 'A' <= ch <= 'Z' || '0' <= ch <= '9' || ch == '_' || ch == '-'
  }

  lemma ValidExactly(t: Text)
    ensures IsValidToolCallId(t) <==> Legal(t)
  {
  }

  ghost predicate LowerHexDigit(c: CodeUnit) { c < 128 && var ch := c as char; '0' <= ch <= '9' || 'a' <= ch <= 'f' }

  /** A number in hexadecimal: digits and small letters, no zero in front unless it is the only digit. */
  lemma {:induction false} HexSpelled(n: nat)
    ensures Hex(n) != [] && forall i :: 0 <= i < |Hex(n)| ==> LowerHexDigit(Hex(n)[i])
    ensures n > 0 ==> Hex(n)[0] != '0' as int
  {
    if n >= 16 { HexSpelled(n / 16); }
  }

  lemma {:induction false} ZerosAddNothing(k: nat, t: Text)
    ensures FromHex(seq(k, i => 48) + t) == FromHex(t)
    decreases |t|
  {
    var zeros: Text := seq(k, i => 48);
    if t == [] {
      OnlyZeros(k);
      assert zeros + t == zeros;
    } else {
      ZerosAddNothing(k, t[..|t| - 1]);
      assert (zeros + t)[..|zeros + t| - 1] == zeros + t[..|t| - 1];
    }
  }

  lemma {:induction false} OnlyZeros(k: nat)
    ensures FromHex(seq(k, i => 48)) == 0
  {
    if k > 0 {
      var zeros: Text := seq(k, i => 48);
      OnlyZeros(k - 1);
      assert zeros[..k - 1] == seq(k - 1, i => 48);
    }
  }

  /** An underscore and the hash in eight hexadecimal digits. */
  ghost predicate IsSuffix(t: Text, hash: nat) {
    && |t| == 9 && t[0] == '_' as int
    && (forall i :: 1 <= i < 9 ==> LowerHexDigit(t[i]))
    && FromHex(t[1..]) == hash
  }

  lemma PaddedReads(t: Text)
    requires |t| <= 8 && forall i :: 0 <= i < |t| ==> LowerHexDigit(t[i])
    ensures |PadStart(t, 8)| == 8 && FromHex(PadStart(t, 8)) == FromHex(t)
    ensures forall i :: 0 <= i < 8 ==> LowerHexDigit(PadStart(t, 8)[i])
  {
    if |t| < 8 { ZerosAddNothing(8 - |t|, t); }
  }

  lemma SuffixExactly(s: Text)
    ensures IsSuffix(Suffix(s), Fnv(s) as nat)
  {
    var t := Hex(Fnv(s) as nat);
    HashIsShort(s);
    HexReadsBack(Fnv(s) as nat);
    HexSpelled(Fnv(s) as nat);
    PaddedReads(t);
    StartsWithMark(UNDERSCORE, PadStart(t, 8));
  }

  lemma HashIsShort(s: Text)
    ensures |Hex(Fnv(s) as nat)| <= 8
  {
    SuffixIsNine(s);
  }

  lemma StartsWithMark(c: CodeUnit, t: Text)
    ensures ([c] + t)[1..] == t && forall i :: 1 <= i < 1 + |t| ==> ([c] + t)[i] == t[i - 1]
  {
  }

  /** The rounds of hashing "a" and "foobar", from the offset basis to the published values of 32-bit FNV-1a. */
  lemma FnvKnownRounds()
    ensures Fnv([]) == 0x811c9dc5
    ensures FnvRound(0x811c9dc5, 'a' as int) == 0xe40c292c && FnvRound(0x811c9dc5, 'f' as int) == 0xe30c2799
    ensures FnvRound(0xe30c2799, 'o' as int) == 0x6222e842 && FnvRound(0x6222e842, 'o' as int) == 0xa9f37ed7
    ensures FnvRound(0xa9f37ed7, 'b' as int) == 0x3f5076ef && FnvRound(0x3f5076ef, 'a' as int) == 0x39aaa18a
    ensures FnvRound(0x39aaa18a, 'r' as int) == 0xbf9cf968
  {
  }

  /** Each unit is hashed by one round on top of those before it. */
  lemma FnvOne(s: Text, c: CodeUnit)
    ensures Fnv(s + [c]) == FnvRound(Fnv(s), c)
  {
    assert (s + [c])[..|s|] == s;
  }

  lemma EscapeSpelled(c: CodeUnit, rest: Text)
    ensures Escape([c] + rest) == (if LegalUnit(c) then [c] else ['_' as int] + Hex(c) + ['_' as int]) + Escape(rest)
  {
    EscapeStarts(c, rest);
  }

  lemma UnknownSpelled()
    ensures UNKNOWN[..8] == ['t' as int, 'o' as int, 'o' as int, 'l' as int, 'c' as int, 'a' as int, 'l' as int, 'l' as int]
    ensures UNKNOWN[8..] == ['_' as int, 'u' as int, 'n' as int, 'k' as int, 'n' as int, 'o' as int, 'w' as int, 'n' as int]
  {
  }

  /**
   What an id becomes.  A legal one stays; otherwise its escape, the fixed token if there is nothing to escape,
   and of an escape over sixty-four units the first fifty-five and the hash of all of it.
   */
  lemma SanitizedExactly(id: Option<Text>)
    ensures var r, escaped := SanitizeToolCallId(id), if id.Some? then Escape(id.value) else [];
            if id.Some? && Legal(id.value) then r == id.value
            else if escaped == [] then r == UNKNOWN
            else if |escaped| <= 64 then r == escaped
            else |r| == 64 && r[..55] == escaped[..55] && IsSuffix(r[55..], Fnv(escaped) as nat)
  {
    if id.Some? {
      ValidExactly(id.value);
      var escaped := Escape(id.value);
      SuffixIsNine(escaped);
      SuffixExactly(escaped);
      if |escaped| > 64 { TakesSuffix(escaped[..55], Suffix(escaped)); }
    }
  }

  lemma TakesSuffix(a: Text, b: Text)
    requires |a| == 55
    ensures (a + b)[..55] == a && (a + b)[55..] == b
  {
  }

  // ---------------------------------------------------------------- the whole history

  datatype PartKind = ToolCall | ToolResult | OtherPart

  /** A part of a message; `id` is its tool-call id, if it is a string at all. */
  datatype Part = Part(kind: PartKind, id: Option<Text>, payload: Key)

  datatype Message = Plain(text: Key) | Parts(role: Key, parts: seq<Part>)

  predicate IsTool(p: Part) { p.kind.ToolCall? || p.kind.ToolResult? }

  function Healed(p: Part): Part { if IsTool(p) then p.(id := Some(SanitizeToolCallId(p.id))) else p }

  function HealedMessage(m: Message): Message {
    if m.Plain? then m else m.(parts := seq(|m.parts|, i requires 0 <= i < |m.parts| => Healed(m.parts[i])))
  }

  predicate Healthy(p: Part) { IsTool(p) ==> p.id.Some? && IsValidToolCallId(p.id.value) }

  predicate HealthyMessage(m: Message) { m.Parts? ==> PartsHealthy(m.parts) }

  lemma HealedExactly(p: Part)
    ensures Healed(p) == p <==> Healthy(p)
    ensures Healthy(Healed(p))
  {
    SanitizedIsValid(p.id);
    if p.id.Some? { SanitizeIsIdempotent(p.id.value); }
  }

  method HealPart(part: Part) returns (healed: Part, changed: bool)
    ensures healed == Healed(part)
    ensures changed <==> !Healthy(part)
  {
    HealedExactly(part);
    changed := IsTool(part) && !(part.id.Some? && IsValidToolCallId(part.id.value));
    healed := if changed then part.(id := Some(SanitizeToolCallId(part.id))) else part;
  }

  predicate PartsHealed(parts: seq<Part>, content: seq<Part>) {
    |content| == |parts| && forall i :: 0 <= i < |parts| ==> content[i] == Healed(parts[i])
  }

  predicate PartsHealthy(parts: seq<Part>) { forall i :: 0 <= i < |parts| ==> Healthy(parts[i]) }

  lemma OneMorePart(parts: seq<Part>, content: seq<Part>, p: Part)
    requires PartsHealed(parts, content)
    ensures PartsHealed(parts + [p], content + [Healed(p)])
    ensures PartsHealthy(parts + [p]) <==> PartsHealthy(parts) && Healthy(p)
  {
    var all := parts + [p];
    assert all[|parts|] == p;
    if PartsHealthy(all) {
      forall i | 0 <= i < |parts| ensures Healthy(parts[i]) { assert all[i] == parts[i]; }
    }
  }

  method SanitizeParts(parts: seq<Part>) returns (content: seq<Part>, changed: bool)
    ensures PartsHealed(parts, content)
    ensures changed <==> !PartsHealthy(parts)
  {
    content, changed := [], false;
    for k := 0 to |parts|
      invariant PartsHealed(parts[..k], content)
      invariant changed <==> !PartsHealthy(parts[..k])
    {
      var part, partChanged := HealPart(parts[k]);
      OneMorePart(parts[..k], content, parts[k]);
      assert parts[..k + 1] == parts[..k] + [parts[k]];
      content, changed := content + [part], changed || partChanged;
    }
    assert parts[..|parts|] == parts;
  }

  method SanitizeMessage(message: Message) returns (healed: Message, changed: bool)
    ensures healed == HealedMessage(message)
    ensures changed <==> healed != message
    ensures changed <==> !HealthyMessage(message)
  {
    MessageHealedExactly(message);
    if message.Plain? { return message, false; }
    var content, messageChanged := SanitizeParts(message.parts);
    assert HealedMessage(message).parts == content;
    return if messageChanged then message.(parts := content) else message, messageChanged;
  }

  predicate AllHealed(messages: seq<Message>, next: seq<Message>) {
    |next| == |messages| && forall i :: 0 <= i < |messages| ==> next[i] == HealedMessage(messages[i])
  }

  predicate AllHealthy(messages: seq<Message>) { forall i :: 0 <= i < |messages| ==> HealthyMessage(messages[i]) }

  /** Every tool id of the history is healed, nothing else is touched, and a history with nothing to heal is returned as it is. */
  method SanitizeToolCallIds(messages: seq<Message>) returns (next: seq<Message>, changed: bool)
    ensures AllHealed(messages, next)
    ensures changed <==> next != messages
    ensures changed <==> !AllHealthy(messages)
  {
    next, changed := [], false;
    for k := 0 to |messages|
      invariant AllHealed(messages[..k], next)
      invariant changed <==> next != messages[..k]
      invariant changed <==> !AllHealthy(messages[..k])
    {
      var message, messageChanged := SanitizeMessage(messages[k]);
      OneMore(messages[..k], next, messages[k], message);
      assert messages[..k + 1] == messages[..k] + [messages[k]];
      next, changed := next + [message], changed || messageChanged;
    }
    assert messages[..|messages|] == messages;
  }

  lemma OneMore(messages: seq<Message>, next: seq<Message>, m: Message, healed: Message)
    requires AllHealed(messages, next) && healed == HealedMessage(m)
    ensures AllHealed(messages + [m], next + [healed])
    ensures next + [healed] == messages + [m] <==> next == messages && healed == m
    ensures AllHealthy(messages + [m]) <==> AllHealthy(messages) && HealthyMessage(m)
  {
    var all, out := messages + [m], next + [healed];
    assert all[..|messages|] == messages && out[..|next|] == next && all[|messages|] == m && out[|next|] == healed;
    if AllHealthy(all) {
      forall i | 0 <= i < |messages| ensures HealthyMessage(messages[i]) { assert all[i] == messages[i]; }
    }
  }

  lemma MessageHealedExactly(m: Message)
    ensures HealedMessage(m) == m <==> HealthyMessage(m)
  {
    if m.Parts? {
      var healed := HealedMessage(m).parts;
      forall i | 0 <= i < |m.parts| ensures healed[i] == m.parts[i] <==> Healthy(m.parts[i]) { HealedExactly(m.parts[i]); }
      if HealthyMessage(m) { assert healed == m.parts; }
    }
  }

  /** A call and a result anywhere in the history that shared an id still share one, and it is valid. */
  lemma CallAndResultStayLinked(messages: seq<Message>, next: seq<Message>, i: nat, a: nat, j: nat, b: nat)
    requires AllHealed(messages, next)
    requires i < |messages| && messages[i].Parts? && a < |messages[i].parts| && messages[i].parts[a].kind.ToolCall?
    requires j < |messages| && messages[j].Parts? && b < |messages[j].parts| && messages[j].parts[b].kind.ToolResult?
    requires messages[i].parts[a].id == messages[j].parts[b].id
    ensures next[i].Parts? && a < |next[i].parts| && next[j].Parts? && b < |next[j].parts|
    ensures next[i].parts[a].id == next[j].parts[b].id && next[i].parts[a].id.Some? && IsValidToolCallId(next[i].parts[a].id.value)
  {
    SanitizedIsValid(messages[i].parts[a].id);
  }
}

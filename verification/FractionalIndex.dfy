/**
 Fractional ranks (src/fractional-index.ts): base-62 strings compared by code unit, and a
 midpoint that always sorts strictly between its bounds.
 */
module FractionalIndex {
  import opened Wrappers

  const DECIMAL := "0123456789"
  const UPPER_A := "ABCDEFGHIJKLM"
  const UPPER_N := "NOPQRSTUVWXYZ"
  const LOWER_A := "abcdefghijklm"
  const LOWER_N := "nopqrstuvwxyz"
  const RANK_DIGITS := DECIMAL + UPPER_A + UPPER_N + LOWER_A + LOWER_N
  const BASE := 62
  const MAX_RANK_LENGTH := 64

  datatype RankError = InvalidLower | InvalidUpper | Unordered | Exhausted

  // ---------------------------------------------------------------- digits and order

  predicate IsDigit(c: char) { '0' <= c <= '9' || 'A' <= c <= 'Z' || 'a' <= c <= 'z' }

  /** The position of `c` in the alphabet; a character outside it reads as 0. */
  function Digit(c: char): (d: nat)
    ensures d < BASE
  {
    if '0' <= c <= '9' then c as int - '0' as int
    else if 'A' <= c <= 'Z' then c as int - 'A' as int + 10
    else if 'a' <= c <= 'z' then c as int - 'a' as int + 36
    else 0
  }

  function DigitChar(d: nat): (c: char)
    requires d < BASE
    ensures IsDigit(c) && Digit(c) == d
  {
    if d < 10 then '0' + d as char else if d < 36 then 'A' + (d - 10) as char else 'a' + (d - 36) as char
  }

  predicate Spells(part: string, from: nat)
    requires from + |part| <= BASE
  {
    forall j :: 0 <= j < |part| ==> part[j] == DigitChar(from + j)
  }

  lemma UpperParts()
    ensures |DECIMAL| == 10 && |UPPER_A| == |UPPER_N| == 13
    ensures Spells(DECIMAL, 0) && Spells(UPPER_A, 10) && Spells(UPPER_N, 23)
  {
  }

  lemma LowerParts()
    ensures |LOWER_A| == |LOWER_N| == 13
    ensures Spells(LOWER_A, 36) && Spells(LOWER_N, 49)
  {
  }

  /** The closed forms above are the alphabet string of the source, position by position. */
  lemma DigitsSpellTheAlphabet(d: nat)
    requires d < BASE
    ensures |RANK_DIGITS| == BASE && RANK_DIGITS[d] == DigitChar(d)
  {
    UpperParts();
    LowerParts();
  }

  /** String comparison as the database column and JavaScript's `<` do it. */
  predicate Less(a: string, b: string) {
    b != "" && (a == "" || a[0] < b[0] || (a[0] == b[0] && Less(a[1..], b[1..])))
  }

  lemma LessIrreflexive(a: string)
    ensures !Less(a, a)
  {
  }

  lemma LessTransitive(a: string, b: string, c: string)
    requires Less(a, b) && Less(b, c)
    ensures Less(a, c)
  {
  }

  lemma LessTotal(a: string, b: string)
    ensures a == b || Less(a, b) || Less(b, a)
  {
    if a != "" && b != "" && a[0] == b[0] {
      LessTotal(a[1..], b[1..]);
      assert a == [a[0]] + a[1..] && b == [b[0]] + b[1..];
    }
  }

  predicate AllDigits(s: string) { forall i :: 0 <= i < |s| ==> IsDigit(s[i]) }

  predicate NoTrailingZero(s: string) { s != "" ==> s[|s| - 1] != '0' }

  predicate IsValidRank(s: string) {
    0 < |s| <= MAX_RANK_LENGTH && AllDigits(s) && NoTrailingZero(s)
  }

  predicate Below(lower: Option<string>, r: string) { lower.Some? ==> Less(lower.value, r) }

  predicate Above(r: string, upper: Option<string>) { upper.Some? ==> Less(r, upper.value) }

  predicate Ordered(lower: Option<string>, upper: Option<string>) { lower.Some? ==> Above(lower.value, upper) }

  function Length(bound: Option<string>): nat { if bound.Some? then |bound.value| else 0 }

  // ---------------------------------------------------------------- the midpoint

  function Rest(s: string): string { if s == "" then "" else s[1..] }

  function LowDigit(lower: string): nat { if lower == "" then 0 else Digit(lower[0]) }

  function HighDigit(upper: Option<string>): nat {
    if upper.None? || upper.value == "" then BASE else Digit(upper.value[0])
  }

  /** The rank the digit walk produces; it is total, whatever the bounds. */
  function Mid(lower: string, upper: Option<string>): string
    decreases if upper.Some? then |upper.value| + 1 else 0, |lower|
  {
    var lo, hi := LowDigit(lower), HighDigit(upper);
    if lo == hi then [DigitChar(lo)] + Mid(Rest(lower), Some(upper.value[1..]))
    else if (lo + hi) / 2 > lo then [DigitChar((lo + hi) / 2)]
    else [DigitChar(lo)] + Mid(Rest(lower), None)
  }

  function From(s: string, i: nat): string { if i < |s| then s[i..] else "" }

  function UpperFrom(b: Option<string>, i: nat): Option<string>
    requires b.Some? ==> i <= |b.value|
  {
    if b.Some? then Some(b.value[i..]) else None
  }

  /** One turn of the walk: what is left to produce starts with this digit. */
  lemma MidUnrolls(lower: string, b: Option<string>, i: nat, lo: nat, hi: nat, left: string)
    requires b.Some? ==> i <= |b.value|
    requires lo == if i < |lower| then Digit(lower[i]) else 0
    requires hi == if b.Some? && i < |b.value| then Digit(b.value[i]) else BASE
    requires left == Mid(From(lower, i), UpperFrom(b, i))
    ensures lo < BASE && hi <= BASE
    ensures lo == hi ==> b.Some? && i < |b.value| && left == [DigitChar(lo)] + Mid(From(lower, i + 1), UpperFrom(b, i + 1))
    ensures lo != hi && (lo + hi) / 2 > lo ==> (lo + hi) / 2 < BASE && left == [DigitChar((lo + hi) / 2)]
    ensures lo != hi && (lo + hi) / 2 <= lo ==> left == [DigitChar(lo)] + Mid(From(lower, i + 1), None)
  {
    assert Rest(From(lower, i)) == From(lower, i + 1);
    if b.Some? && i < |b.value| {
      assert b.value[i..][1..] == b.value[i + 1..];
    }
  }

  /** Appending one more digit of what is still to come. */
  lemma Appends(want: string, result: string, d: string, rest: string, more: string)
    requires want == result + rest && rest == d + more
    ensures want == (result + d) + more
  {
  }

  /** The digit walk: keep the shared prefix until a midpoint digit fits. */
  method Walk(lower: string, b: Option<string>) returns (r: string)
    ensures r == Mid(lower, b)
    decreases if b.Some? then 1 else 0, |lower|
  {
    var result, i := "", 0;
    assert From(lower, 0) == lower && UpperFrom(b, 0) == b;
    while true
      invariant b.Some? ==> i <= |b.value|
      invariant b.None? ==> i == 0
      invariant Mid(lower, b) == result + Mid(From(lower, i), UpperFrom(b, i))
      decreases Length(b) - i
    {
      ghost var left := Mid(From(lower, i), UpperFrom(b, i));
      var lo := if i < |lower| then Digit(lower[i]) else 0;
      var hi := if b.Some? && i < |b.value| then Digit(b.value[i]) else BASE;
      MidUnrolls(lower, b, i, lo, hi, left);
      if lo == hi {
        Appends(Mid(lower, b), result, [DigitChar(lo)], left, Mid(From(lower, i + 1), UpperFrom(b, i + 1)));
        result := result + [DigitChar(lo)];
        i := i + 1;
        continue;
      }
      var mid := (lo + hi) / 2;
      if mid > lo { return result + [DigitChar(mid)]; }
      Appends(Mid(lower, b), result, [DigitChar(lo)], left, Mid(From(lower, i + 1), None));
      result := result + [DigitChar(lo)];
      i := i + 1;
      var tail := Walk(From(lower, i), None);
      return result + tail;
    }
  }

  method BetweenRaw(a: Option<string>, b: Option<string>) returns (r: Result<string, RankError>)
    ensures r == if !Ordered(a, b) then Err(Unordered) else Ok(Mid(if a.Some? then a.value else "", b))
  {
    if !Ordered(a, b) { return Err(Unordered); }
    var rank := Walk(if a.Some? then a.value else "", b);
    return Ok(rank);
  }

  /** The exported midpoint: reject malformed bounds, then guard the length of the answer. */
  function Between(a: Option<string>, b: Option<string>): Result<string, RankError> {
    if a.Some? && !IsValidRank(a.value) then Err(InvalidLower)
    else if b.Some? && !IsValidRank(b.value) then Err(InvalidUpper)
    else if !Ordered(a, b) then Err(Unordered)
    else
      var r := Mid(if a.Some? then a.value else "", b);
      if |r| > MAX_RANK_LENGTH then Err(Exhausted) else Ok(r)
  }

  /** The exported function as the source runs it: the guards around the digit walk. */
  method ComputeBetween(a: Option<string>, b: Option<string>) returns (r: Result<string, RankError>)
    ensures r == Between(a, b)
  {
    if a.Some? && !IsValidRank(a.value) { return Err(InvalidLower); }
    if b.Some? && !IsValidRank(b.value) { return Err(InvalidUpper); }
    r := BetweenRaw(a, b);
    if r.Ok? && |r.value| > MAX_RANK_LENGTH { return Err(Exhausted); }
  }

  function RankAfter(last: Option<string>): Result<string, RankError> { Between(last, None) }

  function RankBefore(first: Option<string>): Result<string, RankError> { Between(None, first) }

  // ---------------------------------------------------------------- the midpoint is a midpoint

  lemma Prefixed(d: nat, t: string)
    requires d < BASE && t != "" && AllDigits(t) && NoTrailingZero(t)
    ensures var r := [DigitChar(d)] + t;
            |r| == |t| + 1 && r[0] == DigitChar(d) && r[1..] == t && AllDigits(r) && NoTrailingZero(r)
  {
  }

  lemma DigitCharMonotone(c: char, d: nat)
    requires IsDigit(c) && d < BASE
    ensures Digit(c) < d <==> c < DigitChar(d)
    ensures Digit(c) == d <==> c == DigitChar(d)
  {
  }

  /** Sharing the first digit of `lower` reduces both comparisons to the tails. */
  lemma LessThroughLow(lower: string, r: string)
    requires AllDigits(lower) && r != "" && r[0] == DigitChar(LowDigit(lower))
    requires lower != "" ==> Less(Rest(lower), r[1..])
    ensures Less(lower, r)
  {
    if lower != "" { DigitCharMonotone(lower[0], LowDigit(lower)); }
  }

  ghost predicate IsBetween(lower: string, r: string, upper: Option<string>) {
    && Less(lower, r) && Above(r, upper)
    && AllDigits(r) && r != "" && NoTrailingZero(r)
    && |r| <= Max(|lower|, Length(upper)) + 1
  }

  ghost predicate GoodUpper(lower: string, upper: Option<string>) {
    upper.Some? ==> AllDigits(upper.value) && upper.value != "" && NoTrailingZero(upper.value) && Less(lower, upper.value)
  }

  /** The digit walk keeps a shared digit and goes on below it. */
  lemma SharedDigit(lower: string, upper: string, t: string)
    requires AllDigits(lower) && GoodUpper(lower, Some(upper)) && LowDigit(lower) == HighDigit(Some(upper))
    requires IsBetween(Rest(lower), t, Some(upper[1..]))
    ensures IsBetween(lower, [DigitChar(LowDigit(lower))] + t, Some(upper))
  {
    var lo := LowDigit(lower);
    DigitCharMonotone(upper[0], lo);
    Prefixed(lo, t);
    LessThroughLow(lower, [DigitChar(lo)] + t);
  }

  /** Adjacent digits leave no room: keeping the lower one frees the walk from the upper bound. */
  lemma AdjacentDigits(lower: string, upper: Option<string>, t: string)
    requires AllDigits(lower) && GoodUpper(lower, upper)
    requires LowDigit(lower) < HighDigit(upper) <= LowDigit(lower) + 1
    requires IsBetween(Rest(lower), t, None)
    ensures IsBetween(lower, [DigitChar(LowDigit(lower))] + t, upper)
  {
    var lo := LowDigit(lower);
    if upper.Some? { DigitCharMonotone(upper.value[0], lo); }
    Prefixed(lo, t);
    LessThroughLow(lower, [DigitChar(lo)] + t);
  }

  lemma RoomForDigit(lower: string, upper: Option<string>, mid: nat)
    requires AllDigits(lower) && GoodUpper(lower, upper) && LowDigit(lower) < mid < HighDigit(upper)
    ensures IsBetween(lower, [DigitChar(mid)], upper)
  {
    if lower != "" { DigitCharMonotone(lower[0], mid); }
    if upper.Some? { DigitCharMonotone(upper.value[0], mid); }
  }

  lemma DigitsOrdered(lower: string, upper: Option<string>)
    requires AllDigits(lower) && GoodUpper(lower, upper)
    ensures LowDigit(lower) <= HighDigit(upper)
    ensures LowDigit(lower) == HighDigit(upper) ==> upper.Some? && GoodUpper(Rest(lower), Some(upper.value[1..]))
  {
    if upper.Some? {
      var u := upper.value;
      DigitCharMonotone(u[0], LowDigit(lower));
      if lower != "" { DigitCharMonotone(lower[0], HighDigit(upper)); }
      if LowDigit(lower) == HighDigit(upper) {
        if lower == "" {
          assert u[0] == '0' && u[|u| - 1] != '0';
        } else {
          assert lower[0] == u[0] && Less(lower, u);
          assert Less(lower[1..], u[1..]);
        }
      }
    }
  }

  lemma {:induction false} MidIsBetween(lower: string, upper: Option<string>)
    requires AllDigits(lower) && GoodUpper(lower, upper)
    ensures IsBetween(lower, Mid(lower, upper), upper)
    decreases if upper.Some? then |upper.value| + 1 else 0, |lower|
  {
    var lo, hi := LowDigit(lower), HighDigit(upper);
    DigitsOrdered(lower, upper);
    if lo == hi {
      var t := Mid(Rest(lower), Some(upper.value[1..]));
      MidIsBetween(Rest(lower), Some(upper.value[1..]));
      SharedDigit(lower, upper.value, t);
      assert Mid(lower, upper) == [DigitChar(lo)] + t;
    } else if (lo + hi) / 2 > lo {
      RoomForDigit(lower, upper, (lo + hi) / 2);
      assert Mid(lower, upper) == [DigitChar((lo + hi) / 2)];
    } else {
      var t := Mid(Rest(lower), None);
      MidIsBetween(Rest(lower), None);
      AdjacentDigits(lower, upper, t);
      assert Mid(lower, upper) == [DigitChar(lo)] + t;
    }
  }

  /** For valid bounds in order the midpoint is a valid rank strictly between, or the space is exhausted. */
  lemma BetweenIsBetween(a: Option<string>, b: Option<string>)
    requires a.Some? ==> IsValidRank(a.value)
    requires b.Some? ==> IsValidRank(b.value)
    requires Ordered(a, b)
    ensures match Between(a, b)
            case Ok(r) => IsValidRank(r) && Below(a, r) && Above(r, b) && |r| <= Max(Length(a), Length(b)) + 1
            case Err(e) => e == Exhausted && Max(Length(a), Length(b)) == MAX_RANK_LENGTH
  {
    MidIsBetween(if a.Some? then a.value else "", b);
  }

  function Repeat(c: char, n: nat): string { seq(n, _ => c) }

  lemma {:induction false} MidBelowLength(b: string, k: nat)
    requires AllDigits(b) && |b| == k + 1 && NoTrailingZero(b)
    ensures |Mid("", Some(b))| == k + 2 <==> b == Repeat('0', k) + "1"
  {
    if k == 0 {
    } else if b[0] == '0' {
      MidBelowLength(b[1..], k - 1);
      assert b == ['0'] + b[1..];
      assert Repeat('0', k) + "1" == ['0'] + (Repeat('0', k - 1) + "1");
    } else {
      assert (Repeat('0', k) + "1")[0] == '0';
      assert |Mid("", None)| == 1;
    }
  }

  lemma {:induction false} MidAboveLength(a: string, k: nat)
    requires AllDigits(a) && |a| == k
    ensures |Mid(a, None)| == k + 1 <==> a == Repeat('z', k)
  {
    if k > 0 {
      if a[0] == 'z' {
        MidAboveLength(a[1..], k - 1);
        assert a == ['z'] + a[1..];
        assert Repeat('z', k) == ['z'] + Repeat('z', k - 1);
      } else {
        assert Repeat('z', k)[0] == 'z';
      }
    }
  }

  /** Inserting above the first row fails for exactly one key, the smallest of full length. */
  lemma RankBeforeExhausts(first: string)
    requires IsValidRank(first)
    ensures RankBefore(Some(first)) == Err(Exhausted) <==> first == Repeat('0', 63) + "1"
  {
    MidIsBetween("", Some(first));
    MidBelowLength(first, |first| - 1);
  }

  /** Appending below the last row fails for exactly one key, the largest of full length. */
  lemma RankAfterExhausts(last: string)
    requires IsValidRank(last)
    ensures RankAfter(Some(last)) == Err(Exhausted) <==> last == Repeat('z', 64)
  {
    MidIsBetween(last, None);
    MidAboveLength(last, |last|);
  }

  // ---------------------------------------------------------------- even spreading

  function Log2(n: nat): nat
    requires n > 0
  {
    if n == 1 then 0 else 1 + Log2(n / 2)
  }

  function Pow2(k: nat): nat { if k == 0 then 1 else 2 * Pow2(k - 1) }

  lemma {:induction false} Log2Below(n: nat, k: nat)
    requires 0 < n < Pow2(k)
    ensures k > 0 && Log2(n) < k
  {
    if n > 1 {
      Log2Below(n / 2, k - 1);
    }
  }

  lemma {:induction false} Log2Monotone(m: nat, n: nat)
    requires 0 < m <= n
    ensures Log2(m) <= Log2(n)
  {
    if m > 1 {
      Log2Monotone(m / 2, n / 2);
    }
  }

  predicate GoodBounds(lower: Option<string>, upper: Option<string>) {
    && (lower.Some? ==> IsValidRank(lower.value))
    && (upper.Some? ==> IsValidRank(upper.value))
    && Ordered(lower, upper)
  }

  ghost predicate SpreadOk(ranks: seq<string>, lower: Option<string>, upper: Option<string>) {
    && (forall i :: 0 <= i < |ranks| ==> IsValidRank(ranks[i]) && Below(lower, ranks[i]) && Above(ranks[i], upper))
    && (forall i, j :: 0 <= i < j < |ranks| ==> Less(ranks[i], ranks[j]))
  }

  ghost predicate NoLonger(ranks: seq<string>, longest: nat) { forall i :: 0 <= i < |ranks| ==> |ranks[i]| <= longest }

  lemma JoinSpreads(left: seq<string>, rank: string, right: seq<string>, lower: Option<string>, upper: Option<string>)
    requires SpreadOk(left, lower, Some(rank)) && SpreadOk(right, Some(rank), upper)
    requires IsValidRank(rank) && Below(lower, rank) && Above(rank, upper)
    ensures SpreadOk(left + [rank] + right, lower, upper)
  {
    var all := left + [rank] + right;
    forall i | 0 <= i < |all| ensures Below(lower, all[i]) && Above(all[i], upper) {
      if i < |left| && upper.Some? { LessTransitive(all[i], rank, upper.value); }
      if i > |left| && lower.Some? { LessTransitive(lower.value, rank, all[i]); }
    }
    forall i, j | 0 <= i < j < |all| ensures Less(all[i], all[j]) {
      if i < |left| < j { LessTransitive(all[i], rank, all[j]); }
    }
  }

  /** The length `n` ranks between two bounds may reach when they are placed by bisection. */
  function DeepestRank(n: nat, lower: Option<string>, upper: Option<string>): nat {
    if n == 0 then 0 else Max(Length(lower), Length(upper)) + Log2(n) + 1
  }

  lemma HalvesAreShallower(n: nat, lower: Option<string>, upper: Option<string>, rank: string)
    requires n > 0 && |rank| <= Max(Length(lower), Length(upper)) + 1
    ensures |rank| <= DeepestRank(n, lower, upper)
    ensures DeepestRank(n / 2, lower, Some(rank)) <= DeepestRank(n, lower, upper)
    ensures DeepestRank(n - n / 2 - 1, Some(rank), upper) <= DeepestRank(n, lower, upper)
  {
    if n - n / 2 - 1 > 0 { Log2Monotone(n - n / 2 - 1, n / 2); }
  }

  /** The stretch of an array whose two halves and middle are in place. */
  lemma Pieces(s: seq<string>, start: nat, middle: nat, end: nat, longest: nat)
    requires start <= middle < end <= |s|
    ensures s[start..end] == s[start..middle] + [s[middle]] + s[middle + 1..end]
    ensures NoLonger(s[start..middle], longest) && |s[middle]| <= longest && NoLonger(s[middle + 1..end], longest) ==>
              NoLonger(s[start..end], longest)
  {
    assert s[start..end] == s[start..middle] + [s[middle]] + s[middle + 1..end];
  }

  /** The first half is still there after the second has been filled. */
  lemma Stitch(half: seq<string>, whole: seq<string>, start: nat, middle: nat, end: nat,
               lower: Option<string>, upper: Option<string>, shallow: bool, longest: nat)
    requires start <= middle < end <= |half| == |whole|
    requires forall k :: 0 <= k <= middle ==> whole[k] == half[k]
    requires var rank := half[middle];
             && SpreadOk(half[start..middle], lower, Some(rank)) && SpreadOk(whole[middle + 1..end], Some(rank), upper)
             && IsValidRank(rank) && Below(lower, rank) && Above(rank, upper)
    requires shallow ==>
               NoLonger(half[start..middle], longest) && |half[middle]| <= longest && NoLonger(whole[middle + 1..end], longest)
    ensures SpreadOk(whole[start..end], lower, upper)
    ensures shallow ==> NoLonger(whole[start..end], longest)
  {
    assert whole[start..middle] == half[start..middle];
    Pieces(whole, start, middle, end, longest);
    JoinSpreads(half[start..middle], half[middle], whole[middle + 1..end], lower, upper);
  }

  /** Where the whole stretch is shallow enough, its middle is found and both halves are shallow enough too. */
  lemma SplitIsShallow(start: nat, middle: nat, end: nat, lower: Option<string>, upper: Option<string>, longest: nat)
    requires start < end && middle == start + (end - start) / 2 && GoodBounds(lower, upper)
    requires DeepestRank(end - start, lower, upper) <= longest <= MAX_RANK_LENGTH
    ensures var rank := Between(lower, upper);
            && rank.Ok? && |rank.value| <= longest
            && DeepestRank(middle - start, lower, Some(rank.value)) <= longest
            && DeepestRank(end - (middle + 1), Some(rank.value), upper) <= longest
  {
    BetweenIsBetween(lower, upper);
    var rank := Between(lower, upper);
    if rank.Ok? {
      assert middle - start == (end - start) / 2 && end - (middle + 1) == (end - start) - (end - start) / 2 - 1;
      HalvesAreShallower(end - start, lower, upper, rank.value);
    }
  }

  /**
   What filling a stretch of the array comes to: ranks in order strictly between the bounds, nothing else
   touched, and where the bisection is not too deep success, with no rank longer than its depth.
   */
  ghost predicate Filled(before: seq<string>, after: seq<string>, start: nat, end: nat,
                         lower: Option<string>, upper: Option<string>, ok: bool, longest: nat)
    requires start <= end <= |before|
  {
    && |after| == |before|
    && (forall k :: 0 <= k < |before| && !(start <= k < end) ==> after[k] == before[k])
    && (ok ==> SpreadOk(after[start..end], lower, upper))
    && (DeepestRank(end - start, lower, upper) <= longest ==> ok && NoLonger(after[start..end], longest))
  }

  /** The middle slot and both halves, or the first of them that fails. */
  lemma HalvesFill(before: seq<string>, half: seq<string>, after: seq<string>, start: nat, middle: nat, end: nat,
                   lower: Option<string>, upper: Option<string>, rank: string, first: bool, second: bool, longest: nat)
    requires start < end <= |before| && middle == start + (end - start) / 2 && GoodBounds(lower, upper) && longest <= MAX_RANK_LENGTH
    requires Between(lower, upper) == Ok(rank)
    requires Filled(before[middle := rank], half, start, middle, lower, Some(rank), first, longest)
    requires if first then Filled(half, after, middle + 1, end, Some(rank), upper, second, longest) else after == half
    ensures Filled(before, after, start, end, lower, upper, first && second, longest)
  {
    var shallow := DeepestRank(end - start, lower, upper) <= longest;
    if shallow { SplitIsShallow(start, middle, end, lower, upper, longest); }
    BetweenIsBetween(lower, upper);
    if first && second { Stitch(half, after, start, middle, end, lower, upper, shallow, longest); }
  }

  lemma MiddleFails(before: seq<string>, start: nat, end: nat, lower: Option<string>, upper: Option<string>, longest: nat)
    requires start < end <= |before| && GoodBounds(lower, upper) && longest <= MAX_RANK_LENGTH && Between(lower, upper).Err?
    ensures Filled(before, before, start, end, lower, upper, false, longest)
  {
    BetweenIsBetween(lower, upper);
  }

  /**
   The in-place filling of the source: the middle slot first, then each half against the
   tighter bound.  `false` stands for the exhaustion error thrown by some midpoint.
   */
  method Fill(out: array<string>, start: nat, end: nat, lower: Option<string>, upper: Option<string>, ghost longest: nat)
    returns (ok: bool)
    requires start <= end <= out.Length && GoodBounds(lower, upper) && longest <= MAX_RANK_LENGTH
    modifies out
    ensures Filled(old(out[..]), out[..], start, end, lower, upper, ok, longest)
    decreases end - start
  {
    if start >= end { return true; }
    ghost var before := out[..];
    var middle := start + (end - start) / 2;
    BetweenIsBetween(lower, upper);
    var rank := Between(lower, upper);
    if rank.Err? {
      MiddleFails(before, start, end, lower, upper, longest);
      return false;
    }
    out[middle] := rank.value;
    var first := Fill(out, start, middle, lower, Some(rank.value), longest);
    ghost var half := out[..];
    ok := false;
    if first { ok := Fill(out, middle + 1, end, Some(rank.value), upper, longest); }
    HalvesFill(before, half, out[..], start, middle, end, lower, upper, rank.value, first, ok, longest);
  }

  /**
   Ranks for a whole list.  Whatever is returned is valid and strictly increasing; below 2^64
   rows something is returned, and no rank is longer than the depth of the bisection.
   */
  method Spread(count: int) returns (ranks: Option<seq<string>>)
    ensures ranks.Some? ==>
              && |ranks.value| == Max(0, count)
              && (forall i :: 0 <= i < |ranks.value| ==> IsValidRank(ranks.value[i]))
              && (forall i, j :: 0 <= i < j < |ranks.value| ==> Less(ranks.value[i], ranks.value[j]))
    ensures count < Pow2(64) ==> ranks.Some?
    ensures 0 < count < Pow2(64) ==> forall i :: 0 <= i < count ==> |ranks.value[i]| <= Log2(count) + 1
  {
    if count <= 0 { return Some([]); }
    var out := new string[count];
    ghost var longest := MAX_RANK_LENGTH;
    if count < Pow2(64) {
      Log2Below(count, 64);
      longest := Log2(count) + 1;
    }
    var ok := Fill(out, 0, count, None, None, longest);
    assert out[0..count] == out[..];
    ranks := if ok then Some(out[..]) else None;
  }
}

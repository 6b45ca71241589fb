/**
  Mastodon pagination: the `max_id` of the next page of favourites is read
  from the `Link` header of a response with the pattern `max_id=(\d+)` and
  parsed as a `u64`; the next request sends it back as a decimal string.
 */
module MaxId {
  import opened Wrappers
  import opened Text

  /** `u64::MAX`. */
  const U64Max: nat := 0xFFFF_FFFF_FFFF_FFFF

  /** The literal part of the pattern. */
  const Key: string := "max_id="

  /** The pattern can match at `i`: `max_id=` and at least one digit. */
  predicate MatchAt(s: string, i: nat) {
    OccursAt(s, Key, i) && i + |Key| < |s| && IsDigit(s[i + |Key|])
  }

  /** `i` is where the regex finds its leftmost match. */
  predicate FirstMatchAt(s: string, i: nat) {
    MatchAt(s, i) && forall k :: 0 <= k < i ==> !MatchAt(s, k)
  }

  /** The length of the run of digits at the front of `s`: what the greedy
      `\d+` takes. */
  function DigitRun(s: string): (n: nat)
    ensures n <= |s|
    ensures forall k :: 0 <= k < n ==> IsDigit(s[k])
    ensures n < |s| ==> !IsDigit(s[n])
  {
    if s != [] && IsDigit(s[0]) then 1 + DigitRun(s[1..]) else 0
  }

  predicate AllDigits(s: string) {
    forall k :: 0 <= k < |s| ==> IsDigit(s[k])
  }

  /** The number a string of decimal digits denotes. */
  function Value(digits: string): nat
    requires AllDigits(digits)
  {
    if digits == [] then 0
    else 10 * Value(digits[..|digits| - 1]) + (digits[|digits| - 1] as int - '0' as int)
  }

  /** The leftmost match at or after `from`. */
  function FindMatch(s: string, from: nat): (r: Option<nat>)
    ensures r.Some? ==> from <= r.value && MatchAt(s, r.value)
                        && forall k :: from <= k < r.value ==> !MatchAt(s, k)
    ensures r.None? ==> forall k :: from <= k ==> !MatchAt(s, k)
    decreases |s| - from
  {
    if from >= |s| then None
    else if MatchAt(s, from) then Some(from)
    else FindMatch(s, from + 1)
  }

  /** The digits captured by the group `(\d+)` of a match at `i`. */
  function Captured(s: string, i: nat): (digits: string)
    requires MatchAt(s, i)
    ensures digits != [] && AllDigits(digits)
  {
    var rest := s[i + |Key|..];
    rest[..DigitRun(rest)]
  }

  /** `str::parse::<u64>` of a non-empty run of decimal digits: it fails
      exactly when the number overflows. */
  function ParseU64(digits: string): (r: Option<nat>)
    requires digits != [] && AllDigits(digits)
    ensures r.Some? <==> Value(digits) <= U64Max
    ensures r.Some? ==> r.value == Value(digits)
  {
    if Value(digits) <= U64Max then Some(Value(digits)) else None
  }

  /** `mastodon_parse_next_max_id`: the number after the leftmost `max_id=`
      that a digit follows, or `None` when there is none or the number does
      not fit a `u64`. */
  function ParseNextMaxId(link: string): (r: Option<nat>)
    ensures r.Some? ==> r.value <= U64Max
    ensures (forall k :: !MatchAt(link, k)) ==> r.None?
  {
    var m := FindMatch(link, 0);
    if m.None? then None else ParseU64(Captured(link, m.value))
  }

  /** What `mastodon_parse_next_max_id` finds: the number of the leftmost
      match when it fits a `u64`; nothing when there is no match or the
      number overflows. */
  lemma ParseNextMaxIdMatches(link: string)
    ensures ParseNextMaxId(link).Some? <==> exists i :: FirstMatchAt(link, i) && Value(Captured(link, i)) <= U64Max
    ensures forall i :: FirstMatchAt(link, i) && ParseNextMaxId(link).Some? ==> ParseNextMaxId(link).value == Value(Captured(link, i))
    ensures ParseNextMaxId(link).None? <==> (forall k :: !MatchAt(link, k))
                                            || exists i :: FirstMatchAt(link, i) && Value(Captured(link, i)) > U64Max
  {
    var m := FindMatch(link, 0);
    if m.Some? {
      assert FirstMatchAt(link, m.value);
      FirstMatchUnique(link, m.value);
    }
  }

  /** There is only one leftmost match. */
  lemma FirstMatchUnique(s: string, i: nat)
    requires FirstMatchAt(s, i)
    ensures forall j :: FirstMatchAt(s, j) ==> j == i
  {
  }

  /** `u64::to_string`: the decimal digits of `n`, without leading zeros. */
  function Decimal(n: nat): (digits: string)
    ensures digits != [] && AllDigits(digits)
  {
    if n < 10 then ['0' + n as char] else Decimal(n / 10) + ['0' + (n % 10) as char]
  }

  /** Parsing undoes printing. */
  lemma {:induction false} ValueOfDecimal(n: nat)
    ensures Value(Decimal(n)) == n
  {
    if n >= 10 {
      var d := Decimal(n);
      assert d[..|d| - 1] == Decimal(n / 10);
      ValueOfDecimal(n / 10);
    }
  }

  /** The greedy run stops where the digits do. */
  lemma {:induction false} DigitRunOfDigits(digits: string, suffix: string)
    requires AllDigits(digits)
    requires suffix == [] || !IsDigit(suffix[0])
    ensures DigitRun(digits + suffix) == |digits|
    decreases |digits|
  {
    if digits != [] {
      assert (digits + suffix)[1..] == digits[1..] + suffix;
      DigitRunOfDigits(digits[1..], suffix);
    }
  }

  /** No proper end of `max_id=` is also its start, so a match that begins
      before a `max_id=` lies wholly before it. */
  lemma NoMatchAcross(prefix: string, rest: string, k: nat)
    requires !Contains(prefix, Key)
    requires StartsWith(rest, Key)
    requires k < |prefix|
    ensures !OccursAt(prefix + rest, Key, k)
  {
    var s := prefix + rest;
    if k + |Key| <= |prefix| {
      assert s[k..k + |Key|] == prefix[k..k + |Key|];
      assert !OccursAt(prefix, Key, k);
    } else if k + |Key| <= |s| {
      var d := |prefix| - k;
      assert s[k..k + |Key|][d] == s[|prefix|] == rest[0] == 'm';
      assert Key[d] != 'm';
    }
  }

  /** The round trip of a `Link` header: the `max_id` that a header carries
      after text without `max_id=` is parsed back, when it fits a `u64`;
      otherwise parsing fails. */
  lemma ParseOfPrinted(prefix: string, n: nat, suffix: string)
    requires !Contains(prefix, Key)
    requires suffix == [] || !IsDigit(suffix[0])
    ensures n <= U64Max ==> ParseNextMaxId(prefix + Key + Decimal(n) + suffix) == Some(n)
    ensures n > U64Max ==> ParseNextMaxId(prefix + Key + Decimal(n) + suffix) == None
  {
    var link := prefix + Key + Decimal(n) + suffix;
    HeaderCaptures(prefix, Decimal(n), suffix);
    var m := FindMatch(link, 0);
    assert m == Some(|prefix|) by {
      FirstMatchUnique(link, |prefix|);
      if m.Some? {
        assert FirstMatchAt(link, m.value);
      }
    }
    ValueOfDecimal(n);
  }

  /** In a header whose only `max_id=` follows `prefix`, the leftmost match
      is there and captures the run of digits after it. */
  lemma HeaderCaptures(prefix: string, digits: string, suffix: string)
    requires !Contains(prefix, Key)
    requires digits != [] && AllDigits(digits)
    requires suffix == [] || !IsDigit(suffix[0])
    ensures var link := prefix + Key + digits + suffix;
            FirstMatchAt(link, |prefix|) && Captured(link, |prefix|) == digits
  {
    var rest := Key + digits + suffix;
    var link := prefix + rest;
    assert link == prefix + Key + digits + suffix;
    assert rest[..|Key|] == Key;
    assert link[|prefix|..|prefix| + |Key|] == Key;
    assert link[|prefix| + |Key|] == digits[0];
    assert MatchAt(link, |prefix|);
    forall k | 0 <= k < |prefix|
      ensures !MatchAt(link, k)
    {
      NoMatchAcross(prefix, rest, k);
    }
    assert link[|prefix| + |Key|..] == digits + suffix;
    DigitRunOfDigits(digits, suffix);
    assert (digits + suffix)[..|digits|] == digits;
  }
}

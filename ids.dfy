/** Identifier generation shared by both stores: `f"{prefix}_{n}"` for the
    store's counter `n`. Distinct counter values give distinct identifiers,
    which is what makes every freshly generated key new. */
module Ids {

  /** The decimal digit for `d`. */
  function Digit(d: nat): (c: char)
    requires d < 10
    ensures '0' <= c <= '9'
  {
    ('0' as int + d) as char
  }

  /** `str(n)` for a natural number: decimal, most significant digit first. */
  function NatString(n: nat): (s: string)
    ensures 1 <= |s|
    ensures forall i :: 0 <= i < |s| ==> '0' <= s[i] <= '9'
    ensures n < 10 <==> |s| == 1
  {
    if n < 10 then [Digit(n)] else NatString(n / 10) + [Digit(n % 10)]
  }

  /** `str(n)` for any integer. */
  function IntString(n: int): (s: string)
    ensures 1 <= |s|
    ensures s[0] == '-' <==> n < 0
  {
    if n < 0 then "-" + NatString(-n) else NatString(n)
  }

  /** The identifier `f"{prefix}_{n}"`. */
  function IdFor(prefix: string, n: int): (id: string)
    ensures |id| == |prefix| + 1 + |IntString(n)|
  {
    prefix + "_" + IntString(n)
  }

  /** The identifier is the prefix, an underscore, then the counter's
      decimal form. */
  lemma IdForParts(prefix: string, n: int)
    ensures var id := IdFor(prefix, n);
            && id[..|prefix|] == prefix && id[|prefix|] == '_' && id[|prefix| + 1..] == IntString(n)
  {
  }

  lemma {:induction false} NatStringInjective(a: nat, b: nat)
    ensures NatString(a) == NatString(b) ==> a == b
  {
    if NatString(a) == NatString(b) && a >= 10 && b >= 10 {
      var sa, sb := NatString(a), NatString(b);
      assert Digit(a % 10) == sa[|sa| - 1] == sb[|sb| - 1] == Digit(b % 10);
      assert NatString(a / 10) == sa[..|sa| - 1] == sb[..|sb| - 1] == NatString(b / 10);
      NatStringInjective(a / 10, b / 10);
    } else if NatString(a) == NatString(b) && a < 10 && b < 10 {
      assert NatString(a)[0] == NatString(b)[0];
    }
  }

  lemma IntStringInjective(a: int, b: int)
    ensures IntString(a) == IntString(b) ==> a == b
  {
    if IntString(a) == IntString(b) {
      if a < 0 && b < 0 {
        assert IntString(a)[1..] == NatString(-a) && IntString(b)[1..] == NatString(-b);
        NatStringInjective(-a, -b);
      } else if a >= 0 && b >= 0 {
        NatStringInjective(a, b);
      }
    }
  }

  /** Two identifiers with one prefix are equal only for equal counters. */
  lemma IdForInjective(prefix: string, a: int, b: int)
    ensures IdFor(prefix, a) == IdFor(prefix, b) ==> a == b
  {
    if IdFor(prefix, a) == IdFor(prefix, b) {
      var n := |prefix| + 1;
      assert IdFor(prefix, a)[n..] == IntString(a);
      assert IdFor(prefix, b)[n..] == IntString(b);
      IntStringInjective(a, b);
    }
  }

  /** Every key of `m` was generated with `prefix` from a counter value below
      `next`. */
  ghost predicate IssuedBelow<T>(m: map<string, T>, prefix: string, next: int) {
    forall k :: k in m ==> exists n :: n < next && k == IdFor(prefix, n)
  }

  /** The identifier for the current counter is not yet a key. */
  lemma FreshId<T>(m: map<string, T>, prefix: string, next: int)
    requires IssuedBelow(m, prefix, next)
    ensures IdFor(prefix, next) !in m
  {
    if IdFor(prefix, next) in m {
      var n :| n < next && IdFor(prefix, next) == IdFor(prefix, n);
      IdForInjective(prefix, n, next);
    }
  }

  /** Storing under the current identifier and advancing the counter keeps
      every key issued. */
  lemma IssuedAfterPut<T>(m: map<string, T>, prefix: string, next: int, v: T)
    requires IssuedBelow(m, prefix, next)
    ensures IssuedBelow(m[IdFor(prefix, next) := v], prefix, next + 1)
  {
  }

  /** Advancing the counter alone keeps every key issued. */
  lemma IssuedAfterTick<T>(m: map<string, T>, prefix: string, next: int)
    requires IssuedBelow(m, prefix, next)
    ensures IssuedBelow(m, prefix, next + 1)
  {
  }
}

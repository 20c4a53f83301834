/** Fresh names of the form prefix + decimal counter, as the GLSL generator
    forms `_tmpLoopSeenOnce0` or `minAbsHackVar1`. */
module Names {
  function Digit(d: nat): (c: char)
    requires d < 10
    ensures '0' <= c <= '9'
    ensures c as int - '0' as int == d
  {
    (d + '0' as int) as char
  }

  /** Decimal rendering of a counter value, most significant digit first. */
  function NatToString(n: nat): (s: string)
    ensures 1 <= |s|
    ensures n < 10 <==> |s| == 1
    ensures forall k :: 0 <= k < |s| ==> '0' <= s[k] <= '9'
    ensures s[|s| - 1] as int - '0' as int == n % 10
    decreases n
  {
    if n < 10 then [Digit(n)] else NatToString(n / 10) + [Digit(n % 10)]
  }

  /** Two different counter values never print the same. */
  lemma {:induction false} NatToStringInjective(n: nat, m: nat)
    requires NatToString(n) == NatToString(m)
    ensures n == m
    decreases n
  {
    var s, t := NatToString(n), NatToString(m);
    if n >= 10 && m >= 10 {
      assert s[..|s| - 1] == NatToString(n / 10);
      assert t[..|t| - 1] == NatToString(m / 10);
      NatToStringInjective(n / 10, m / 10);
    }
  }

  function Fresh(prefix: string, n: nat): (name: string)
    ensures prefix <= name
    ensures |name| > |prefix|
  {
    prefix + NatToString(n)
  }

  /** Names drawn from different counter values are different. */
  lemma FreshInjective(prefix: string, n: nat, m: nat)
    requires n != m
    ensures Fresh(prefix, n) != Fresh(prefix, m)
  {
    if Fresh(prefix, n) == Fresh(prefix, m) {
      assert NatToString(n) == Fresh(prefix, n)[|prefix|..];
      assert NatToString(m) == Fresh(prefix, m)[|prefix|..];
      NatToStringInjective(n, m);
    }
  }

  /** The names drawn from counter values `n` up to `m`. */
  function Drawn(prefix: string, n: nat, m: nat): set<string> {
    set k: nat | n <= k < m :: Fresh(prefix, k)
  }

  lemma DrawnGrow(prefix: string, n1: nat, m1: nat, n2: nat, m2: nat)
    requires n2 <= n1 && m1 <= m2
    ensures Drawn(prefix, n1, m1) <= Drawn(prefix, n2, m2)
  {
  }

  /** A name whose counter value lies outside the range was not drawn from it. */
  lemma DrawnOutside(prefix: string, k: nat, n: nat, m: nat)
    requires k < n || m <= k
    ensures Fresh(prefix, k) !in Drawn(prefix, n, m)
  {
    if Fresh(prefix, k) in Drawn(prefix, n, m) {
      var j: nat :| n <= j < m && Fresh(prefix, j) == Fresh(prefix, k);
      FreshInjective(prefix, j, k);
    }
  }
}

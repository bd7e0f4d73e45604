/** The stack arithmetic of `SpawnPrefab`: C#'s truncating `/` and `%`, the
    clamped maximum stack size, and the split of an amount into stacks. */
module StackSplit {
  import opened Seqs
  import opened WorldModel

  /** The iteration count of `for (int i = 0; i < amount; i++)`. */
  function Times(amount: int): (n: nat)
    ensures amount > 0 ==> n == amount
    ensures amount <= 0 ==> n == 0
  {
    if amount > 0 then amount else 0
  }

  /** C#'s integer `/`, which truncates toward zero. */
  function CsDiv(a: int, b: int): int
    requires b > 0
  {
    if a >= 0 then a / b else -((-a) / b)
  }

  /** C#'s integer `%`, whose result takes the sign of the dividend. */
  function CsRem(a: int, b: int): int
    requires b > 0
  {
    if a >= 0 then a % b else -((-a) % b)
  }

  /** Truncating division: quotient and remainder recompose the dividend, and
      the remainder is smaller than the divisor and has the dividend's sign. */
  lemma CsDivision(a: int, b: int)
    requires b > 0
    ensures a == b * CsDiv(a, b) + CsRem(a, b)
    ensures a >= 0 ==> CsDiv(a, b) >= 0 && 0 <= CsRem(a, b) < b
    ensures a < 0 ==> CsDiv(a, b) <= 0 && -b < CsRem(a, b) <= 0
  {
    if a < 0 {
      DivFacts(-a, b);
      var q := (-a) / b;
      assert b * (-q) == -(b * q);
    } else {
      DivFacts(a, b);
    }
  }

  /** Euclidean division facts for a non-negative dividend. */
  lemma DivFacts(a: int, b: int)
    requires a >= 0 && b > 0
    ensures a == b * (a / b) + a % b && 0 <= a % b < b && a / b >= 0
  {
  }

  lemma {:induction false} MulAtLeast(m: int, x: int)
    requires m >= 1 && x >= 1
    ensures m * x >= m
  {
    assert m * x == m * (x - 1) + m;
    if x > 1 {
      MulAtLeast(m, x - 1);
    }
  }

  /** Quotient and remainder are unique. */
  lemma DivUnique(a: int, m: int, k: int, r: int)
    requires m >= 1 && 0 <= r < m && a == m * k + r
    ensures a / m == k && a % m == r
  {
    var q, s := a / m, a % m;
    assert a == m * q + s;
    assert m * (q - k) == r - s;
    if q > k {
      MulAtLeast(m, q - k);
    } else if q < k {
      MulAtLeast(m, k - q);
    }
  }

  /** The stack size the engine splits by: the definition's maximum, with
      values below 1 (mis-set in some definitions) read as 1. */
  function MaxStackOf(shared: SharedData): (m: int)
    ensures m >= 1
    ensures shared.maxStackSize >= 1 ==> m == shared.maxStackSize
    ensures shared.maxStackSize < 1 ==> m == 1
  {
    if shared.maxStackSize < 1 then 1 else shared.maxStackSize
  }

  /** The stacks a stackable spawn of `amount` makes: `amount / m` full
      stacks, then the remainder when it is not zero. */
  function SplitStacks(amount: int, m: int): seq<int>
    requires m >= 1
  {
    Repeat(m, Times(CsDiv(amount, m))) + (if CsRem(amount, m) != 0 then [CsRem(amount, m)] else [])
  }

  /** For a non-negative amount the split is the least number of stacks of at
      most `m`: all full except possibly the last, summing to the amount. */
  lemma SplitStacksShape(amount: int, m: int)
    requires amount >= 0 && m >= 1
    ensures var r := SplitStacks(amount, m);
      && Sum(r) == amount
      && |r| == (amount + m - 1) / m
      && (forall i | 0 <= i < |r| :: 1 <= r[i] <= m)
      && (forall i | 0 <= i < |r| - 1 :: r[i] == m)
  {
    DivFacts(amount, m);
    var q, rem := amount / m, amount % m;
    var tail: seq<int> := if rem != 0 then [rem] else [];
    assert SplitStacks(amount, m) == Repeat(m, q) + tail;
    SumAppend(Repeat(m, q), tail);
    SumRepeat(m, q);
    DivUnique(amount + m - 1, m, if rem != 0 then q + 1 else q, if rem != 0 then rem - 1 else m - 1);
  }

  /** Any sequence of stacks of at most `m`, all full but the last and
      summing to a non-negative amount, is the engine's split. */
  lemma SplitStacksUnique(amount: int, m: int, s: seq<int>)
    requires amount >= 0 && m >= 1
    requires forall i | 0 <= i < |s| :: 1 <= s[i] <= m
    requires forall i | 0 <= i < |s| - 1 :: s[i] == m
    requires Sum(s) == amount
    ensures s == SplitStacks(amount, m)
  {
    if |s| == 0 {
      DivUnique(amount, m, 0, 0);
      assert SplitStacks(amount, m) == Repeat(m, 0);
    } else {
      var k := |s| - 1;
      var last := s[k];
      FullThenLast(s, m);
      if last == m {
        assert amount == m * (k + 1) + 0;
        DivUnique(amount, m, k + 1, 0);
        assert SplitStacks(amount, m) == Repeat(m, k + 1);
        assert Repeat(m, k + 1) == Repeat(m, k) + [m];
      } else {
        DivUnique(amount, m, k, last);
        assert SplitStacks(amount, m) == Repeat(m, k) + [last];
      }
    }
  }

  /** A non-empty sequence that is full up to its last element is `m`
      repeated, then that element. */
  lemma FullThenLast(s: seq<int>, m: int)
    requires |s| > 0
    requires forall i | 0 <= i < |s| - 1 :: s[i] == m
    ensures s == Repeat(m, |s| - 1) + [s[|s| - 1]]
    ensures Sum(s) == m * (|s| - 1) + s[|s| - 1]
  {
    var full := Repeat(m, |s| - 1);
    assert s == full + [s[|s| - 1]];
    SumAppend(full, [s[|s| - 1]]);
    SumRepeat(m, |s| - 1);
  }

  /** A negative amount (which the menu never passes) makes no full stack:
      at most one stack, of the negative truncated remainder, and none at all
      when the maximum divides the amount. */
  lemma SplitStacksNegative(amount: int, m: int)
    requires amount < 0 && m >= 1
    ensures var r := SplitStacks(amount, m);
      && r == (if CsRem(amount, m) == 0 then [] else [CsRem(amount, m)])
      && forall i | 0 <= i < |r| :: -m < r[i] < 0
  {
    CsDivision(amount, m);
    assert Times(CsDiv(amount, m)) == 0;
  }

  /** The examples of the splitting rule: 23 items of a 10-stack make
      10, 10, 3; a definition whose maximum is mis-set to 0 makes single
      items; a negative amount makes one stack of the negative truncated
      remainder, or none when the maximum divides it. */
  lemma SplitStacksExamples()
    ensures SplitStacks(23, MaxStackOf(SharedData("", 10, false, 0))) == [10, 10, 3]
    ensures SplitStacks(5, MaxStackOf(SharedData("", 0, false, 0))) == [1, 1, 1, 1, 1]
    ensures SplitStacks(-7, 5) == [-2]
    ensures SplitStacks(-10, 5) == [] && SplitStacks(-3, 1) == []
  {
    assert Repeat(10, 2) == [10, 10];
    assert Repeat(1, 5) == [1, 1, 1, 1, 1];
  }

}

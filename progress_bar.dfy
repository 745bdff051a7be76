/** The fixed-width text bar of the progress line: percentString. */
module ProgressBar {
  import opened Counting

  /** Number of cells between the brackets. */
  const Cells := 50

  /** Go's integer `n / 2`, which truncates toward zero (Dafny's `/` would
      round -1 / 2 down to -1): n == 2 * h + r, where the remainder r is
      less than 2 in size and takes the sign of n. */
  function GoHalf(n: int): (h: int)
    ensures n >= 0 ==> 0 <= n - 2 * h <= 1
    ensures n < 0 ==> -1 <= n - 2 * h <= 0
  {
    if n >= 0 then n / 2 else -((-n) / 2)
  }

  /** How many cells percentString fills for the value n: cell i is filled
      exactly when i <= n / 2, so this is n / 2 + 1 kept within 0..50. */
  function Filled(n: int): (f: nat)
    ensures f <= Cells
  {
    var h := GoHalf(n);
    if h + 1 <= 0 then 0 else if h + 1 >= Cells then Cells else h + 1
  }

  function Repeat(c: char, k: nat): (s: string)
    ensures |s| == k && forall i :: 0 <= i < k ==> s[i] == c
  {
    seq(k, _ => c)
  }

  /** The bar as a reference shape: a run of '#', then a run of '-', in
      brackets. */
  function Bar(n: int): (b: string)
    ensures |b| == Cells + 2 && b[0] == '[' && b[Cells + 1] == ']'
    ensures forall i :: 1 <= i <= Cells ==> b[i] == (if i - 1 < Filled(n) then '#' else '-')
  {
    "[" + Repeat('#', Filled(n)) + Repeat('-', Cells - Filled(n)) + "]"
  }

  /** percentString: halves n, then appends one cell per step for i in
      0..49, '#' when n / 2 >= i and '-' otherwise, between brackets. */
  method PercentString(n: int) returns (s: string)
    ensures s == Bar(n)
  {
    var half := GoHalf(n);
    s := "[";
    for i := 0 to Cells
      invariant |s| == i + 1 && s[0] == '['
      invariant forall k :: 1 <= k <= i ==> s[k] == (if half >= k - 1 then '#' else '-')
    {
      if half >= i {
        s := s + "#";
      } else {
        s := s + "-";
      }
    }
    s := s + "]";
    var b := Bar(n);
    assert |s| == |b|;
    forall k | 1 <= k <= Cells
      ensures s[k] == b[k]
    {
      assert half >= k - 1 <==> k - 1 < Filled(n);
    }
  }

  lemma {:induction false} CountRepeat(c: char, d: char, k: nat)
    ensures Count(c, Repeat(d, k)) == if c == d then k else 0
  {
    if k > 0 {
      assert Repeat(d, k)[1..] == Repeat(d, k - 1);
      CountRepeat(c, d, k - 1);
    }
  }

  /** Every bar is 52 characters, bracketed, and each inner cell is '#' or '-'. */
  lemma BarShape(n: int)
    ensures var b := Bar(n);
      |b| == 52 && b[0] == '[' && b[51] == ']'
      && forall i :: 1 <= i <= 50 ==> b[i] == '#' || b[i] == '-'
  {
  }

  /** The bar holds exactly Filled(n) '#' characters, all before the first '-'. */
  lemma BarHashCount(n: int)
    ensures Count('#', Bar(n)) == Filled(n)
    ensures forall i, j :: 1 <= i < j <= Cells && Bar(n)[j] == '#' ==> Bar(n)[i] == '#'
  {
    var f := Filled(n);
    CountAppend('#', "[" + Repeat('#', f), Repeat('-', Cells - f));
    CountAppend('#', "[" + Repeat('#', f) + Repeat('-', Cells - f), "]");
    CountAppend('#', "[", Repeat('#', f));
    CountRepeat('#', '#', f);
    CountRepeat('#', '-', Cells - f);
    assert Count('#', "[") == 0 && Count('#', "]") == 0;
  }

  /** For the values printPercentage passes (n >= 0), the bar has
      min(n / 2 + 1, 50) hashes: one already at n = 0, all fifty from n = 98 on. */
  lemma FilledNonNegative(n: int)
    requires n >= 0
    ensures Filled(n) == if n / 2 + 1 < Cells then n / 2 + 1 else Cells
    ensures Filled(n) >= 1 && Bar(n)[1] == '#'
    ensures n >= 98 <==> Filled(n) == Cells
  {
  }

  /** More progress never fills fewer cells. */
  lemma FilledMonotone(m: int, n: int)
    requires m <= n
    ensures Filled(m) <= Filled(n)
    ensures Count('#', Bar(m)) <= Count('#', Bar(n))
  {
    BarHashCount(m);
    BarHashCount(n);
  }

  /** An empty bar only comes from n <= -2, where Go's n / 2 is below zero. */
  lemma EmptyOnlyBelowMinusOne(n: int)
    ensures Filled(n) == 0 <==> n <= -2
  {
  }
}

/** Occurrences of one character in a string, shared by the progress bar
    (how many cells are filled) and strings.Split (how many parts). */
module Counting {

  /** Occurrences of c in s. */
  function Count(c: char, s: string): nat {
    if s == [] then 0 else (if s[0] == c then 1 else 0) + Count(c, s[1..])
  }

  lemma {:induction false} CountAppend(c: char, a: string, b: string)
    ensures Count(c, a + b) == Count(c, a) + Count(c, b)
  {
    if a != [] {
      assert (a + b)[0] == a[0] && (a + b)[1..] == a[1..] + b;
      CountAppend(c, a[1..], b);
    } else {
      assert a + b == b;
    }
  }
}

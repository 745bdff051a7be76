/** capitalizeFirst: upper-cases the first rune of an error message before
    it is logged. A string here is its sequence of runes; Unicode's
    upper-case mapping (unicode.ToUpper) is the parameter `upper`. */
module Text {

  function CapitalizeFirst(upper: char -> char, str: string): (r: string)
    ensures |r| == |str|
    ensures str != [] ==> r[0] == upper(str[0])
    ensures forall k :: 1 <= k < |str| ==> r[k] == str[k]
  {
    if |str| <= 0 then str
    else str[0 := upper(str[0])]
  }

  /** Nothing to capitalize in the empty message. */
  lemma CapitalizeEmpty(upper: char -> char)
    ensures CapitalizeFirst(upper, "") == ""
  {
  }

  /** Capitalizing twice is capitalizing once, for an upper-case mapping
      that leaves upper-case runes alone. */
  lemma CapitalizeIdempotent(upper: char -> char, str: string)
    requires forall c :: upper(upper(c)) == upper(c)
    ensures CapitalizeFirst(upper, CapitalizeFirst(upper, str)) == CapitalizeFirst(upper, str)
  {
  }

  /** A message whose first rune is already what `upper` maps it to comes
      back unchanged. */
  lemma CapitalizeFixed(upper: char -> char, str: string)
    requires str != [] && upper(str[0]) == str[0]
    ensures CapitalizeFirst(upper, str) == str
  {
  }
}

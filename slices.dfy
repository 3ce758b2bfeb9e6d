/** `stringInSlice` (utils.go, lines 95-103): a linear scan of a slice of
    strings that stops at the first element equal to the one sought. */
module Slices {

  /** Reports whether `s` equals some element of `strings`; an empty slice
      holds nothing. The scan returns as soon as it meets a match. */
  method StringInSlice(s: string, strings: seq<string>) returns (found: bool)
    ensures found <==> exists k :: 0 <= k < |strings| && strings[k] == s
    ensures |strings| == 0 ==> !found
  {
    for i := 0 to |strings|
      invariant forall k :: 0 <= k < i ==> strings[k] != s
    {
      if s == strings[i] {
        return true;
      }
    }
    return false;
  }
}

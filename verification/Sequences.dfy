/** Walking along a sequence. */
module Sequences {

  /** The part behind position `i` begins with element `i`, and the part in front of the next position
      ends with it. */
  lemma StepAlong<T>(s: seq<T>, i: nat)
    requires i < |s|
    ensures s[i..][0] == s[i] && s[i..][1..] == s[i + 1..]
    ensures s[..i + 1] == s[..i] + [s[i]]
  {
  }

  lemma WholeSequence<T>(s: seq<T>)
    ensures s[0..] == s && s[..0] == [] && s[..|s|] == s
  {
  }
}

/**
  Small facts about sequence concatenation and slicing, shared by the
  loops that build their result piece by piece and by the proofs that
  follow such a result one piece at a time.
*/
module Seqs {
  lemma {:induction false} EmptyAppend<T>(x: seq<T>)
    ensures [] + x == x && x + [] == x
  {
  }

  lemma {:induction false} AppendAssoc<T>(a: seq<T>, b: seq<T>, c: seq<T>)
    ensures (a + b) + c == a + (b + c)
  {
  }

  /** Moving the front `b` of what is left onto what is done keeps the whole. */
  lemma {:induction false} Shift<T>(a: seq<T>, b: seq<T>, c: seq<T>, x: seq<T>, w: seq<T>)
    requires a + x == w && x == b + c
    ensures (a + b) + c == w
  {
    AppendAssoc(a, b, c);
  }

  /** Equal tails after the same head give equal sequences. */
  lemma {:induction false} Chain<T>(x: seq<T>, a: seq<T>, y: seq<T>, z: seq<T>, r: seq<T>)
    requires x == a + y && y == z && r == a + z
    ensures x == r
  {
  }

  /** The slice of one element is that element. */
  lemma {:induction false} OneElement<T>(s: seq<T>, i: nat)
    requires i < |s|
    ensures s[i..i + 1] == [s[i]]
  {
  }

  /** The parts of the suffix `y == s[i..]` before and after `e - i`, in positions of `s`. */
  lemma {:induction false} SliceParts<T>(s: seq<T>, y: seq<T>, i: nat, e: nat)
    requires i <= e <= |s| && y == s[i..]
    ensures s[i..e] == y[..e - i] && s[e..] == y[e - i..]
  {
  }

  /** The first element of the suffix `y == s[i..]` and what follows it, in positions of `s`. */
  lemma {:induction false} HeadParts<T>(s: seq<T>, y: seq<T>, i: nat)
    requires i < |s| && y == s[i..]
    ensures s[i] == y[0] && s[i + 1..] == y[1..]
  {
  }
}

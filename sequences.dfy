/** Small facts about sequence concatenation and slicing, stated once and used by name. */
module Sequences {
  lemma SliceSplit<T>(s: seq<T>, a: nat, b: nat)
    requires a <= b <= |s|
    ensures s[a..] == s[a..b] + s[b..]
  {
  }

  lemma AppendAssoc<T>(a: seq<T>, b: seq<T>, c: seq<T>)
    ensures a + (b + c) == a + b + c
  {
  }

  /** Slicing a concatenation past its first part slices the second part. */
  lemma SpliceSlices<T>(p: seq<T>, t: seq<T>, a: nat, n: nat)
    requires a + n <= |t|
    ensures (p + t)[..|p| + a] == p + t[..a]
    ensures (p + t)[|p| + a + n..] == t[a + n..]
  {
  }
}

/** Regrouping of sequence concatenations, used wherever an operation builds its
    trace or its list of actions piece by piece. */
module Seqs {

  /** A sequence that grew by `step` after `base + a` is `base` followed by
      `whole`, whenever `whole` is `a + step`. */
  lemma Extend<T>(t: seq<T>, before: seq<T>, base: seq<T>, a: seq<T>, step: seq<T>, whole: seq<T>)
    requires before == base + a && t == before + step && whole == a + step
    ensures t == base + whole
  {}

  /** Three successive appends are one append of the three pieces. */
  lemma Chain3<T>(base: seq<T>, a: seq<T>, b: seq<T>, c: seq<T>, t1: seq<T>, t2: seq<T>, t3: seq<T>)
    requires t1 == base + a && t2 == t1 + b && t3 == t2 + c
    ensures t3 == base + (a + b + c)
  {}

  /** Two pieces, then two more appends: one append of the four pieces. */
  lemma Chain<T>(base: seq<T>, a: seq<T>, b: seq<T>, c: seq<T>, d: seq<T>, t1: seq<T>, t2: seq<T>, t3: seq<T>)
    requires t1 == base + a + b && t2 == t1 + c && t3 == t2 + d
    ensures t3 == base + (a + b + c + d)
  {}

  /** Five successive appends are one append of the five pieces. */
  lemma Chain5<T>(base: seq<T>, a: seq<T>, b: seq<T>, c: seq<T>, d: seq<T>, e: seq<T>,
                  t1: seq<T>, t2: seq<T>, t3: seq<T>, t4: seq<T>, t5: seq<T>)
    requires t1 == base + a && t2 == t1 + b && t3 == t2 + c && t4 == t3 + d && t5 == t4 + e
    ensures t5 == base + (a + b + c + d + e)
  {
    Chain3(base, a, b, c, t1, t2, t3);
    Chain3(base, a + b + c, d, e, t3, t4, t5);
  }

  /** Moving the brackets of a five-piece concatenation. */
  lemma Regroup<T>(a: seq<T>, b: seq<T>, c: seq<T>, d: seq<T>, e: seq<T>)
    ensures a + (b + c + d) + e == a + b + (c + (d + e))
  {}

  /** Nesting the middle of a five-piece concatenation. */
  lemma Nest<T>(a: seq<T>, b: seq<T>, c: seq<T>, d: seq<T>, e: seq<T>)
    ensures a + b + c + d + e == a + (b + (c + d)) + e
  {}

  // Single elements appended one at a time are their display appended at once.

  lemma Snoc2<T>(base: seq<T>, a: T, b: T, t: seq<T>)
    requires t == base + [a] + [b]
    ensures t == base + [a, b]
  {}

  lemma Snoc3<T>(base: seq<T>, a: T, b: T, c: T, t: seq<T>)
    requires t == base + [a] + [b] + [c]
    ensures t == base + [a, b, c]
  {}

  lemma Snoc4<T>(base: seq<T>, a: T, b: T, c: T, d: T, t: seq<T>)
    requires t == base + [a] + [b] + [c] + [d]
    ensures t == base + [a, b, c, d]
  {}

  lemma Snoc5<T>(base: seq<T>, a: T, b: T, c: T, d: T, e: T, t: seq<T>)
    requires t == base + [a] + [b] + [c] + [d] + [e]
    ensures t == base + [a, b, c, d, e]
  {}

  lemma Snoc7<T>(base: seq<T>, a: T, b: T, c: T, d: T, e: T, f: T, g: T, t: seq<T>)
    requires t == base + [a] + [b] + [c] + [d] + [e] + [f] + [g]
    ensures t == base + [a, b, c, d, e, f, g]
  {
    Snoc4(base, a, b, c, d, base + [a] + [b] + [c] + [d]);
    assert t == base + [a, b, c, d] + [e] + [f] + [g];
    Snoc3(base + [a, b, c, d], e, f, g, t);
  }

  // Windows into a concatenation.

  /** A window inside the left part of a concatenation is a window of that part. */
  lemma SliceLeft<T>(a: seq<T>, b: seq<T>, i: nat, n: nat)
    requires i + n <= |a|
    ensures (a + b)[i..i + n] == a[i..i + n]
  {}

  /** A window inside the right part is a window of that part, shifted by `|a|`. */
  lemma SliceRight<T>(a: seq<T>, b: seq<T>, j: nat, n: nat)
    requires j + n <= |b|
    ensures (a + b)[|a| + j..|a| + j + n] == b[j..j + n]
  {}
}

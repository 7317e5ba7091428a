/** Regrouping of concatenations, which the solver is better told than left to find in a large context. */
module Sequences {

  lemma Assoc<T>(a: seq<T>, b: seq<T>, c: seq<T>)
    ensures a + (b + c) == a + b + c
  {
  }

  lemma Assoc4<T>(a: seq<T>, b: seq<T>, c: seq<T>, d: seq<T>)
    ensures a + b + c + d == a + (b + c) + d == a + (b + (c + d))
  {
  }

  lemma Assoc5<T>(a: seq<T>, b: seq<T>, c: seq<T>, d: seq<T>, e: seq<T>)
    ensures a + b + c + d + e == a + (b + c + d) + e == a + b + (c + d + e) == a + b + c + (d + e)
  {
  }

  lemma AssocTail<T>(a: seq<T>, b: seq<T>, c: seq<T>, d: seq<T>, e: seq<T>)
    ensures a + b + (c + d + e) == a + b + c + d + e
  {
  }

  lemma Assoc7<T>(a: seq<T>, b: seq<T>, c: seq<T>, d: seq<T>, e: seq<T>, f: seq<T>, g: seq<T>)
    ensures (a + b) + c + d + e + (f + g) == (a + (b + c)) + d + (e + f + g)
    ensures a + (b + c) + d + (e + f + g) == a + ((b + c) + d + (e + f)) + g
  {
  }

  /** Two neighbours grouped anew. */
  lemma Regroup<T>(a: seq<T>, b: seq<T>, c: seq<T>, bc: seq<T>)
    requires b + c == bc
    ensures (a + b) + c == a + bc
  {
  }

  lemma Regroup4<T>(a: seq<T>, b: seq<T>, c: seq<T>, d: seq<T>, e: seq<T>, f: seq<T>)
    requires b + c == e + f
    ensures a + b + (c + d) == (a + e) + f + d
  {
    assert a + b + (c + d) == a + (b + c) + d;
    assert (a + e) + f + d == a + (e + f) + d;
  }

  lemma Units<T>(x: seq<T>)
    ensures x + [] == x && [] + x == x && x + [] + [] == x
  {
  }

  lemma Alone<T>(x: seq<T>)
    ensures [] + x + [] == x
  {
  }
}

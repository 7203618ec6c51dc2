/** Regrouping of concatenations, which Dafny does not do by itself. */
module Sequences {

  lemma Assoc<T>(a: seq<T>, b: seq<T>, c: seq<T>)
    ensures a + (b + c) == (a + b) + c
  {
  }

  lemma MoveHead<T>(s: seq<T>, t: seq<T>)
    requires t != []
    ensures s + t == (s + [t[0]]) + t[1..]
  {
  }

  lemma ConsAppend<T>(s: seq<T>, t: seq<T>)
    requires s != []
    ensures [s[0]] + (s[1..] + t) == s + t
  {
  }
}

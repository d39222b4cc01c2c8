/** How often a value occurs in a list that grows at its end. */
module Counting {

  lemma CountAppend<T>(s: seq<T>, x: T, i: T)
    ensures multiset(s + [x])[i] == multiset(s)[i] + if x == i then 1 else 0
  {
  }

  lemma CountConcat<T>(s: seq<T>, t: seq<T>, i: T)
    ensures multiset(s + t)[i] == multiset(s)[i] + multiset(t)[i]
  {
  }
}

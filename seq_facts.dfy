/** Small facts about sequence concatenation and slicing. Each is stated
    once here, with no other definitions in view, so that callers get the
    equation without paying for it in a larger proof context. */
module SeqFacts {
  lemma AppendAssoc<T>(a: seq<T>, b: seq<T>, c: seq<T>)
    ensures (a + b) + c == a + (b + c)
  {
  }

  lemma AppendEmpty<T>(a: seq<T>)
    ensures [] + a == a && a + [] == a
  {
  }

  lemma SplitAt<T>(s: seq<T>, n: nat)
    requires n <= |s|
    ensures s == s[..n] + s[n..]
  {
  }

  lemma InitLast<T>(s: seq<T>)
    requires s != []
    ensures s == s[..|s| - 1] + [s[|s| - 1]]
  {
  }

  lemma PrefixSnoc<T>(a: seq<T>, s: seq<T>, m: nat)
    requires m < |s|
    ensures a + s[..m + 1] == (a + s[..m]) + [s[m]]
  {
    assert s[..m + 1] == s[..m] + [s[m]];
  }

  lemma ConcatAssoc<T>(w: seq<T>, x: seq<T>, y: seq<T>, z: seq<T>)
    ensures w + x + y + z == w + (x + y + z)
  {
  }
}

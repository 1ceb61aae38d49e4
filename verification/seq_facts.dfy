/**
 Facts about sequences that hold whatever the element type is. Stated once for
 a type parameter, they stay cheap to use on sequences of strings, where the
 solver would otherwise compare the strings character by character.
 */
module SeqFacts {

  lemma AppendAssoc<T>(a: seq<T>, b: seq<T>, c: seq<T>)
    ensures a + (b + c) == (a + b) + c
  {
  }

  lemma HeadTail<T>(s: seq<T>)
    requires |s| > 0
    ensures s == [s[0]] + s[1..]
  {
  }

  lemma ConsTail<T>(x: T, s: seq<T>)
    ensures ([x] + s)[0] == x && ([x] + s)[1..] == s
  {
  }

  lemma ConsCongruent<T>(x: T, a: seq<T>, b: seq<T>)
    requires a == b
    ensures [x] + a == [x] + b
  {
  }

  lemma SingletonAppendEmpty<T>(x: T, s: seq<T>)
    requires |s| == 0
    ensures [x] + s == [x]
  {
  }

  lemma ConsTake<T>(x: T, s: seq<T>, n: nat)
    requires 1 <= n <= |s| + 1
    ensures ([x] + s)[..n] == [x] + s[..n - 1]
  {
  }

  lemma TailOfPrefixAppend<T>(s: seq<T>, m: nat, t: seq<T>)
    requires 1 <= m <= |s|
    ensures (s[..m] + t)[0] == s[0]
    ensures (s[..m] + t)[1..] == s[1..m] + t
  {
  }

  lemma TakeOfTail<T>(s: seq<T>, m: nat)
    requires 1 <= m + 1 <= |s|
    ensures s[1..][..m] == s[1..m + 1]
  {
  }

  lemma PairThenOne<T>(a: T, b: T, c: T)
    ensures [a, b] + [c] == [a, b, c]
  {
  }

  lemma ThreeElements<T>(s: seq<T>, a: T, b: T, c: T)
    requires |s| == 3 && s[0] == a && s[1] == b && s[2] == c
    ensures s == [a, b, c]
  {
  }

  /** `P` holds of every element of `s`. */
  predicate All<T>(s: seq<T>, P: T -> bool) {
    forall k :: 0 <= k < |s| ==> P(s[k])
  }

  lemma AllConcat<T>(a: seq<T>, b: seq<T>, P: T -> bool)
    requires All(a, P) && All(b, P)
    ensures All(a + b, P)
  {
    forall k | 0 <= k < |a + b| ensures P((a + b)[k]) {
      if k >= |a| {
        assert (a + b)[k] == b[k - |a|];
      }
    }
  }

  lemma AllTail<T>(s: seq<T>, P: T -> bool)
    requires All(s, P) && |s| > 0
    ensures P(s[0]) && All(s[1..], P)
  {
    forall k | 0 <= k < |s| - 1 ensures P(s[1..][k]) {
      assert s[1..][k] == s[k + 1];
    }
  }
}

/**
 Sorting image files by modification time the way Python's `list.sort` with a
 key does it: ascending, and stable, so files with equal times keep the order
 the directory listing gave them.
 */
module MtimeSort {

  /** A file that passed the image filter, with its modification time. Times are
      only compared, so an integer stands for Python's float timestamp. */
  datatype Candidate = Candidate(name: string, mtime: int)

  predicate SortedByMtime(s: seq<Candidate>) {
    forall i, j :: 0 <= i < j < |s| ==> s[i].mtime <= s[j].mtime
  }

  /** The candidates with modification time `t`, in their order in `s`. */
  function WithMtime(s: seq<Candidate>, t: int): (r: seq<Candidate>)
    ensures |r| <= |s|
    ensures forall k :: 0 <= k < |r| ==> r[k].mtime == t && r[k] in s
  {
    if |s| == 0 then []
    else (if s[0].mtime == t then [s[0]] else []) + WithMtime(s[1..], t)
  }

  /** Inserts `x` into a sorted sequence, in front of every element not older than it. */
  function Insert(x: Candidate, s: seq<Candidate>): (r: seq<Candidate>)
    requires SortedByMtime(s)
    ensures SortedByMtime(r)
    ensures |r| == |s| + 1
    ensures r[0] == x || (|s| > 0 && r[0] == s[0])
    ensures multiset(r) == multiset(s) + multiset{x}
    decreases |s|
  {
    if |s| == 0 || x.mtime <= s[0].mtime then
      SortedCons(x, s);
      [x] + s
    else
      var t := Insert(x, s[1..]);
      assert s == [s[0]] + s[1..];
      SortedCons(s[0], t);
      [s[0]] + t
  }

  /** An element no younger than the head of a sorted sequence can go in front of it. */
  lemma SortedCons(c: Candidate, s: seq<Candidate>)
    requires SortedByMtime(s)
    requires |s| == 0 || c.mtime <= s[0].mtime
    ensures SortedByMtime([c] + s)
  {
    var r := [c] + s;
    forall i, j | 0 <= i < j < |r| ensures r[i].mtime <= r[j].mtime {
      if i > 0 {
        assert r[i] == s[i - 1] && r[j] == s[j - 1];
      } else {
        assert r[j] == s[j - 1];
      }
    }
  }

  lemma WithMtimeCons(c: Candidate, s: seq<Candidate>, t: int)
    ensures WithMtime([c] + s, t) == (if c.mtime == t then [c] else []) + WithMtime(s, t)
  {
    assert ([c] + s)[1..] == s;
  }

  /** Inserting keeps, for every time, the candidates with that time in order,
      with `x` first among them. */
  lemma {:induction false} InsertKeepsTies(x: Candidate, s: seq<Candidate>, t: int)
    requires SortedByMtime(s)
    ensures WithMtime(Insert(x, s), t) == (if x.mtime == t then [x] else []) + WithMtime(s, t)
    decreases |s|
  {
    if |s| == 0 || x.mtime <= s[0].mtime {
      WithMtimeCons(x, s, t);
    } else {
      var s' := s[1..];
      assert s == [s[0]] + s';
      var r' := Insert(x, s');
      assert Insert(x, s) == [s[0]] + r';
      InsertKeepsTies(x, s', t);
      WithMtimeCons(s[0], r', t);
      WithMtimeCons(s[0], s', t);
      var rest := WithMtime(s', t);
      if s[0].mtime == t {
        assert WithMtime(r', t) == rest;
        assert WithMtime(Insert(x, s), t) == [s[0]] + rest;
      } else if x.mtime == t {
        assert WithMtime(r', t) == [x] + rest;
        assert WithMtime(s, t) == rest;
      } else {
        assert WithMtime(r', t) == rest;
        assert WithMtime(s, t) == rest;
      }
    }
  }

  /** Python's stable `sort(key=mtime)`. */
  function SortByMtime(s: seq<Candidate>): (r: seq<Candidate>)
    ensures SortedByMtime(r)
    ensures |r| == |s|
    ensures multiset(r) == multiset(s)
    decreases |s|
  {
    if |s| == 0 then []
    else
      var rest := SortByMtime(s[1..]);
      assert s == [s[0]] + s[1..];
      Insert(s[0], rest)
  }

  /** The sort is stable: for every time, the candidates with that time come out in
      the order they went in. */
  lemma {:induction false} SortIsStable(s: seq<Candidate>, t: int)
    ensures WithMtime(SortByMtime(s), t) == WithMtime(s, t)
    decreases |s|
  {
    if |s| > 0 {
      SortIsStable(s[1..], t);
      InsertKeepsTies(s[0], SortByMtime(s[1..]), t);
    }
  }

  /** `a` and `b` list the candidates of every time in the same order. */
  ghost predicate SameTies(a: seq<Candidate>, b: seq<Candidate>) {
    forall t :: WithMtime(a, t) == WithMtime(b, t)
  }

  /** A sorted sequence has nothing older than its first element. */
  lemma FirstIsOldest(s: seq<Candidate>, t: int)
    requires SortedByMtime(s) && |s| > 0 && |WithMtime(s, t)| > 0
    ensures s[0].mtime <= t
  {
    var c := WithMtime(s, t)[0];
    assert c in s;
  }

  /** Every candidate shows up among those of its own time. */
  lemma TiesOfHead(s: seq<Candidate>)
    requires |s| > 0
    ensures WithMtime(s, s[0].mtime) == [s[0]] + WithMtime(s[1..], s[0].mtime)
  {
  }

  lemma SameTiesSameLength(a: seq<Candidate>, b: seq<Candidate>)
    requires SameTies(a, b) && |a| > 0
    ensures |b| > 0
  {
    TiesOfHead(a);
    assert WithMtime(b, a[0].mtime) != [];
  }

  lemma SameTiesSameHead(a: seq<Candidate>, b: seq<Candidate>)
    requires SortedByMtime(a) && SortedByMtime(b) && SameTies(a, b)
    requires |a| > 0 && |b| > 0
    ensures a[0] == b[0]
  {
    var m := a[0].mtime;
    var m' := b[0].mtime;
    TiesOfHead(a);
    TiesOfHead(b);
    assert WithMtime(b, m) == WithMtime(a, m);
    assert WithMtime(a, m') == WithMtime(b, m');
    FirstIsOldest(b, m);
    FirstIsOldest(a, m');
    assert WithMtime(a, m)[0] == WithMtime(b, m)[0];
  }

  lemma SameTiesTails(a: seq<Candidate>, b: seq<Candidate>)
    requires SameTies(a, b) && |a| > 0 && |b| > 0 && a[0] == b[0]
    ensures SameTies(a[1..], b[1..])
  {
    var m := a[0].mtime;
    forall t ensures WithMtime(a[1..], t) == WithMtime(b[1..], t) {
      var p := if m == t then [a[0]] else [];
      assert WithMtime(a, t) == p + WithMtime(a[1..], t);
      assert WithMtime(b, t) == p + WithMtime(b[1..], t);
      assert WithMtime(a, t) == WithMtime(b, t);
      assert WithMtime(a[1..], t) == WithMtime(a, t)[|p|..];
      assert WithMtime(b[1..], t) == WithMtime(b, t)[|p|..];
    }
  }

  /** Sortedness and the per-time order pin a sequence down: two sorted sequences
      with the same candidates of every time, in the same order, are equal. */
  lemma {:induction false} StableOrderIsUnique(a: seq<Candidate>, b: seq<Candidate>)
    requires SortedByMtime(a) && SortedByMtime(b)
    requires SameTies(a, b)
    ensures a == b
    decreases |a|
  {
    if |a| > 0 {
      SameTiesSameLength(a, b);
      SameTiesSameHead(a, b);
      SameTiesTails(a, b);
      StableOrderIsUnique(a[1..], b[1..]);
      assert a == [a[0]] + a[1..];
      assert b == [b[0]] + b[1..];
    } else if |b| > 0 {
      assert SameTies(b, a);
      SameTiesSameLength(b, a);
    }
  }

  /** `SortByMtime` is exactly the stable ascending sort: a sequence is its result if
      and only if it is sorted by time and keeps every time's candidates in input order. */
  lemma SortCharacterized(s: seq<Candidate>, r: seq<Candidate>)
    ensures SortedByMtime(r) && SameTies(r, s) <==> r == SortByMtime(s)
  {
    var sorted := SortByMtime(s);
    assert SameTies(sorted, s) by {
      forall t ensures WithMtime(sorted, t) == WithMtime(s, t) {
        SortIsStable(s, t);
      }
    }
    if SortedByMtime(r) && SameTies(r, s) {
      StableOrderIsUnique(r, sorted);
    }
  }
}

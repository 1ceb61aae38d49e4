/**
 How the string-saving node names its output file: the extension of the
 configured file name is dropped (`os.path.splitext`), ".txt" is forced, and in
 single-file mode a counter is appended until the name is not taken yet.
 */
module FileNaming {
  import opened Text

  /** `os.path` on POSIX systems separates with '/', on Windows with '\' or '/'. */
  datatype PathFlavour = Posix | Windows

  predicate IsSeparator(c: char, flavour: PathFlavour) {
    c == '/' || (flavour.Windows? && c == '\\')
  }

  /** `p.rfind(c)`: the last position holding `c`, or -1. */
  function LastIndexOf(p: string, c: char): (r: int)
    ensures -1 <= r < |p|
    ensures r >= 0 ==> p[r] == c
    ensures forall k :: r < k < |p| ==> p[k] != c
  {
    if |p| == 0 then -1
    else if p[|p| - 1] == c then |p| - 1
    else LastIndexOf(p[..|p| - 1], c)
  }

  /** The position of the last separator, or -1 (`max` of the two `rfind`s on Windows). */
  function LastSeparator(p: string, flavour: PathFlavour): (r: int)
    ensures -1 <= r < |p|
    ensures r >= 0 ==> IsSeparator(p[r], flavour)
    ensures forall k :: r < k < |p| ==> !IsSeparator(p[k], flavour)
  {
    match flavour
    case Posix => LastIndexOf(p, '/')
    case Windows =>
      var b := LastIndexOf(p, '\\');
      var f := LastIndexOf(p, '/');
      if b < f then f else b
  }

  /** The contracts above pin `LastIndexOf` down: any position with those properties is it. */
  lemma LastIndexOfUnique(p: string, c: char, i: int)
    requires -1 <= i < |p|
    requires i >= 0 ==> p[i] == c
    requires forall k :: i < k < |p| ==> p[k] != c
    ensures LastIndexOf(p, c) == i
  {
  }

  lemma LastSeparatorUnique(p: string, flavour: PathFlavour, i: int)
    requires -1 <= i < |p|
    requires i >= 0 ==> IsSeparator(p[i], flavour)
    requires forall k :: i < k < |p| ==> !IsSeparator(p[k], flavour)
    ensures LastSeparator(p, flavour) == i
  {
  }

  /** `os.path.splitext(p)`: the extension starts at the last dot, provided that dot
      lies in the last path component and is preceded there by something other than
      dots (so ".bashrc" and "..." have no extension). */
  function SplitExt(p: string, flavour: PathFlavour): (r: (string, string))
    ensures r.0 + r.1 == p
    ensures r.1 == "" || r.1[0] == '.'
    ensures forall k :: 1 <= k < |r.1| ==> r.1[k] != '.' && !IsSeparator(r.1[k], flavour)
    ensures r.1 != "" ==> exists k :: LastSeparator(r.0, flavour) < k < |r.0| && r.0[k] != '.'
    ensures r.1 == "" ==>
              forall d :: LastSeparator(p, flavour) < d < |p| && p[d] == '.' ==>
                forall k :: LastSeparator(p, flavour) < k < d ==> p[k] == '.'
  {
    var sep := LastSeparator(p, flavour);
    var dot := LastIndexOf(p, '.');
    if dot > sep && exists k :: sep < k < dot && p[k] != '.' then
      LastSeparatorOfRoot(p, flavour, dot);
      (p[..dot], p[dot..])
    else (p, "")
  }

  /** Cutting a path before a position past its last separator keeps that separator. */
  lemma LastSeparatorOfRoot(p: string, flavour: PathFlavour, dot: int)
    requires LastSeparator(p, flavour) < dot <= |p|
    ensures LastSeparator(p[..dot], flavour) == LastSeparator(p, flavour)
  {
    var sep := LastSeparator(p, flavour);
    var root := p[..dot];
    if sep >= 0 {
      assert root[sep] == p[sep];
    }
    forall k | sep < k < |root| ensures !IsSeparator(root[k], flavour) {
      assert root[k] == p[k];
    }
    LastSeparatorUnique(root, flavour, sep);
  }

  /** A path component that is not only dots, followed by an extension, splits back
      into exactly those two parts. */
  lemma SplitExtOfJoined(root: string, ext: string, flavour: PathFlavour)
    requires |ext| >= 1 && ext[0] == '.'
    requires forall k :: 1 <= k < |ext| ==> ext[k] != '.' && !IsSeparator(ext[k], flavour)
    requires exists k :: LastSeparator(root, flavour) < k < |root| && root[k] != '.'
    ensures SplitExt(root + ext, flavour) == (root, ext)
  {
    var p := root + ext;
    var sep := LastSeparator(root, flavour);
    forall k | |root| < k < |p| ensures p[k] != '.' && !IsSeparator(p[k], flavour) {
      assert p[k] == ext[k - |root|];
    }
    assert p[|root|] == '.';
    LastIndexOfUnique(p, '.', |root|);
    if sep >= 0 {
      assert p[sep] == root[sep];
    }
    forall k | sep < k < |p| ensures !IsSeparator(p[k], flavour) {
      if k < |root| {
        assert p[k] == root[k];
      }
    }
    LastSeparatorUnique(p, flavour, sep);
    var k :| sep < k < |root| && root[k] != '.';
    assert p[k] == root[k];
    assert p[..|root|] == root;
    assert p[|root|..] == ext;
  }

  /** A file name with an extension loses it; a hidden file's leading dot is not one. */
  lemma SplitExtExamples()
    ensures SplitExt("w.txt", Posix) == ("w", ".txt")
    ensures SplitExt(".rc", Windows) == (".rc", "")
  {
    assert LastSeparator("w", Posix) == -1;
    SplitExtOfJoined("w", ".txt", Posix);
    assert "w" + ".txt" == "w.txt";
    assert LastIndexOf(".rc", '.') == 0;
  }

  /** The extension every saved file gets. */
  const TextExtension := ".txt"

  /** The name tried for counter `n`: `base.txt` for 0, `base<n>.txt` after that. */
  function NumberedName(base: string, n: nat): (r: string)
    ensures |r| >= |base| + |TextExtension|
    ensures |r| > |base| + |TextExtension| <==> n > 0
    ensures r[..|base|] == base && r[|r| - |TextExtension|..] == TextExtension
  {
    if n == 0 then base + TextExtension else base + NatToString(n) + TextExtension
  }

  /** Different counters never name the same file. */
  lemma NumberedNamesDistinct(base: string, n: nat, m: nat)
    requires NumberedName(base, n) == NumberedName(base, m)
    ensures n == m
  {
    if n > 0 && m > 0 {
      var r := NumberedName(base, n);
      var e := |r| - |TextExtension|;
      assert r[|base|..e] == NatToString(n);
      assert NumberedName(base, m)[|base|..e] == NatToString(m);
      NatToStringInjective(n, m);
    }
  }

  /** The names tried for the counters below `n`. */
  ghost function NamesBelow(base: string, n: nat): (r: set<string>)
    ensures forall x :: x in r ==> exists k :: 0 <= k < n && x == NumberedName(base, k)
    ensures |r| == n
  {
    if n == 0 then {}
    else
      var r := NamesBelow(base, n - 1);
      var x := NumberedName(base, n - 1);
      NewName(base, n - 1, r);
      assert |r + {x}| == |r| + 1;
      assert forall y :: y in r + {x} ==> y == x || y in r;
      r + {x}
  }

  lemma NewName(base: string, n: nat, r: set<string>)
    requires forall x :: x in r ==> exists k :: 0 <= k < n && x == NumberedName(base, k)
    ensures NumberedName(base, n) !in r
  {
    if NumberedName(base, n) in r {
      var k :| 0 <= k < n && NumberedName(base, n) == NumberedName(base, k);
      NumberedNamesDistinct(base, k, n);
    }
  }

  /** Every counter tried names a distinct taken file, so the counter never passes
      the number of taken names. */
  lemma CounterBounded(base: string, taken: set<string>, n: nat)
    requires forall k :: 0 <= k < n ==> NumberedName(base, k) in taken
    ensures n <= |taken|
  {
    var r := NamesBelow(base, n);
    assert r <= taken;
    SubsetCardinality(r, taken);
  }

  /** The counter loop of single-file mode: the first name, counting from 0, that is
      not taken yet, with the counter that produced it. */
  method FirstFreeName(base: string, taken: set<string>) returns (name: string, n: nat)
    ensures name == NumberedName(base, n)
    ensures name !in taken
    ensures forall k :: 0 <= k < n ==> NumberedName(base, k) in taken
  {
    n := 0;
    while NumberedName(base, n) in taken
      invariant forall k :: 0 <= k < n ==> NumberedName(base, k) in taken
      decreases |taken| - n
    {
      CounterBounded(base, taken, n + 1);
      n := n + 1;
    }
    name := NumberedName(base, n);
  }

  lemma {:induction false} SubsetCardinality<T>(a: set<T>, b: set<T>)
    requires a <= b
    ensures |a| <= |b|
    decreases a
  {
    if a != {} {
      var x :| x in a;
      SubsetCardinality(a - {x}, b - {x});
    }
  }
}

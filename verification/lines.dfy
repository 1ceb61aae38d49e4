/**
 How a wildcard file's text becomes its list of prompts: the file is read in
 text mode (so "\r\n" and a lone "\r" both end a line, as "\n" does), every
 line is stripped, and lines that are empty after stripping are dropped.
 */
module Lines {
  import opened Text
  import opened SeqFacts

  predicate IsLineBreak(c: char) {
    c == '\n' || c == '\r'
  }

  predicate NoLineBreak(s: string) {
    forall i :: 0 <= i < |s| ==> !IsLineBreak(s[i])
  }

  /** The pieces of `s` between line breaks; a text with k breaks has k + 1 pieces. */
  function Pieces(s: string): (r: seq<string>)
    ensures |r| >= 1
    decreases |s|
  {
    if |s| == 0 then [""]
    else if IsLineBreak(s[0]) then [""] + Pieces(s[1..])
    else
      var rest := Pieces(s[1..]);
      [[s[0]] + rest[0]] + rest[1..]
  }

  /** `sep.join(parts)`. */
  function Join(parts: seq<string>, sep: string): string
  {
    if |parts| == 0 then ""
    else if |parts| == 1 then parts[0]
    else parts[0] + sep + Join(parts[1..], sep)
  }

  /** Splitting at line breaks loses nothing but which break character was used:
      joining the pieces with "\n" gives back the text with every "\r" read as "\n". */
  lemma {:induction false} JoinPieces(s: string)
    ensures Join(Pieces(s), "\n") == ReplaceChar(s, '\r', '\n')
    decreases |s|
  {
    if |s| > 0 {
      var t := ReplaceChar(s, '\r', '\n');
      var rest := Pieces(s[1..]);
      JoinPieces(s[1..]);
      assert ReplaceChar(s[1..], '\r', '\n') == t[1..];
      assert Join(rest, "\n") == t[1..];
      HeadTail(t);
      if IsLineBreak(s[0]) {
        assert t[0] == '\n';
        JoinCons("", rest);
      } else {
        assert t[0] == s[0];
        JoinFirst(s[0], rest);
      }
    }
  }

  lemma JoinCons(x: string, rest: seq<string>)
    requires |rest| >= 1
    ensures Join([x] + rest, "\n") == x + "\n" + Join(rest, "\n")
  {
    ConsTail(x, rest);
  }

  /** Putting a character in front of the first piece puts it in front of the join. */
  lemma JoinFirst(c: char, rest: seq<string>)
    requires |rest| >= 1
    ensures Join([[c] + rest[0]] + rest[1..], "\n") == [c] + Join(rest, "\n")
  {
    var first := [c] + rest[0];
    var tail := rest[1..];
    if |rest| == 1 {
      SingletonAppendEmpty(first, tail);
      assert Join(rest, "\n") == rest[0];
    } else {
      var j := Join(tail, "\n");
      JoinCons(first, tail);
      HeadTail(rest);
      JoinCons(rest[0], tail);
      assert Join(rest, "\n") == rest[0] + "\n" + j;
      AppendAssoc([c], rest[0], "\n");
      AppendAssoc([c], rest[0] + "\n", j);
    }
  }

  /** Strips every line and keeps those that are not empty afterwards. */
  function Keep(ls: seq<string>): (r: seq<string>)
    ensures |r| <= |ls|
  {
    if |ls| == 0 then [] else KeepLine(ls[0]) + Keep(ls[1..])
  }

  /** One line's contribution to `Keep`. */
  function KeepLine(l: string): (r: seq<string>)
    ensures |r| <= 1
  {
    var t := Strip(l);
    if t == "" then [] else [t]
  }

  /** A line `Keep` keeps: stripped and not empty. */
  predicate IsKept(x: string) {
    x != "" && IsStripped(x)
  }

  lemma {:induction false} KeepShape(ls: seq<string>)
    ensures All(Keep(ls), IsKept)
    decreases |ls|
  {
    if |ls| > 0 {
      KeepShape(ls[1..]);
      AllConcat(KeepLine(ls[0]), Keep(ls[1..]), IsKept);
    }
  }

  /** `Keep` works line by line: it distributes over concatenation... */
  lemma {:induction false} KeepAppend(a: seq<string>, b: seq<string>)
    ensures Keep(a + b) == Keep(a) + Keep(b)
    decreases |a|
  {
    if |a| == 0 {
      assert a + b == b;
    } else {
      var ab := a + b;
      assert ab[0] == a[0];
      assert ab[1..] == a[1..] + b;
      KeepAppend(a[1..], b);
      var h, m, k := KeepLine(a[0]), Keep(a[1..]), Keep(b);
      assert Keep(ab) == h + (m + k);
      assert Keep(a) == h + m;
      AppendAssoc(h, m, k);
    }
  }

  /** ...and on one line keeps the stripped line exactly when it is not empty. */
  lemma KeepOne(l: string)
    ensures Keep([l]) == if Strip(l) == "" then [] else [Strip(l)]
  {
    assert [l][1..] == [];
  }

  /** The prompts of a wildcard file's text. */
  function PromptLines(text: string): (r: seq<string>)
    ensures forall k :: 0 <= k < |r| ==> r[k] != "" && IsStripped(r[k]) && NoLineBreak(r[k])
  {
    var ps := Pieces(text);
    PiecesBreakFree(text);
    KeepBreakFree(ps);
    KeepShape(ps);
    Keep(ps)
  }

  /** No piece contains a line break. */
  lemma {:induction false} PiecesBreakFree(s: string)
    ensures All(Pieces(s), NoLineBreak)
    decreases |s|
  {
    if |s| > 0 {
      var rest := Pieces(s[1..]);
      PiecesBreakFree(s[1..]);
      if IsLineBreak(s[0]) {
        AllConcat([""], rest, NoLineBreak);
      } else {
        AllTail(rest, NoLineBreak);
        ConcatNoLineBreak([s[0]], rest[0]);
        AllConcat([[s[0]] + rest[0]], rest[1..], NoLineBreak);
      }
    }
  }

  lemma {:induction false} KeepBreakFree(ls: seq<string>)
    requires All(ls, NoLineBreak)
    ensures All(Keep(ls), NoLineBreak)
    decreases |ls|
  {
    if |ls| > 0 {
      AllTail(ls, NoLineBreak);
      KeepBreakFree(ls[1..]);
      StripKeepsNoLineBreak(ls[0]);
      AllConcat(KeepLine(ls[0]), Keep(ls[1..]), NoLineBreak);
    }
  }

  /** Stripping a line cannot introduce a line break. */
  lemma StripKeepsNoLineBreak(s: string)
    requires NoLineBreak(s)
    ensures NoLineBreak(Strip(s))
  {
    var t := TrimStart(s);
    assert NoLineBreak(t) by {
      var i := |s| - |t|;
      forall k | 0 <= k < |t| ensures !IsLineBreak(t[k]) {
        assert t[k] == s[i + k];
      }
    }
    var r := TrimEnd(t);
    forall k | 0 <= k < |r| ensures !IsLineBreak(r[k]) {
      assert r[k] == t[k];
    }
  }

  /** Two texts without line breaks make one without. */
  lemma ConcatNoLineBreak(a: string, b: string)
    requires NoLineBreak(a) && NoLineBreak(b)
    ensures NoLineBreak(a + b)
  {
    forall k | 0 <= k < |a + b| ensures !IsLineBreak((a + b)[k]) {
      if k >= |a| {
        assert (a + b)[k] == b[k - |a|];
      }
    }
  }

  /** A text that ends with a line break has an empty last piece. */
  lemma {:induction false} PiecesEndEmpty(a: string)
    requires |a| > 0 && IsLineBreak(a[|a| - 1])
    ensures |Pieces(a)| >= 2 && Pieces(a)[|Pieces(a)| - 1] == ""
    decreases |a|
  {
    if |a| == 1 {
      assert a[1..] == [];
    } else {
      PiecesEndEmpty(a[1..]);
    }
  }

  /** A text that ends with a line break contributes its pieces but the last, empty one. */
  lemma {:induction false} PiecesAppend(a: string, b: string)
    requires |a| > 0 && IsLineBreak(a[|a| - 1])
    ensures |Pieces(a)| >= 1
    ensures Pieces(a + b) == Pieces(a)[..|Pieces(a)| - 1] + Pieces(b)
    decreases |a|
  {
    var ab := a + b;
    assert ab[0] == a[0];
    assert ab[1..] == a[1..] + b;
    if |a| == 1 {
      assert a[1..] == [];
      assert Pieces(a) == [""] + Pieces([]);
      assert ab[1..] == b;
    } else {
      var a' := a[1..];
      PiecesAppend(a', b);
      PiecesEndEmpty(a');
      if IsLineBreak(a[0]) {
        PiecesAppendBreak(a, b);
      } else {
        PiecesAppendChar(a, b);
      }
    }
  }

  lemma PiecesAppendBreak(a: string, b: string)
    requires |a| > 1 && IsLineBreak(a[0])
    requires Pieces(a[1..] + b) == Pieces(a[1..])[..|Pieces(a[1..])| - 1] + Pieces(b)
    ensures Pieces(a + b) == Pieces(a)[..|Pieces(a)| - 1] + Pieces(b)
  {
    var ab := a + b;
    assert ab[0] == a[0];
    assert ab[1..] == a[1..] + b;
    var pa := Pieces(a[1..]);
    var n := |pa|;
    var pb := Pieces(b);
    assert Pieces(a) == [""] + pa;
    assert Pieces(ab) == [""] + (pa[..n - 1] + pb);
    ConsTake("", pa, n);
    AppendAssoc([""], pa[..n - 1], pb);
  }

  lemma PiecesAppendChar(a: string, b: string)
    requires |a| > 1 && !IsLineBreak(a[0])
    requires |Pieces(a[1..])| >= 2
    requires Pieces(a[1..] + b) == Pieces(a[1..])[..|Pieces(a[1..])| - 1] + Pieces(b)
    ensures Pieces(a + b) == Pieces(a)[..|Pieces(a)| - 1] + Pieces(b)
  {
    var ab := a + b;
    assert ab[0] == a[0];
    assert ab[1..] == a[1..] + b;
    var pa := Pieces(a[1..]);
    var n := |pa|;
    var pb := Pieces(b);
    var pab := Pieces(a[1..] + b);
    TailOfPrefixAppend(pa, n - 1, pb);
    var c := [a[0]] + pa[0];
    assert Pieces(a) == [c] + pa[1..];
    assert Pieces(ab) == [c] + (pa[1..n - 1] + pb);
    ConsTake(c, pa[1..], n - 1);
    TakeOfTail(pa, n - 2);
    AppendAssoc([c], pa[1..n - 1], pb);
  }

  /** The prompts of two texts written one after the other, the first ending a line,
      are the prompts of the first followed by the prompts of the second. */
  lemma {:induction false} PromptLinesAppend(a: string, b: string)
    requires |a| == 0 || IsLineBreak(a[|a| - 1])
    ensures PromptLines(a + b) == PromptLines(a) + PromptLines(b)
  {
    if |a| == 0 {
      assert a + b == b;
    } else {
      PiecesAppend(a, b);
      PiecesEndEmpty(a);
      var pa := Pieces(a);
      var init := pa[..|pa| - 1];
      assert pa == init + [""];
      KeepAppend(init, [""]);
      KeepOne("");
      assert Keep(pa) == Keep(init);
      KeepAppend(init, Pieces(b));
      assert Keep(Pieces(a + b)) == Keep(init) + Keep(Pieces(b));
    }
  }

  /** A single stripped line without breaks is read back as exactly one prompt. */
  lemma {:induction false} PromptLinesOfLine(t: string)
    requires t != "" && IsStripped(t) && NoLineBreak(t)
    ensures PromptLines(t + "\n") == [t]
  {
    PiecesOfLine(t);
    StripOfStripped(t);
    assert Pieces(t + "\n") == [t] + [""];
    KeepAppend([t], [""]);
    KeepOne(t);
    KeepOne("");
  }

  /** Ending a text with a line break adds one empty piece and nothing else. */
  lemma {:induction false} PiecesEndLine(t: string)
    ensures Pieces(t + "\n") == Pieces(t) + [""]
    decreases |t|
  {
    var s := t + "\n";
    if |t| == 0 {
      assert s[1..] == [];
    } else {
      assert s[1..] == t[1..] + "\n";
      PiecesEndLine(t[1..]);
    }
  }

  /** A final line break does not change the prompts of a text. */
  lemma PromptLinesEndLine(t: string)
    ensures PromptLines(t + "\n") == PromptLines(t)
  {
    PiecesEndLine(t);
    KeepAppend(Pieces(t), [""]);
    KeepOne("");
  }

  lemma {:induction false} PiecesOfLine(t: string)
    requires NoLineBreak(t)
    ensures Pieces(t + "\n") == [t, ""]
    decreases |t|
  {
    var s := t + "\n";
    if |t| == 0 {
      assert s == "\n";
      assert s[1..] == [];
    } else {
      assert s[1..] == t[1..] + "\n";
      PiecesOfLine(t[1..]);
      assert [t[0]] + t[1..] == t;
    }
  }

  /** A line without breaks is a single piece. */
  lemma {:induction false} PiecesOfBreakFree(t: string)
    requires NoLineBreak(t)
    ensures Pieces(t) == [t]
    decreases |t|
  {
    if |t| > 0 {
      PiecesOfBreakFree(t[1..]);
      assert [t[0]] + t[1..] == t;
    }
  }

  /** Prompts joined one per line are read back as exactly those prompts. */
  lemma {:induction false} JoinRoundTrip(xs: seq<string>)
    requires forall k :: 0 <= k < |xs| ==> xs[k] != "" && IsStripped(xs[k]) && NoLineBreak(xs[k])
    ensures PromptLines(Join(xs, "\n")) == xs
    decreases |xs|
  {
    if |xs| == 0 {
      PromptLinesOfEmpty();
    } else if |xs| == 1 {
      PromptLinesOfOne(xs[0]);
    } else {
      JoinRoundTrip(xs[1..]);
      JoinConsRoundTrip(xs[0], xs[1..]);
      HeadTail(xs);
    }
  }

  lemma PromptLinesOfEmpty()
    ensures PromptLines("") == []
  {
    assert Pieces("") == [""];
    KeepOne("");
  }

  lemma PromptLinesOfOne(x: string)
    requires x != "" && IsStripped(x) && NoLineBreak(x)
    ensures PromptLines(x) == [x]
  {
    PiecesOfBreakFree(x);
    StripOfStripped(x);
    KeepOne(x);
  }

  lemma JoinConsRoundTrip(x: string, rest: seq<string>)
    requires x != "" && IsStripped(x) && NoLineBreak(x) && |rest| >= 1
    requires PromptLines(Join(rest, "\n")) == rest
    ensures PromptLines(Join([x] + rest, "\n")) == [x] + rest
  {
    var head := x + "\n";
    assert ([x] + rest)[1..] == rest;
    assert Join([x] + rest, "\n") == head + Join(rest, "\n");
    PromptLinesOfLine(x);
    PromptLinesAppend(head, Join(rest, "\n"));
  }
}

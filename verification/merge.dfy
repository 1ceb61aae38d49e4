/**
 Combining the fixed prompt with drawn or cycled prompts (nodes.py, the
 "fixed_prompt" handling of both wildcard nodes).
 */
module Merge {
  import opened Text
  import opened Lines
  import opened Results

  /** The separator placed between the fixed prompt and a wildcard line. */
  const PrefixSeparator: string := ", "

  /** One prompt with the fixed prompt in front, as the sequential node builds it:
      the fixed prompt is stripped, and only a non-empty one is used. */
  function MergePrefix(fixed: string, line: string): (r: string)
    ensures Strip(fixed) == "" ==> r == line
    ensures Strip(fixed) != "" ==> r == Strip(fixed) + PrefixSeparator + line
  {
    if fixed != "" then
      var f := Strip(fixed);
      if f != "" then f + PrefixSeparator + line else line
    else line
  }

  /** The line after the prefix can always be recovered from a merged prompt. */
  lemma MergePrefixRecoversLine(fixed: string, line: string)
    ensures var r := MergePrefix(fixed, line);
            var n := if Strip(fixed) == "" then 0 else |Strip(fixed)| + |PrefixSeparator|;
            n <= |r| && r[n..] == line && r[..n] == (if n == 0 then "" else Strip(fixed) + PrefixSeparator)
  {
  }

  /** Prefixes every element of `lines`. */
  function MergeEach(fixed: string, lines: seq<string>): (r: seq<string>)
    ensures |r| == |lines|
    ensures forall k :: 0 <= k < |r| ==> r[k] == MergePrefix(fixed, lines[k])
  {
    if |lines| == 0 then [] else [MergePrefix(fixed, lines[0])] + MergeEach(fixed, lines[1..])
  }

  /** The random node's combination of its draws with the fixed prompt, branch for
      branch as the node writes it. With no draws and a non-empty prefix the node
      indexes an empty list, which fails (`None`). */
  function CombineDraws(fixed: string, draws: seq<string>): (r: Option<string>)
    ensures r.None? <==> (|draws| == 0 && Strip(fixed) != "")
  {
    if fixed != "" then
      var f := Strip(fixed);
      if f != "" then
        if |draws| > 1 then
          Some(Join(seq(|draws|, k requires 0 <= k < |draws| => f + PrefixSeparator + draws[k]), "\n"))
        else if |draws| == 1 then Some(f + PrefixSeparator + draws[0])
        else None
      else Some(Join(draws, "\n"))
    else Some(Join(draws, "\n"))
  }

  /** Whatever the branch taken, every draw gets the same prefix treatment as in the
      sequential node, and the draws are joined line by line in the order drawn. */
  lemma CombineDrawsIsJoinOfMerged(fixed: string, draws: seq<string>)
    requires |draws| >= 1 || Strip(fixed) == ""
    ensures CombineDraws(fixed, draws) == Some(Join(MergeEach(fixed, draws), "\n"))
  {
    var m := MergeEach(fixed, draws);
    var f := Strip(fixed);
    if f == "" {
      assert m == draws;
    } else if |draws| > 1 {
      var prefixed := seq(|draws|, k requires 0 <= k < |draws| => f + PrefixSeparator + draws[k]);
      assert prefixed == m by {
        forall k | 0 <= k < |draws| ensures prefixed[k] == m[k] {
          assert m[k] == MergePrefix(fixed, draws[k]);
        }
      }
      assert CombineDraws(fixed, draws) == Some(Join(prefixed, "\n"));
    } else {
      assert m == [f + PrefixSeparator + draws[0]];
      assert Join(m, "\n") == m[0];
    }
  }

  /** Merging keeps a prompt a single stripped line, provided the fixed prompt itself
      has no line break. */
  lemma MergeKeepsPromptShape(fixed: string, line: string)
    requires line != "" && IsStripped(line) && NoLineBreak(line)
    requires NoLineBreak(fixed)
    ensures var r := MergePrefix(fixed, line);
            r != "" && IsStripped(r) && NoLineBreak(r)
  {
    var f := Strip(fixed);
    if f != "" {
      StripKeepsNoLineBreak(fixed);
      var r := f + PrefixSeparator + line;
      assert r == f + (PrefixSeparator + line);
      ConcatNoLineBreak(PrefixSeparator, line);
      ConcatNoLineBreak(f, PrefixSeparator + line);
      assert r[0] == f[0];
      assert r[|r| - 1] == line[|line| - 1];
    }
  }
}

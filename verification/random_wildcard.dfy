/**
 The random wildcard node (`RandomWildcardNode.get_random_prompt`): draws
 prompts from a wildcard file and merges the fixed prompt into each. The random
 number generator is not modelled: the draws are a parameter `picks`, one entry
 per draw, and entry p selects the prompt at index p mod N of the file's N
 prompts (`random.choices` draws with replacement, so any sequence of indices
 is possible).
 */
module RandomWildcard {
  import opened Results
  import opened Lines
  import opened Merge
  import opened WildcardFile

  /** The prompts `picks` selects from `prompts`, in the order drawn. */
  function Draw(prompts: seq<string>, picks: seq<nat>): (r: seq<string>)
    requires |prompts| > 0
    ensures |r| == |picks|
    ensures forall k :: 0 <= k < |r| ==> r[k] in prompts
  {
    seq(|picks|, k requires 0 <= k < |picks| => prompts[picks[k] % |prompts|])
  }

  /** What the node answers once the file's prompts are read: a warning for an empty
      file, else the draws merged with the fixed prompt and joined line by line. */
  function Respond(prompts: seq<string>, fixed: string, picks: seq<nat>): (r: Result<string, Problem>)
    ensures |prompts| == 0 ==> r == Failure(NoPrompts)
    ensures r.Success? <==> |prompts| > 0 && (|picks| > 0 || Text.Strip(fixed) == "")
    ensures r.Success? ==> r.value == Join(MergeEach(fixed, Draw(prompts, picks)), "\n")
  {
    if |prompts| == 0 then Failure(NoPrompts)
    else
      var draws := Draw(prompts, picks);
      match CombineDraws(fixed, draws)
      // Indexing the empty draw list raises IndexError, caught by the catch-all.
      case None => Failure(ReadFailed)
      case Some(text) =>
        CombineDrawsIsJoinOfMerged(fixed, draws);
        Success(text)
  }

  /** One call of the node; `|picks|` is its `num_prompts`. */
  function RandomPrompt(path: string, kind: PathKind, read: ReadResult,
                        fixed: string, picks: seq<nat>): (r: Result<string, Problem>)
    ensures CheckPath(path, kind).Some? ==> r == Failure(CheckPath(path, kind).value)
    ensures CheckPath(path, kind).None? && read.Text? ==>
              r == Respond(PromptLines(read.contents), fixed, picks)
    ensures CheckPath(path, kind).None? && !read.Text? ==>
              r.Failure? && r.error == LoadPrompts(read).error
  {
    match CheckPath(path, kind)
    case Some(problem) => Failure(problem)
    case None =>
      match LoadPrompts(read)
      case Failure(problem) => Failure(problem)
      case Success(prompts) => Respond(prompts, fixed, picks)
  }

  /** A read that raises answers that read's own warning, whatever the draws. */
  lemma FailedReadWarns(path: string, read: ReadResult, fixed: string, picks: seq<nat>)
    requires path != "" && !read.Text?
    ensures var r := RandomPrompt(path, Regular, read, fixed, picks);
            && (read.NotFound? ==> r == Failure(FileNotFound))
            && (read.NoPermission? ==> r == Failure(Problem.NoPermission))
            && (read.Unreadable? ==> r == Failure(ReadFailed))
  {
    assert CheckPath(path, Regular) == None;
  }

  /** Read back as a wildcard file, the node's output gives exactly its merged draws,
      one prompt per line (when the fixed prompt is a single line). */
  lemma OutputReadsBackAsDraws(path: string, kind: PathKind, read: ReadResult,
                               fixed: string, picks: seq<nat>)
    requires RandomPrompt(path, kind, read, fixed, picks).Success?
    requires NoLineBreak(fixed)
    ensures read.Text?
    ensures var out := RandomPrompt(path, kind, read, fixed, picks).value;
            PromptLines(out) == MergeEach(fixed, Draw(PromptLines(read.contents), picks))
  {
    assert CheckPath(path, kind).None?;
    var prompts := PromptLines(read.contents);
    var draws := Draw(prompts, picks);
    var merged := MergeEach(fixed, draws);
    forall k | 0 <= k < |merged|
      ensures merged[k] != "" && Text.IsStripped(merged[k]) && NoLineBreak(merged[k])
    {
      assert draws[k] in prompts;
      var m :| 0 <= m < |prompts| && prompts[m] == draws[k];
      MergeKeepsPromptShape(fixed, draws[k]);
    }
    JoinRoundTrip(merged);
  }
}

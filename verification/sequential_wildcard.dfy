/**
 The sequential wildcard node (`SequentialWildcardNode.get_next_prompt`): each
 call returns the next prompt of a wildcard file, wrapping round at the end.
 The node's two process-wide dictionaries, prompt lists and cursors keyed by the
 file's absolute path, are an explicit `Cycler` value that every call takes and
 returns.
 */
module SequentialWildcard {
  import opened Results
  import opened Lines
  import opened Merge
  import opened WildcardFile
  import Wrap
  import SeqFacts

  /** The node's persistent state: the cached prompt list and the cursor of every
      file seen so far, keyed by absolute path. A cursor of -1 means "not started". */
  datatype Cycler = Cycler(prompts: map<string, seq<string>>, cursors: map<string, int>)

  /** The state of a freshly loaded node. */
  const Initial: Cycler := Cycler(map[], map[])

  /** A successful call's prompt (fixed prompt merged in) and its index in the file. */
  datatype Emitted = Emitted(prompt: string, index: nat)

  /** A call's reply and the state after it. */
  datatype Step = Step(reply: Result<Emitted, Problem>, next: Cycler)

  /** Every cached file has a cursor, which is -1 or an index of its prompt list. */
  predicate Valid(c: Cycler) {
    && c.prompts.Keys == c.cursors.Keys
    && forall key :: key in c.prompts ==> -1 <= c.cursors[key] < |c.prompts[key]|
  }

  /** The index the node reports: the prompt's index, or 0 with every warning. */
  function ReportedIndex(reply: Result<Emitted, Problem>): (i: nat)
    ensures reply.Failure? ==> i == 0
    ensures reply.Success? ==> i == reply.value.index
  {
    match reply
    case Success(e) => e.index
    case Failure(_) => 0
  }

  /** Whether a call reloads the file: it is not cached yet, or a reset is asked for. */
  predicate Reloads(c: Cycler, key: string, reset: bool) {
    key !in c.prompts || reset
  }

  /** No entry other than `key`'s is touched. */
  predicate SameElsewhere(c: Cycler, c': Cycler, key: string) {
    && c'.prompts.Keys - {key} == c.prompts.Keys - {key}
    && c'.cursors.Keys - {key} == c.cursors.Keys - {key}
    && (forall k :: k in c.prompts && k != key ==> k in c'.prompts && c'.prompts[k] == c.prompts[k])
    && (forall k :: k in c.cursors && k != key ==> k in c'.cursors && c'.cursors[k] == c.cursors[k])
  }

  /** Moves `key`'s cursor one step, wrapping round, and emits that prompt. An empty
      prompt list is reported and leaves the cursor where it is. */
  function Advance(c: Cycler, key: string, fixed: string): (s: Step)
    requires key in c.prompts
    ensures s.next.prompts == c.prompts
    ensures SameElsewhere(c, s.next, key)
    ensures |c.prompts[key]| == 0 ==> s == Step(Failure(NoPrompts), c)
    ensures s.reply.Success? <==> |c.prompts[key]| > 0 && key in c.cursors
    ensures s.reply.Success? ==>
              var ps := c.prompts[key];
              var i := s.reply.value.index;
              && i == (c.cursors[key] + 1) % |ps|
              && i < |ps|
              && s.next.cursors == c.cursors[key := i]
              && s.reply.value.prompt == MergePrefix(fixed, ps[i])
    ensures s.reply.Failure? ==> s.next == c
  {
    var ps := c.prompts[key];
    if |ps| == 0 then Step(Failure(NoPrompts), c)
    // A missing cursor raises KeyError, which the node's catch-all turns into a warning.
    else if key !in c.cursors then Step(Failure(ReadFailed), c)
    else
      // Python's `%` by a positive length agrees with Dafny's: both lie in [0, |ps|).
      var i := (c.cursors[key] + 1) % |ps|;
      Step(Success(Emitted(MergePrefix(fixed, ps[i]), i)), c.(cursors := c.cursors[key := i]))
  }

  /** One call of the node. `path` is the path as given, `kind` what the file system
      says about it, `key` its absolute path, and `read` what reading the file would
      produce; the file is only read when the call reloads it. */
  function NextPrompt(c: Cycler, path: string, fixed: string, reset: bool,
                      kind: PathKind, key: string, read: ReadResult): (s: Step)
    ensures SameElsewhere(c, s.next, key)
    ensures CheckPath(path, kind).Some? ==> s == Step(Failure(CheckPath(path, kind).value), c)
    ensures (s.reply.Failure? && (CheckPath(path, kind).Some? || !read.Text? || !Reloads(c, key, reset)))
              ==> s.next == c
    ensures CheckPath(path, kind).None? && Reloads(c, key, reset) && read.Text? ==>
              && s.next.prompts == c.prompts[key := PromptLines(read.contents)]
              && (s.reply.Failure? ==> s.next.cursors == c.cursors[key := -1])
    ensures !Reloads(c, key, reset) ==> s.next.prompts == c.prompts
    ensures s.reply.Success? ==>
              && CheckPath(path, kind).None?
              && key in s.next.prompts && key in s.next.cursors
              && s.reply.value.index == s.next.cursors[key]
              && s.reply.value.index < |s.next.prompts[key]|
              && s.reply.value.prompt == MergePrefix(fixed, s.next.prompts[key][s.reply.value.index])
  {
    match CheckPath(path, kind)
    case Some(problem) => Step(Failure(problem), c)
    case None =>
      if Reloads(c, key, reset) then
        match LoadPrompts(read)
        case Failure(problem) => Step(Failure(problem), c)
        case Success(lines) =>
          LoadedAdvance(c, key, lines, fixed);
          Advance(Loaded(c, key, lines), key, fixed)
      else Advance(c, key, fixed)
  }

  /** Advancing right after a load touches no other file's entry, caches `lines`, and
      leaves the cursor at -1 when there is nothing to answer. */
  lemma LoadedAdvance(c: Cycler, key: string, lines: seq<string>, fixed: string)
    ensures var s := Advance(Loaded(c, key, lines), key, fixed);
            && SameElsewhere(c, s.next, key)
            && s.next.prompts == c.prompts[key := lines]
            && (s.reply.Failure? ==> s.next.cursors == c.cursors[key := -1])
  {
    var l := Loaded(c, key, lines);
    var s := Advance(l, key, fixed);
    assert SameElsewhere(c, l, key);
    assert SameElsewhere(l, s.next, key);
  }

  /** The cursor the call starts counting from: -1 after a reload, else the stored one. */
  function StartCursor(c: Cycler, key: string, reset: bool): int
    requires Reloads(c, key, reset) || key in c.cursors
  {
    if Reloads(c, key, reset) then -1 else c.cursors[key]
  }

  /** A successful call's index is the start cursor plus one, modulo the number of
      prompts, so it is a valid index. */
  lemma NextIndex(c: Cycler, path: string, fixed: string, reset: bool,
                  kind: PathKind, key: string, read: ReadResult)
    requires Valid(c)
    requires NextPrompt(c, path, fixed, reset, kind, key, read).reply.Success?
    ensures var s := NextPrompt(c, path, fixed, reset, kind, key, read);
            var n := |s.next.prompts[key]|;
            && n > 0
            && s.reply.value.index == (StartCursor(c, key, reset) + 1) % n
            && 0 <= s.reply.value.index <= n - 1
  {
    var s := NextPrompt(c, path, fixed, reset, kind, key, read);
    assert CheckPath(path, kind).None?;
    if Reloads(c, key, reset) {
      var l := Loaded(c, key, LoadPrompts(read).value);
      assert s == Advance(l, key, fixed);
      assert l.cursors[key] == -1;
    } else {
      assert s == Advance(c, key, fixed);
    }
  }

  /** The index a call reports: 0 with every warning, and otherwise the new cursor,
      which is a valid index of the file's cached prompts. */
  lemma ReportedIndexInRange(c: Cycler, path: string, fixed: string, reset: bool,
                             kind: PathKind, key: string, read: ReadResult)
    requires Valid(c)
    ensures var s := NextPrompt(c, path, fixed, reset, kind, key, read);
            && (s.reply.Failure? ==> ReportedIndex(s.reply) == 0)
            && (s.reply.Success? ==>
                  && key in s.next.prompts
                  && ReportedIndex(s.reply) == s.next.cursors[key]
                  && ReportedIndex(s.reply) == (StartCursor(c, key, reset) + 1) % |s.next.prompts[key]|
                  && ReportedIndex(s.reply) < |s.next.prompts[key]|)
  {
    if NextPrompt(c, path, fixed, reset, kind, key, read).reply.Success? {
      NextIndex(c, path, fixed, reset, kind, key, read);
    }
  }

  /** A reloading call whose read raises reports that read's own warning and leaves
      every cached list and cursor as it was. */
  lemma FailedReadKeepsState(c: Cycler, path: string, fixed: string, reset: bool,
                             key: string, read: ReadResult)
    requires path != "" && Reloads(c, key, reset) && !read.Text?
    ensures var s := NextPrompt(c, path, fixed, reset, Regular, key, read);
            && s.next == c
            && (read.NotFound? ==> s.reply == Failure(FileNotFound))
            && (read.NoPermission? ==> s.reply == Failure(Problem.NoPermission))
            && (read.Unreadable? ==> s.reply == Failure(ReadFailed))
  {
    assert CheckPath(path, Regular) == None;
  }

  /** Calls preserve `Valid`, so the cursor never leaves [-1, |prompts| - 1]. */
  lemma NextPromptKeepsValid(c: Cycler, path: string, fixed: string, reset: bool,
                             kind: PathKind, key: string, read: ReadResult)
    requires Valid(c)
    ensures Valid(NextPrompt(c, path, fixed, reset, kind, key, read).next)
  {
    if CheckPath(path, kind).None? {
      if Reloads(c, key, reset) {
        if read.Text? {
          var l := Loaded(c, key, PromptLines(read.contents));
          LoadedKeepsValid(c, key, PromptLines(read.contents));
          AdvanceKeepsValid(l, key, fixed);
        }
      } else {
        AdvanceKeepsValid(c, key, fixed);
      }
    }
  }

  lemma LoadedKeepsValid(c: Cycler, key: string, lines: seq<string>)
    requires Valid(c)
    ensures Valid(Loaded(c, key, lines))
  {
  }

  lemma AdvanceKeepsValid(c: Cycler, key: string, fixed: string)
    requires Valid(c) && key in c.prompts
    ensures Valid(Advance(c, key, fixed).next)
  {
    var s := Advance(c, key, fixed);
    forall k | k in s.next.prompts
      ensures -1 <= s.next.cursors[k] < |s.next.prompts[k]|
    {
      if k != key {
        assert s.next.cursors[k] == c.cursors[k];
      }
    }
  }

  /** The state once `key`'s file has been (re)loaded with `lines`, before advancing. */
  function Loaded(c: Cycler, key: string, lines: seq<string>): Cycler {
    Cycler(c.prompts[key := lines], c.cursors[key := -1])
  }

  /** A reloading call on a readable file is an advance from the freshly loaded state. */
  lemma ReloadingCall(c: Cycler, path: string, fixed: string, reset: bool, key: string, contents: string)
    requires path != "" && Reloads(c, key, reset)
    ensures NextPrompt(c, path, fixed, reset, Regular, key, Text(contents))
            == Advance(Loaded(c, key, PromptLines(contents)), key, fixed)
  {
    assert CheckPath(path, Regular) == None;
    assert LoadPrompts(Text(contents)) == Success(PromptLines(contents));
  }

  /** The first advance after a load answers the first prompt. */
  lemma AdvanceFromStart(c: Cycler, key: string, fixed: string, lines: seq<string>)
    requires |lines| > 0
    ensures var s := Advance(Loaded(c, key, lines), key, fixed);
            s.reply == Success(Emitted(MergePrefix(fixed, lines[0]), 0)) && s.next.cursors[key] == 0
  {
    var l := Loaded(c, key, lines);
    assert l.prompts[key] == lines;
    assert l.cursors[key] == -1;
    assert (-1 + 1) % |lines| == 0;
  }

  /** A reset call on a readable file with prompts always answers with its first one. */
  lemma ResetGivesFirst(c: Cycler, path: string, fixed: string,
                        key: string, contents: string)
    requires path != ""
    requires |PromptLines(contents)| > 0
    ensures var s := NextPrompt(c, path, fixed, true, Regular, key, Text(contents));
            s.reply == Success(Emitted(MergePrefix(fixed, PromptLines(contents)[0]), 0))
            && s.next.cursors[key] == 0
  {
    ReloadingCall(c, path, fixed, true, key, contents);
    AdvanceFromStart(c, key, fixed, PromptLines(contents));
  }

  /** A file without prompts gives the warning with index 0 and leaves its cursor at
      -1 (whether it was just loaded or cached from an earlier call). */
  lemma EmptyFileWarns(c: Cycler, path: string, fixed: string, reset: bool,
                       key: string, read: ReadResult)
    requires Valid(c)
    requires path != ""
    requires if Reloads(c, key, reset) then read.Text? && PromptLines(read.contents) == []
             else c.prompts[key] == []
    ensures var s := NextPrompt(c, path, fixed, reset, Regular, key, read);
            && s.reply == Failure(NoPrompts)
            && ReportedIndex(s.reply) == 0
            && s.next.cursors[key] == -1
  {
  }

  /** The replies of `n` successive calls with the same arguments and no reset. */
  function Replay(c: Cycler, n: nat, path: string, fixed: string,
                  kind: PathKind, key: string, read: ReadResult): (rs: seq<Result<Emitted, Problem>>)
    ensures |rs| == n
    decreases n
  {
    if n == 0 then []
    else
      var s := NextPrompt(c, path, fixed, false, kind, key, read);
      [s.reply] + Replay(s.next, n - 1, path, fixed, kind, key, read)
  }

  /** Without a reset, a call on a cached file only advances its cursor. */
  lemma CachedCallAdvances(c: Cycler, path: string, fixed: string, key: string, read: ReadResult)
    requires path != "" && key in c.prompts
    ensures NextPrompt(c, path, fixed, false, Regular, key, read) == Advance(c, key, fixed)
  {
  }

  /** The replies of `n` advances of a cursor over the prompt list `ps`, with
      nothing reloaded. */
  function Cycle(ps: seq<string>, cursor: int, n: nat, fixed: string): (rs: seq<Result<Emitted, Problem>>)
    requires |ps| > 0
    ensures |rs| == n
    decreases n
  {
    if n == 0 then []
    else
      var i := (cursor + 1) % |ps|;
      [Success(Emitted(MergePrefix(fixed, ps[i]), i))] + Cycle(ps, i, n - 1, fixed)
  }

  /** One call on a cached file with prompts answers the next prompt and moves only
      the cursor there. */
  lemma CachedStep(c: Cycler, path: string, fixed: string, key: string, read: ReadResult)
    requires path != "" && key in c.prompts && key in c.cursors && |c.prompts[key]| > 0
    ensures var s := NextPrompt(c, path, fixed, false, Regular, key, read);
            var ps := c.prompts[key];
            var i := (c.cursors[key] + 1) % |ps|;
            && s.reply == Success(Emitted(MergePrefix(fixed, ps[i]), i))
            && key in s.next.prompts && key in s.next.cursors
            && s.next.prompts[key] == ps && s.next.cursors[key] == i
  {
    CachedCallAdvances(c, path, fixed, key, read);
  }

  /** The replies of `n` advances of `key`'s cursor, with nothing reloaded. */
  function Advances(c: Cycler, n: nat, key: string, fixed: string): (rs: seq<Result<Emitted, Problem>>)
    requires key in c.prompts
    ensures |rs| == n
    decreases n
  {
    if n == 0 then []
    else
      var a := Advance(c, key, fixed);
      [a.reply] + Advances(a.next, n - 1, key, fixed)
  }

  /** Calls without reset on a cached file do nothing but advance its cursor. */
  lemma {:induction false} ReplayIsAdvances(c: Cycler, n: nat, path: string, fixed: string,
                                            key: string, read: ReadResult)
    requires path != "" && key in c.prompts
    ensures Replay(c, n, path, fixed, Regular, key, read) == Advances(c, n, key, fixed)
    decreases n
  {
    if n > 0 {
      var a := Advance(c, key, fixed);
      CachedCallAdvances(c, path, fixed, key, read);
      ReplayIsAdvances(a.next, n - 1, path, fixed, key, read);
    }
  }

  /** One advance over a non-empty list answers the prompt after the cursor and moves
      the cursor there, as the first step of a cycle does. */
  lemma AdvanceStep(c: Cycler, n: nat, key: string, fixed: string)
    requires n > 0 && key in c.prompts && key in c.cursors && |c.prompts[key]| > 0
    ensures var ps := c.prompts[key];
            var i := (c.cursors[key] + 1) % |ps|;
            var a := Advance(c, key, fixed);
            && a.reply == Success(Emitted(MergePrefix(fixed, ps[i]), i))
            && key in a.next.prompts && key in a.next.cursors
            && a.next.prompts[key] == ps && a.next.cursors[key] == i
            && Advances(c, n, key, fixed) == [a.reply] + Advances(a.next, n - 1, key, fixed)
            && Cycle(ps, c.cursors[key], n, fixed) == [a.reply] + Cycle(ps, i, n - 1, fixed)
  {
  }

  /** Advancing a cursor over a non-empty list is cycling through it. */
  lemma {:induction false} AdvancesIsCycle(c: Cycler, n: nat, key: string, fixed: string)
    requires key in c.prompts && key in c.cursors && |c.prompts[key]| > 0
    ensures Advances(c, n, key, fixed) == Cycle(c.prompts[key], c.cursors[key], n, fixed)
    decreases n
  {
    if n > 0 {
      var a := Advance(c, key, fixed);
      AdvanceStep(c, n, key, fixed);
      AdvancesIsCycle(a.next, n - 1, key, fixed);
      SeqFacts.ConsCongruent(a.reply, Advances(a.next, n - 1, key, fixed),
                             Cycle(c.prompts[key], a.next.cursors[key], n - 1, fixed));
    }
  }

  /** Replaying calls on a cached file with prompts is cycling through its prompts. */
  lemma ReplayIsCycle(c: Cycler, n: nat, path: string, fixed: string,
                      key: string, read: ReadResult)
    requires path != "" && key in c.prompts && key in c.cursors && |c.prompts[key]| > 0
    ensures Replay(c, n, path, fixed, Regular, key, read) == Cycle(c.prompts[key], c.cursors[key], n, fixed)
  {
    ReplayIsAdvances(c, n, path, fixed, key, read);
    AdvancesIsCycle(c, n, key, fixed);
  }

  /** Cycling walks the prompts in order from the cursor, wrapping round: the j-th
      advance answers with the index j + 1 steps on. */
  lemma {:induction false} CycleWalksInOrder(ps: seq<string>, cursor: int, n: nat, j: nat, fixed: string)
    requires |ps| > 0 && j < n
    ensures var i := Wrap.Walk(cursor, j, |ps|);
            Cycle(ps, cursor, n, fixed)[j] == Success(Emitted(MergePrefix(fixed, ps[i]), i))
    decreases j
  {
    if j > 0 {
      var i := (cursor + 1) % |ps|;
      CycleTail(ps, cursor, n, j, fixed);
      CycleWalksInOrder(ps, i, n - 1, j - 1, fixed);
      Wrap.WalkShift(cursor, j - 1, |ps|);
    }
  }

  lemma CycleTail(ps: seq<string>, cursor: int, n: nat, j: nat, fixed: string)
    requires |ps| > 0 && 0 < j < n
    ensures Cycle(ps, cursor, n, fixed)[j] == Cycle(ps, (cursor + 1) % |ps|, n - 1, fixed)[j - 1]
  {
  }

  /** Calls without reset on a cached file walk its prompts in order from the cursor,
      wrapping round: the j-th call answers with the index j + 1 steps on. */
  lemma ReplayWalksInOrder(c: Cycler, n: nat, j: nat, path: string, fixed: string,
                           key: string, read: ReadResult)
    requires path != "" && j < n
    requires key in c.prompts && key in c.cursors && |c.prompts[key]| > 0
    ensures var ps := c.prompts[key];
            var i := Wrap.Walk(c.cursors[key], j, |ps|);
            Replay(c, n, path, fixed, Regular, key, read)[j] == Success(Emitted(MergePrefix(fixed, ps[i]), i))
  {
    ReplayIsCycle(c, n, path, fixed, key, read);
    CycleWalksInOrder(c.prompts[key], c.cursors[key], n, j, fixed);
  }

  /** After a reset, N + 1 calls on a file with N prompts answer 0, 1, ..., N - 1, 0:
      the j-th of them (counting the reset call as 0) answers prompt j, and the last
      repeats the first. */
  lemma ResetThenCycle(c: Cycler, path: string, fixed: string, key: string, contents: string, j: nat)
    requires path != ""
    requires 0 < j <= |PromptLines(contents)|
    ensures var first := NextPrompt(c, path, fixed, true, Regular, key, Text(contents));
            var ps := PromptLines(contents);
            var i := if j < |ps| then j else 0;
            Replay(first.next, |ps|, path, fixed, Regular, key, Text(contents))[j - 1]
              == Success(Emitted(MergePrefix(fixed, ps[i]), i))
  {
    var first := NextPrompt(c, path, fixed, true, Regular, key, Text(contents));
    var ps := PromptLines(contents);
    ResetGivesFirst(c, path, fixed, key, contents);
    ReplayWalksInOrder(first.next, |ps|, j - 1, path, fixed, key, Text(contents));
    Wrap.WalkFromFirst(j, |ps|);
  }

  /** The worked example: a file with lines a, b, c answers a, b, c, a with indices
      0, 1, 2, 0 over four calls from a fresh node. */
  lemma ThreeLineExample()
    ensures var first := NextPrompt(Initial, "w.txt", "", false, Regular, "/w.txt", Text("a\nb\nc"));
            && first.reply == Success(Emitted("a", 0))
            && Replay(first.next, 3, "w.txt", "", Regular, "/w.txt", Text("a\nb\nc"))
               == [Success(Emitted("b", 1)), Success(Emitted("c", 2)), Success(Emitted("a", 0))]
  {
    ExampleLines();
    FreshCycleOfThree("w.txt", "/w.txt", "a\nb\nc");
  }

  /** Four calls on a fresh node, for a file with three prompts and no fixed prompt:
      the first loads the file and answers prompt 0, the next three answer 1, 2, 0. */
  lemma FreshCycleOfThree(path: string, key: string, text: string)
    requires path != "" && |PromptLines(text)| == 3
    ensures var ps := PromptLines(text);
            var first := NextPrompt(Initial, path, "", false, Regular, key, Text(text));
            && first.reply == Success(Emitted(ps[0], 0))
            && Replay(first.next, 3, path, "", Regular, key, Text(text))
               == [Success(Emitted(ps[1], 1)), Success(Emitted(ps[2], 2)), Success(Emitted(ps[0], 0))]
  {
    var ps := PromptLines(text);
    FreshCallLoads(path, "", key, text);
    ResetGivesFirst(Initial, path, "", key, text);
    var first := NextPrompt(Initial, path, "", true, Regular, key, Text(text));
    assert first.next.prompts[key] == ps;
    ReplayIsCycle(first.next, 3, path, "", key, Text(text));
    CycleOfThree(ps, "");
  }

  /** Three advances from the start over three prompts answer 1, 2, 0. */
  lemma CycleOfThree(ps: seq<string>, fixed: string)
    requires |ps| == 3
    ensures Cycle(ps, 0, 3, fixed)
            == [Success(Emitted(MergePrefix(fixed, ps[1]), 1)), Success(Emitted(MergePrefix(fixed, ps[2]), 2)),
                Success(Emitted(MergePrefix(fixed, ps[0]), 0))]
  {
    var r := Cycle(ps, 0, 3, fixed);
    var two := Cycle(ps, 1, 2, fixed);
    var last := Cycle(ps, 2, 1, fixed);
    assert r[1] == two[0];
    assert r[2] == two[1] == last[0];
    SeqFacts.ThreeElements(r, Success(Emitted(MergePrefix(fixed, ps[1]), 1)), Success(Emitted(MergePrefix(fixed, ps[2]), 2)),
                           Success(Emitted(MergePrefix(fixed, ps[0]), 0)));
  }

  lemma ExampleLines()
    ensures PromptLines("a\nb\nc") == ["a", "b", "c"]
  {
    ThreeLines("a", "b", "c");
    assert "a" + "\n" + "b" + "\n" + "c" == "a\nb\nc";
  }

  /** Three one-character lines separated by newlines are read back as three prompts. */
  lemma ThreeLines(a: string, b: string, c: string)
    requires |a| == 1 && !IsLineBreak(a[0]) && !Text.IsSpace(a[0])
    requires |b| == 1 && !IsLineBreak(b[0]) && !Text.IsSpace(b[0])
    requires |c| == 1 && !IsLineBreak(c[0]) && !Text.IsSpace(c[0])
    ensures PromptLines(a + "\n" + b + "\n" + c) == [a, b, c]
  {
    var ab := (a + "\n") + (b + "\n");
    TwoLines(a, b);
    AppendWord(ab, [a, b], c);
    SeqFacts.AppendAssoc(a + "\n", b, "\n");
    SeqFacts.PairThenOne(a, b, c);
  }

  lemma TwoLines(a: string, b: string)
    requires |a| == 1 && !IsLineBreak(a[0]) && !Text.IsSpace(a[0])
    requires |b| == 1 && !IsLineBreak(b[0]) && !Text.IsSpace(b[0])
    ensures PromptLines((a + "\n") + (b + "\n")) == [a, b]
  {
    SingleLine(a);
    SingleLine(b);
    PromptLinesAppend(a + "\n", b + "\n");
  }

  lemma AppendWord(text: string, lines: seq<string>, c: string)
    requires |text| > 0 && text[|text| - 1] == '\n' && PromptLines(text) == lines
    requires |c| == 1 && !IsLineBreak(c[0]) && !Text.IsSpace(c[0])
    ensures PromptLines(text + c) == lines + [c]
  {
    OneWord(c);
    PromptLinesAppend(text, c);
  }

  lemma SingleLine(t: string)
    requires |t| == 1 && !IsLineBreak(t[0]) && !Text.IsSpace(t[0])
    ensures PromptLines(t + "\n") == [t]
  {
    PromptLinesOfLine(t);
  }

  lemma OneWord(t: string)
    requires |t| == 1 && !IsLineBreak(t[0]) && !Text.IsSpace(t[0])
    ensures PromptLines(t) == [t]
  {
    assert t[1..] == [];
    assert Pieces(t[1..]) == [""];
    assert [t[0]] + "" == t;
    assert Pieces(t) == [t];
    Text.StripOfStripped(t);
    KeepOne(t);
  }

  /** On a fresh node the first call loads the file, exactly as a reset would. */
  lemma FreshCallLoads(path: string, fixed: string, key: string, contents: string)
    ensures NextPrompt(Initial, path, fixed, false, Regular, key, Text(contents))
            == NextPrompt(Initial, path, fixed, true, Regular, key, Text(contents))
  {
  }
}

/**
 The image sequence loader (`ImageSequenceLoader.execute`): every call returns
 the next image of a folder, in modification-time order, wrapping round at the
 end. The folder is listed again only when its standardised path differs from
 the one recorded. Decoding the chosen file into the host's image tensor is not
 modelled: a successful call returns the folder and file name it would decode.
 */
module ImageSequence {
  import opened Results
  import opened Text
  import opened MtimeSort
  import Wrap

  /** One directory entry as the scan sees it: its name, whether `os.path.isfile`
      holds for it, and `os.path.getmtime`. */
  datatype Entry = Entry(name: string, isFile: bool, mtime: int)

  /** What listing the folder produced. */
  datatype Listing =
    | Listed(entries: seq<Entry>)
    | FolderNotFound     // os.listdir raised FileNotFoundError
    | ListingFailed      // any other exception while scanning

  /** The node's persistent state: the standardised path last recorded, the cached
      file names, and the cursor (-1 before the first image). */
  datatype Loader = Loader(lastPath: string, images: seq<string>, cursor: int)

  const Initial: Loader := Loader("", [], -1)

  /** The fatal conditions, raised to the host. */
  datatype Fatal =
    | FolderMissing(path: string)  // the folder could not be listed (not found)
    | ScanFailed                   // another exception while scanning
    | NoImages                     // nothing to cycle through

  /** The image a successful call goes on to open: `os.path.join(folder, name)`.
      Opening it, and the exception raised when it is not there, is not modelled. */
  datatype Shown = Shown(folder: string, name: string)

  datatype Step = Step(reply: Result<Shown, Fatal>, next: Loader)

  /** The extensions the scan accepts, compared after lower-casing the name. */
  const ImageExtensions: seq<string> := [".png", ".jpg", ".jpeg", ".webp"]

  predicate HasImageExtension(name: string) {
    exists k :: 0 <= k < |ImageExtensions| && EndsWith(Lower(name), ImageExtensions[k])
  }

  /** The extension test ignores ASCII case: names that differ only in the case of
      their letters are both accepted or both refused. */
  lemma ExtensionTestIgnoresCase(a: string, b: string)
    requires SameIgnoringCase(a, b)
    ensures HasImageExtension(a) <==> HasImageExtension(b)
  {
    LowerEqualIffSameIgnoringCase(a, b);
  }

  /** Capital extensions are accepted; an extension outside the four is not. */
  lemma ExtensionExamples()
    ensures HasImageExtension("A.PNG")
    ensures !HasImageExtension("a.gif")
  {
    assert Lower("A.PNG") == "a.png";
    assert EndsWith(Lower("A.PNG"), ImageExtensions[0]);
    var g := Lower("a.gif");
    assert g == "a.gif";
    forall k | 0 <= k < |ImageExtensions| ensures !EndsWith(g, ImageExtensions[k]) {
      var e := ImageExtensions[k];
      assert |e| <= |g| ==> g[|g| - 1] != e[|e| - 1];
    }
  }

  /** `os.path.abspath(folder_path)` (`absolute`, or `None` when it raised and the path
      is used as given) with every backslash turned into a forward slash. */
  function Standardize(folderPath: string, absolute: Option<string>): (r: string)
    ensures |r| == |absolute.GetOr(folderPath)|
    ensures forall k :: 0 <= k < |r| ==> r[k] != '\\'
  {
    ReplaceChar(absolute.GetOr(folderPath), '\\', '/')
  }

  /** The entries the scan keeps: regular files with an image extension. */
  function Eligible(entries: seq<Entry>): (r: seq<Candidate>)
    ensures |r| <= |entries|
    ensures forall k :: 0 <= k < |r| ==> HasImageExtension(r[k].name)
  {
    if |entries| == 0 then []
    else
      var e := entries[0];
      (if e.isFile && HasImageExtension(e.name) then [Candidate(e.name, e.mtime)] else [])
      + Eligible(entries[1..])
  }

  /** A name is among the eligible candidates exactly when some regular file with an
      image extension carries it. */
  lemma {:induction false} EligibleExactly(entries: seq<Entry>, c: Candidate)
    ensures c in Eligible(entries) <==>
            exists k :: 0 <= k < |entries| && entries[k] == Entry(c.name, true, c.mtime)
                        && HasImageExtension(c.name)
    decreases |entries|
  {
    if |entries| > 0 {
      EligibleExactly(entries[1..], c);
      var e := entries[0];
      if exists k :: 0 <= k < |entries| && entries[k] == Entry(c.name, true, c.mtime)
                     && HasImageExtension(c.name) {
        var k :| 0 <= k < |entries| && entries[k] == Entry(c.name, true, c.mtime)
                 && HasImageExtension(c.name);
        if k > 0 {
          assert entries[1..][k - 1] == entries[k];
        }
      }
      if c in Eligible(entries[1..]) {
        var k :| 0 <= k < |entries[1..]| && entries[1..][k] == Entry(c.name, true, c.mtime)
                 && HasImageExtension(c.name);
        assert entries[k + 1] == entries[1..][k];
      }
    }
  }

  /** The scan's result before the names are taken: eligible files, oldest first. */
  function ScanCandidates(entries: seq<Entry>): (r: seq<Candidate>)
    ensures SortedByMtime(r)
    ensures multiset(r) == multiset(Eligible(entries))
  {
    SortByMtime(Eligible(entries))
  }

  function Names(cs: seq<Candidate>): (r: seq<string>)
    ensures |r| == |cs|
    ensures forall k :: 0 <= k < |cs| ==> r[k] == cs[k].name
  {
    seq(|cs|, k requires 0 <= k < |cs| => cs[k].name)
  }

  /** The cached file list a scan produces. */
  function Scan(entries: seq<Entry>): (r: seq<string>)
    ensures |r| == |Eligible(entries)|
  {
    Names(ScanCandidates(entries))
  }

  /** The scanned list holds exactly the names of regular files with an image
      extension (as many times as they are listed), ordered by non-decreasing
      modification time, with files of equal time in listing order. */
  lemma ScanContents(entries: seq<Entry>)
    ensures var cs := ScanCandidates(entries);
            && Scan(entries) == Names(cs)
            && SortedByMtime(cs)
            && (forall t :: WithMtime(cs, t) == WithMtime(Eligible(entries), t))
            && (forall c :: c in cs <==>
                  exists k :: 0 <= k < |entries| && entries[k] == Entry(c.name, true, c.mtime)
                              && HasImageExtension(c.name))
  {
    var cs := ScanCandidates(entries);
    forall t ensures WithMtime(cs, t) == WithMtime(Eligible(entries), t) {
      SortIsStable(Eligible(entries), t);
    }
    forall c ensures c in cs <==>
                  exists k :: 0 <= k < |entries| && entries[k] == Entry(c.name, true, c.mtime)
                              && HasImageExtension(c.name) {
      EligibleExactly(entries, c);
      assert c in cs <==> c in multiset(cs);
      assert c in Eligible(entries) <==> c in multiset(Eligible(entries));
    }
  }

  /** Moves the cursor one step, wrapping round, and picks that file. */
  function Pick(st: Loader, folder: string): (s: Step)
    ensures s.next.lastPath == st.lastPath && s.next.images == st.images
    ensures |st.images| == 0 <==> s.reply.Failure?
    ensures |st.images| == 0 ==> s == Step(Failure(NoImages), st)
    ensures |st.images| > 0 ==>
              && s.next.cursor == (st.cursor + 1) % |st.images|
              && s.reply == Success(Shown(folder, st.images[s.next.cursor]))
  {
    if |st.images| == 0 then Step(Failure(NoImages), st)
    else
      // Python's `%` by a positive length agrees with Dafny's.
      var i := (st.cursor + 1) % |st.images|;
      Step(Success(Shown(folder, st.images[i])), st.(cursor := i))
  }

  /** One call of the node, as written: the new path is recorded before the folder
      is listed, so it stays recorded even when listing fails. */
  function Execute(st: Loader, folderPath: string, absolute: Option<string>, listing: Listing): (s: Step)
    ensures s.next.lastPath == Standardize(folderPath, absolute)
    ensures Standardize(folderPath, absolute) == st.lastPath ==> s == Pick(st, st.lastPath)
    ensures Standardize(folderPath, absolute) != st.lastPath && listing.Listed? ==>
              s == Pick(Loader(Standardize(folderPath, absolute), Scan(listing.entries), -1),
                        Standardize(folderPath, absolute))
    ensures Standardize(folderPath, absolute) != st.lastPath && !listing.Listed? ==>
              && s.reply.Failure? && s.reply.error != NoImages
              && s.next == st.(lastPath := Standardize(folderPath, absolute))
  {
    var path := Standardize(folderPath, absolute);
    if path != st.lastPath then
      var recorded := st.(lastPath := path);
      match listing
      case Listed(entries) => Pick(Loader(path, Scan(entries), -1), path)
      case FolderNotFound => Step(Failure(FolderMissing(path)), recorded)
      case ListingFailed => Step(Failure(ScanFailed), recorded)
    else Pick(st, path)
  }

  /** A call on the recorded path keeps the cached list and advances the cursor
      modulo its length; the listing is not consulted. */
  lemma SamePathAdvances(st: Loader, folderPath: string, absolute: Option<string>,
                         listing: Listing, other: Listing)
    requires Standardize(folderPath, absolute) == st.lastPath
    requires |st.images| > 0
    ensures var s := Execute(st, folderPath, absolute, listing);
            && s.next.images == st.images
            && s.next.cursor == (st.cursor + 1) % |st.images|
            && s.reply == Success(Shown(st.lastPath, st.images[s.next.cursor]))
            && s == Execute(st, folderPath, absolute, other)
  {
  }

  /** A call on a new path rescans and restarts, so it answers the scan's first file. */
  lemma NewPathRestarts(st: Loader, folderPath: string, absolute: Option<string>,
                        entries: seq<Entry>)
    requires Standardize(folderPath, absolute) != st.lastPath
    requires |Scan(entries)| > 0
    ensures var s := Execute(st, folderPath, absolute, Listed(entries));
            && s.next == Loader(Standardize(folderPath, absolute), Scan(entries), 0)
            && s.reply == Success(Shown(Standardize(folderPath, absolute), Scan(entries)[0]))
  {
    var path := Standardize(folderPath, absolute);
    var restarted := Loader(path, Scan(entries), -1);
    assert Execute(st, folderPath, absolute, Listed(entries)) == Pick(restarted, path);
    assert (restarted.cursor + 1) % |restarted.images| == 0;
  }

  /** Two paths with the same standardised form never reset the cursor: after a call
      with one, a call with the other continues where it left off. */
  lemma EquivalentPathsDoNotReset(st: Loader, p1: string, a1: Option<string>, l1: Listing,
                                  p2: string, a2: Option<string>, l2: Listing)
    requires Standardize(p1, a1) == Standardize(p2, a2)
    ensures var s1 := Execute(st, p1, a1, l1);
            Execute(s1.next, p2, a2, l2) == Pick(s1.next, Standardize(p2, a2))
  {
  }

  /** With nothing cached after the path check, the call fails and names no file. */
  lemma EmptyListFails(st: Loader, folderPath: string, absolute: Option<string>, listing: Listing)
    requires Standardize(folderPath, absolute) == st.lastPath ==> st.images == []
    requires Standardize(folderPath, absolute) != st.lastPath && listing.Listed? ==>
               Scan(listing.entries) == []
    ensures Execute(st, folderPath, absolute, listing).reply.Failure?
  {
  }

  /** The replies of `n` successive calls with the same arguments. */
  function Replay(st: Loader, n: nat, folderPath: string, absolute: Option<string>,
                  listing: Listing): (rs: seq<Result<Shown, Fatal>>)
    ensures |rs| == n
    decreases n
  {
    if n == 0 then []
    else
      var s := Execute(st, folderPath, absolute, listing);
      [s.reply] + Replay(s.next, n - 1, folderPath, absolute, listing)
  }

  lemma ReplayUnfold(st: Loader, n: nat, j: nat, folderPath: string, absolute: Option<string>,
                     listing: Listing)
    requires j < n && Standardize(folderPath, absolute) == st.lastPath
    ensures var s := Pick(st, st.lastPath);
            var rs := Replay(st, n, folderPath, absolute, listing);
            && (j == 0 ==> rs[j] == s.reply)
            && (j > 0 ==> rs[j] == Replay(s.next, n - 1, folderPath, absolute, listing)[j - 1])
  {
  }

  /** On an unchanged path the calls walk the cached list in order from the cursor,
      wrapping round. */
  lemma {:induction false} ReplayWalksInOrder(st: Loader, n: nat, j: nat, folderPath: string,
                                              absolute: Option<string>, listing: Listing)
    requires j < n && Standardize(folderPath, absolute) == st.lastPath && |st.images| > 0
    ensures var i := Wrap.Walk(st.cursor, j, |st.images|);
            Replay(st, n, folderPath, absolute, listing)[j] == Success(Shown(st.lastPath, st.images[i]))
    decreases j
  {
    ReplayUnfold(st, n, j, folderPath, absolute, listing);
    if j > 0 {
      var s := Pick(st, st.lastPath);
      assert s.next == st.(cursor := (st.cursor + 1) % |st.images|);
      ReplayWalksInOrder(s.next, n - 1, j - 1, folderPath, absolute, listing);
      Wrap.WalkShift(st.cursor, j - 1, |st.images|);
    }
  }

  /** With M images in a newly given folder, M + 1 calls answer the files at
      positions 0, 1, ..., M - 1, 0 of the scanned list. */
  lemma NewFolderCycle(st: Loader, folderPath: string, absolute: Option<string>,
                       entries: seq<Entry>, j: nat)
    requires Standardize(folderPath, absolute) != st.lastPath
    requires 0 < j <= |Scan(entries)|
    ensures var first := Execute(st, folderPath, absolute, Listed(entries));
            var names := Scan(entries);
            var i := if j < |names| then j else 0;
            Replay(first.next, |names|, folderPath, absolute, Listed(entries))[j - 1]
              == Success(Shown(Standardize(folderPath, absolute), names[i]))
  {
    var first := Execute(st, folderPath, absolute, Listed(entries));
    var names := Scan(entries);
    NewPathRestarts(st, folderPath, absolute, entries);
    ReplayWalksInOrder(first.next, |names|, j - 1, folderPath, absolute, Listed(entries));
    Wrap.WalkFromFirst(j, |names|);
  }

  // A failed listing leaves the new path recorded, so the next call on that path
  // skips the scan and cycles the previous folder's names inside the new folder.
  // The corrected call below records the path only once its folder is listed.

  /** The corrected call: the path is recorded together with its scan, so a failed
      listing leaves the node exactly as it was. */
  function ExecuteRecordingAfterScan(st: Loader, folderPath: string, absolute: Option<string>,
                                     listing: Listing): (s: Step)
    ensures Standardize(folderPath, absolute) != st.lastPath && !listing.Listed? ==>
              s.reply.Failure? && s.next == st
    ensures s.reply.Success? ==> s.next.lastPath == Standardize(folderPath, absolute)
  {
    var path := Standardize(folderPath, absolute);
    if path != st.lastPath then
      match listing
      case Listed(entries) => Pick(Loader(path, Scan(entries), -1), path)
      case FolderNotFound => Step(Failure(FolderMissing(path)), st)
      case ListingFailed => Step(Failure(ScanFailed), st)
    else Pick(st, path)
  }

  /** Whenever the folder is listed, or no listing is needed, the corrected call and
      the call as written behave identically; all the cycling facts above hold of both. */
  lemma CorrectionOnlyAffectsFailedScans(st: Loader, folderPath: string, absolute: Option<string>,
                                         listing: Listing)
    requires Standardize(folderPath, absolute) == st.lastPath || listing.Listed?
    ensures ExecuteRecordingAfterScan(st, folderPath, absolute, listing)
            == Execute(st, folderPath, absolute, listing)
  {
  }

  /** What listing a folder gives when the folders do not change: `tree` maps each
      existing folder's standardised path to its entries. */
  function ListingIn(tree: map<string, seq<Entry>>, path: string): Listing
  {
    if path in tree then Listed(tree[path]) else FolderNotFound
  }

  /** The cached names are the scan of the recorded folder (or there are none). */
  predicate MatchesTree(st: Loader, tree: map<string, seq<Entry>>) {
    st.images == [] || (st.lastPath in tree && st.images == Scan(tree[st.lastPath]))
  }

  /** The corrected call keeps the cache faithful to the folders, so every image it
      answers is a scanned image of the very folder it is loaded from. */
  lemma CorrectedServesOnlyScannedImages(st: Loader, tree: map<string, seq<Entry>>,
                                         folderPath: string, absolute: Option<string>)
    requires MatchesTree(st, tree)
    ensures var path := Standardize(folderPath, absolute);
            var s := ExecuteRecordingAfterScan(st, folderPath, absolute, ListingIn(tree, path));
            && MatchesTree(s.next, tree)
            && (s.reply.Success? ==>
                  && s.reply.value.folder in tree
                  && s.reply.value.name in Scan(tree[s.reply.value.folder]))
  {
  }

  /** The folder tree of the counterexample below: only /a exists, holding x.png. */
  const OnlyA: map<string, seq<Entry>> := map["/a" := [Entry("x.png", true, 1)]]

  lemma ScanOfOnlyA()
    ensures Scan(OnlyA["/a"]) == ["x.png"]
  {
    var es := [Entry("x.png", true, 1)];
    assert Lower("x.png") == "x.png";
    assert EndsWith(Lower("x.png"), ImageExtensions[0]);
    assert HasImageExtension("x.png");
    assert es[1..] == [];
    assert Eligible(es) == [Candidate("x.png", 1)];
    assert SortByMtime([Candidate("x.png", 1)]) == [Candidate("x.png", 1)];
  }

  /** The call as written breaks that: after listing /a, a call on a missing /b fails
      but records /b. The next call on /b does not list /b again: it picks /a's file
      x.png and goes on to open /b/x.png, which is not a scanned image of /b (here /b
      does not even exist). The corrected call leaves the node as it was after /a, so
      it reports the missing folder on every retry. */
  lemma StaleListAfterFailedScan()
    ensures var s1 := Execute(Initial, "a", Some("/a"), ListingIn(OnlyA, "/a"));
            var s2 := Execute(s1.next, "b", Some("/b"), ListingIn(OnlyA, "/b"));
            var s3 := Execute(s2.next, "b", Some("/b"), ListingIn(OnlyA, "/b"));
            && s1.reply == Success(Shown("/a", "x.png"))
            && s2.reply == Failure(FolderMissing("/b"))
            && s3.reply == Success(Shown("/b", "x.png"))
            && "/b" !in OnlyA
            && !MatchesTree(s2.next, OnlyA)
            && ExecuteRecordingAfterScan(s1.next, "b", Some("/b"), ListingIn(OnlyA, "/b"))
               == Step(Failure(FolderMissing("/b")), s1.next)
  {
    ScanOfOnlyA();
    assert Standardize("a", Some("/a")) == "/a";
    assert Standardize("b", Some("/b")) == "/b";
    var s1 := Execute(Initial, "a", Some("/a"), ListingIn(OnlyA, "/a"));
    assert s1 == Step(Success(Shown("/a", "x.png")), Loader("/a", ["x.png"], 0));
    var s2 := Execute(s1.next, "b", Some("/b"), ListingIn(OnlyA, "/b"));
    assert s2 == Step(Failure(FolderMissing("/b")), Loader("/b", ["x.png"], 0));
    var s3 := Execute(s2.next, "b", Some("/b"), ListingIn(OnlyA, "/b"));
    assert s3.reply == Success(Shown("/b", "x.png"));
  }
}

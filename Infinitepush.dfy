/**
 * Scratch-branch pushes: commits pushed to a scratch branch are stored as a
 * bundle in a bundle store and indexed by node and bookmark, instead of being
 * added to the server's repository.
 *
 * The repository, the bundle being pushed and the peer are abstracted to what
 * the decisions look at: the revisions of a revset and their heads, whether
 * a node is known, and descent from a node.  The bundle index is two maps,
 * bookmark to node and node to bundle key; the bundle store is the list of
 * blobs written to it.
 */
module Infinitepush {
  import opened Wrappers
  import opened Strings

  datatype Abort = Abort(message: string, hint: Option<string>)

  /** A changeset as the push sees it: full hex node, short id as printed, description. */
  datatype Commit = Commit(node: string, shortId: string, description: string)

  /** A bundle2 part: its type and its advisory parameters. */
  datatype Part = Part(partType: string, params: map<string, string>, data: seq<int>)

  /**
   * The repository opened on the pushed bundle: `sort(bundle())`, the heads
   * of `bundle()`, membership of a node, and `c in node::` (descent,
   * reflexive).
   */
  datatype BundleRepo = BundleRepo(
    revs: seq<Commit>,
    heads: set<string>,
    contains: string -> bool,
    descendsFrom: (Commit, string) -> bool)

  datatype Phase = Public | Draft | Secret

  const SCRATCH_BRANCH_PART_TYPE: string := "b2x:infinitepush"
  const BOOKMARKS_NAMESPACE: string := "bookmarks"
  /** At most this many commits are listed one by one in the push summary. */
  const MAX_OUTPUT: nat := 10
  /** A description is cut to this many characters of its first line. */
  const FIRST_LINE_MAX: nat := 50
  const ELLIPSIS_LINE: string := "    ...\n"

  // ---------------------------------------------------------------------------
  // `validaterevset` and `_getrevs`
  // ---------------------------------------------------------------------------

  /** Accept a revset for a scratch push: not empty, and a single head. */
  function ValidateRevset<T, H>(revs: seq<T>, heads: set<H>): (r: Outcome<Abort>)
    ensures r.Pass? <==> revs != [] && |heads| <= 1
    ensures revs == [] ==> r == Fail(Abort("nothing to push", None))
    ensures revs != [] && |heads| > 1 ==>
      r == Fail(Abort("cannot push more than one head to a scratch branch", None))
  {
    if revs == [] then Fail(Abort("nothing to push", None))
    else if |heads| > 1 then Fail(Abort("cannot push more than one head to a scratch branch", None))
    else Pass
  }

  /** Some revision of the bundle descends from `node`. */
  predicate FastForwardFrom(bundle: BundleRepo, node: string) {
    exists i :: 0 <= i < |bundle.revs| && bundle.descendsFrom(bundle.revs[i], node)
  }

  /** The revisions to store: the sorted bundle, if the push is new, fast-forward or forced. */
  function GetRevs(bundle: BundleRepo, oldnode: Option<string>, force: bool): (r: Result<seq<Commit>, Abort>)
    ensures ValidateRevset(bundle.revs, bundle.heads).Fail? ==> r == Failure(ValidateRevset(bundle.revs, bundle.heads).error)
    ensures r.Success? <==>
      ValidateRevset(bundle.revs, bundle.heads).Pass? &&
      (oldnode.None? || (bundle.contains(oldnode.value) && FastForwardFrom(bundle, oldnode.value)) || force)
    ensures r.Success? ==> r.value == bundle.revs
    ensures ValidateRevset(bundle.revs, bundle.heads).Pass? && r.Failure? ==>
      r.error == Abort("non-forward push", Some("use --force to override"))
  {
    match ValidateRevset(bundle.revs, bundle.heads)
    case Fail(e) => Failure(e)
    case Pass =>
      if oldnode.None? then Success(bundle.revs)
      else if bundle.contains(oldnode.value) && FastForwardFrom(bundle, oldnode.value) then Success(bundle.revs)
      else if force then Success(bundle.revs)
      else Failure(Abort("non-forward push", Some("use --force to override")))
  }

  // ---------------------------------------------------------------------------
  // `getscratchbranchpart`
  // ---------------------------------------------------------------------------

  function UpperChar(c: char): (u: char)
    ensures 'a' <= c <= 'z' ==> 'A' <= u <= 'Z' && u as int - 'A' as int == c as int - 'a' as int
    ensures !('a' <= c <= 'z') ==> u == c
  {
    if 'a' <= c <= 'z' then (c as int - 'a' as int + 'A' as int) as char else c
  }

  /** `str.upper()` on ASCII text. */
  function Upper(s: string): (u: string)
    ensures |u| == |s|
    ensures forall i :: 0 <= i < |s| ==> u[i] == UpperChar(s[i])
  {
    seq(|s|, i requires 0 <= i < |s| => UpperChar(s[i]))
  }

  /** The mandatory part type is the upper-cased scratch-branch part type. */
  lemma PartTypeIsUpperCase()
    ensures Upper(SCRATCH_BRANCH_PART_TYPE) == "B2X:INFINITEPUSH"
  {
  }

  /** The advisory parameters of the part. */
  function PartParams(bookmark: Option<string>, create: bool, force: bool): (params: map<string, string>)
    ensures "bookmark" in params <==> Truthy(bookmark)
    ensures "bookmark" in params ==> params["bookmark"] == bookmark.value
    ensures "create" in params <==> Truthy(bookmark)
    ensures "create" in params ==> (params["create"] == "1" <==> create) && (params["create"] == "0" <==> !create)
    ensures "force" in params <==> force
    ensures "force" in params ==> params["force"] == "1"
    ensures params.Keys <= {"bookmark", "create", "force"}
  {
    var withBookmark := if Truthy(bookmark) then map["bookmark" := bookmark.value, "create" := if create then "1" else "0"] else map[];
    if force then withBookmark["force" := if force then "1" else "0"] else withBookmark
  }

  /**
   * The scratch-branch part for a push of the outgoing `missing` commits,
   * whose heads are `missingHeads`, to a peer with capabilities `peerCaps`.
   */
  function GetScratchBranchPart(missing: seq<string>, missingHeads: set<string>, peerCaps: set<string>,
                                changegroup: seq<int>, force: bool, bookmark: Option<string>, create: bool)
    : (r: Result<Part, Abort>)
    ensures missing == [] ==> r == Failure(Abort("no commits to push", None))
    ensures missing != [] && SCRATCH_BRANCH_PART_TYPE !in peerCaps ==>
      r == Failure(Abort("no server support for '" + SCRATCH_BRANCH_PART_TYPE + "'", None))
    ensures missing != [] && SCRATCH_BRANCH_PART_TYPE in peerCaps ==>
      (r.Success? <==> |missingHeads| <= 1)
    ensures r.Success? ==> r.value == Part(Upper(SCRATCH_BRANCH_PART_TYPE), PartParams(bookmark, create, force), changegroup)
  {
    if missing == [] then Failure(Abort("no commits to push", None))
    else if SCRATCH_BRANCH_PART_TYPE !in peerCaps then
      Failure(Abort("no server support for '" + SCRATCH_BRANCH_PART_TYPE + "'", None))
    else match ValidateRevset(missing, missingHeads)
      case Fail(e) => Failure(e)
      case Pass => Success(Part(Upper(SCRATCH_BRANCH_PART_TYPE), PartParams(bookmark, create, force), changegroup))
  }

  // ---------------------------------------------------------------------------
  // `_phasemove`
  // ---------------------------------------------------------------------------

  /** The phase move `_phasemove` passes on to the wrapped function, if any. */
  function PhaseMove(nodes: seq<string>, phase: Phase): (call: Option<(seq<string>, Phase)>)
    ensures call.None? <==> phase == Public
    ensures call.Some? ==> call.value.0 == nodes
  {
    if phase != Public then Some((nodes, phase)) else None
  }

  /** Pushed commits are never made public. */
  lemma PhaseMoveNeverPublishes(nodes: seq<string>, phase: Phase)
    ensures PhaseMove(nodes, phase).Some? ==> PhaseMove(nodes, phase).value.1 != Public
  {
  }

  // ---------------------------------------------------------------------------
  // The push summary of `bundle2scratchbranch`
  // ---------------------------------------------------------------------------

  function Min(a: nat, b: nat): nat {
    if a < b then a else b
  }

  /** `s.split('\n')[0]`: everything before the first newline. */
  function BeforeNewline(s: string): string
    decreases |s|
  {
    if s == [] || s[0] == '\n' then [] else [s[0]] + BeforeNewline(s[1..])
  }

  /** The text before the first newline is a newline-free prefix that stops at the newline or the end. */
  lemma {:induction false} BeforeNewlineShape(s: string)
    ensures var line := BeforeNewline(s);
      |line| <= |s| && line == s[..|line|] && '\n' !in line && (|line| < |s| ==> s[|line|] == '\n')
    decreases |s|
  {
    if s != [] && s[0] != '\n' {
      BeforeNewlineShape(s[1..]);
      assert s == [s[0]] + s[1..];
    }
  }

  /** `description.split('\n')[0][:50]`, cut in characters (see `FirstLineShape`). */
  function FirstLine(description: string): (line: string)
    ensures |line| <= FIRST_LINE_MAX && |line| <= |description|
  {
    BeforeNewlineShape(description);
    var line := BeforeNewline(description);
    if |line| > FIRST_LINE_MAX then line[..FIRST_LINE_MAX] else line
  }

  /**
   * The printed description is a prefix of the description of at most 50
   * characters with no newline, cut short only by the first newline, the end
   * of the description, or the 50-character limit.
   */
  lemma FirstLineShape(description: string)
    ensures var line := FirstLine(description);
      |line| <= FIRST_LINE_MAX && |line| <= |description| && line == description[..|line|] &&
      '\n' !in line &&
      (|line| < FIRST_LINE_MAX ==> |line| == |description| || description[|line|] == '\n')
  {
    BeforeNewlineShape(description);
  }

  /** `"pushing %s commit%s:\n"`: it ends in "s:" exactly when more than one commit is pushed. */
  function Header(n: nat): (h: string)
    ensures |h| >= 8 + 1 + 9 && h[..8] == "pushing " && h[|h| - 2..] == ":\n"
    ensures h[|h| - 3] == 's' <==> n > 1
  {
    "pushing " + NatToString(n) + " commit" + (if n > 1 then "s" else "") + ":\n"
  }

  /** `"    %s  %s\n"`: indented short id, then the first line of the description, then a newline. */
  function CommitLine(c: Commit): (l: string)
    ensures |l| >= 4 + |c.shortId| + 3
    ensures l[..4] == "    " && l[4..4 + |c.shortId|] == c.shortId && l[|l| - 1] == '\n'
    ensures l[4 + |c.shortId|..|l| - 1] == "  " + FirstLine(c.description)
  {
    var tail := "  " + FirstLine(c.description);
    var l := "    " + c.shortId + tail + "\n";
    assert l[4 + |c.shortId|..|l| - 1] == tail;
    l
  }

  /** The lines for the first `k` commits. */
  function CommitLines(revs: seq<Commit>, k: nat): (lines: seq<string>)
    requires k <= |revs|
    ensures |lines| == k
  {
    if k == 0 then [] else CommitLines(revs, k - 1) + [CommitLine(revs[k - 1])]
  }

  /** Line `i` of the listing describes commit `i`. */
  lemma {:induction false} CommitLinesAt(revs: seq<Commit>, k: nat, i: nat)
    requires i < k <= |revs|
    ensures CommitLines(revs, k)[i] == CommitLine(revs[i])
    decreases k
  {
    if i < k - 1 {
      CommitLinesAt(revs, k - 1, i);
    }
  }

  /** The warning lines a push of `revs` prints. */
  function PushSummary(revs: seq<Commit>): (lines: seq<string>)
  {
    var n := |revs|;
    [Header(n)] + CommitLines(revs, Min(n, MAX_OUTPUT)) + Elided(revs)
  }

  /** Only past eleven commits: an ellipsis line and the last commit. */
  function Elided(revs: seq<Commit>): seq<string> {
    if |revs| > MAX_OUTPUT + 1 then [ELLIPSIS_LINE, CommitLine(revs[|revs| - 1])] else []
  }

  /**
   * The summary lists the first min(n, 10) commits; only above eleven does it
   * add an ellipsis and the last commit, so eleven commits show their first ten.
   */
  lemma PushSummaryShape(revs: seq<Commit>)
    ensures var lines := PushSummary(revs);
      |lines| == 1 + Min(|revs|, MAX_OUTPUT) + (if |revs| > MAX_OUTPUT + 1 then 2 else 0) &&
      lines[0] == Header(|revs|) &&
      (forall i :: 0 <= i < Min(|revs|, MAX_OUTPUT) ==> lines[i + 1] == CommitLine(revs[i])) &&
      (|revs| > MAX_OUTPUT + 1 ==> lines[|lines| - 2] == ELLIPSIS_LINE && lines[|lines| - 1] == CommitLine(revs[|revs| - 1]))
  {
    var shown := Min(|revs|, MAX_OUTPUT);
    var body, tail := CommitLines(revs, shown), Elided(revs);
    var lines := [Header(|revs|)] + body + tail;
    assert PushSummary(revs) == lines;
    assert |tail| == if |revs| > MAX_OUTPUT + 1 then 2 else 0;
    forall i | 0 <= i < shown ensures lines[i + 1] == CommitLine(revs[i]) {
      assert lines[i + 1] == body[i];
      CommitLinesAt(revs, shown, i);
    }
    if |revs| > MAX_OUTPUT + 1 {
      assert lines[|lines| - 2] == tail[0] && lines[|lines| - 1] == tail[1];
    }
  }

  /** "commits" is plural exactly when more than one commit is pushed. */
  lemma HeaderPlural(n: nat)
    ensures n > 1 ==> Header(n) == "pushing " + NatToString(n) + " commits:\n"
    ensures n <= 1 ==> Header(n) == "pushing " + NatToString(n) + " commit:\n"
  {
  }

  // ---------------------------------------------------------------------------
  // The bundle index and the bundle store
  // ---------------------------------------------------------------------------

  class BundleIndex {
    /** Scratch bookmark to node. */
    var bookmarks: map<string, string>
    /** Node to the key of the bundle that holds it. */
    var bundles: map<string, string>

    constructor (bookmarks: map<string, string>, bundles: map<string, string>)
      ensures this.bookmarks == bookmarks && this.bundles == bundles
    {
      this.bookmarks := bookmarks;
      this.bundles := bundles;
    }

    function GetNode(bookmark: string): (n: Option<string>)
      reads this
      ensures n.Some? <==> bookmark in bookmarks
      ensures n.Some? ==> n.value == bookmarks[bookmark]
    {
      if bookmark in bookmarks then Some(bookmarks[bookmark]) else None
    }

    method AddBundle(key: string, nodes: seq<string>)
      modifies this
      ensures bookmarks == old(bookmarks)
      ensures bundles == WithBundle(old(bundles), key, nodes)
    {
      var i := 0;
      while i < |nodes|
        invariant 0 <= i <= |nodes|
        invariant bookmarks == old(bookmarks)
        invariant bundles == WithBundle(old(bundles), key, nodes[..i])
      {
        assert nodes[..i + 1][..i] == nodes[..i];
        bundles := bundles[nodes[i] := key];
        i := i + 1;
      }
      assert nodes[..|nodes|] == nodes;
    }

    method AddBookmark(bookmark: string, node: string)
      modifies this
      ensures bookmarks == old(bookmarks)[bookmark := node]
      ensures bundles == old(bundles)
    {
      bookmarks := bookmarks[bookmark := node];
    }

    method AddBookmarkAndBundle(key: string, nodes: seq<string>, bookmark: string, node: string)
      modifies this
      ensures bookmarks == old(bookmarks)[bookmark := node]
      ensures bundles == WithBundle(old(bundles), key, nodes)
    {
      AddBundle(key, nodes);
      AddBookmark(bookmark, node);
    }
  }

  /** The node-to-bundle map after recording every one of `nodes` under `key`, one at a time. */
  function WithBundle(bundles: map<string, string>, key: string, nodes: seq<string>): (m: map<string, string>)
    ensures forall n :: n in m <==> n in bundles || n in nodes
    ensures forall n :: n in m ==> m[n] == (if n in nodes then key else bundles[n])
    decreases |nodes|
  {
    if nodes == [] then bundles
    else WithBundle(bundles, key, nodes[..|nodes| - 1])[nodes[|nodes| - 1] := key]
  }

  class BundleStore {
    /** The bundles written, oldest first. */
    var written: seq<seq<int>>
    /** The key the store hands back for a bundle. */
    const keyOf: seq<int> -> string

    constructor (keyOf: seq<int> -> string)
      ensures written == [] && this.keyOf == keyOf
    {
      written := [];
      this.keyOf := keyOf;
    }

    method Write(data: seq<int>) returns (key: string)
      modifies this
      ensures written == old(written) + [data]
      ensures key == keyOf(data)
    {
      written := written + [data];
      key := keyOf(data);
    }
  }

  // ---------------------------------------------------------------------------
  // `bundle2scratchbranch`
  // ---------------------------------------------------------------------------

  /** `index.getbundle(node)` is truthy: the node is indexed under a non-empty bundle key. */
  predicate HasBundle(bundles: map<string, string>, node: string) {
    node in bundles && bundles[node] != ""
  }

  /** The pushed nodes whose `getbundle` is falsy, in push order. */
  function NewNodes(nodes: seq<string>, bundles: map<string, string>): (r: seq<string>)
    ensures |r| <= |nodes|
  {
    if nodes == [] then []
    else (if !HasBundle(bundles, nodes[0]) then [nodes[0]] else []) + NewNodes(nodes[1..], bundles)
  }

  /** A single node is kept exactly when the index has no bundle for it. */
  lemma NewNodesSingle(node: string, bundles: map<string, string>)
    ensures NewNodes([node], bundles) == if HasBundle(bundles, node) then [] else [node]
  {
    assert [node][1..] == [];
  }

  /** The filter keeps push order: filtering two runs of nodes gives the two results one after the other. */
  lemma {:induction false} NewNodesAppend(a: seq<string>, b: seq<string>, bundles: map<string, string>)
    ensures NewNodes(a + b, bundles) == NewNodes(a, bundles) + NewNodes(b, bundles)
    decreases |a|
  {
    if a == [] {
      assert a + b == b;
    } else {
      var x, rest := a[0], a[1..];
      calc {
        NewNodes(a + b, bundles);
      == { assert a + b == [x] + (rest + b); }
        NewNodes([x] + (rest + b), bundles);
      == { NewNodesCons(x, rest + b, bundles); }
        NewNodes([x], bundles) + NewNodes(rest + b, bundles);
      == { NewNodesAppend(rest, b, bundles); }
        NewNodes([x], bundles) + (NewNodes(rest, bundles) + NewNodes(b, bundles));
      ==
        (NewNodes([x], bundles) + NewNodes(rest, bundles)) + NewNodes(b, bundles);
      == { assert a == [x] + rest; NewNodesCons(x, rest, bundles); }
        NewNodes(a, bundles) + NewNodes(b, bundles);
      }
    }
  }

  /** A node is kept exactly when it was pushed and the index gives it no truthy bundle key. */
  lemma {:induction false} NewNodesMembers(nodes: seq<string>, bundles: map<string, string>)
    ensures forall n :: n in NewNodes(nodes, bundles) <==> n in nodes && !HasBundle(bundles, n)
    decreases |nodes|
  {
    if nodes != [] {
      NewNodesMembers(nodes[1..], bundles);
      assert nodes == [nodes[0]] + nodes[1..];
    }
  }

  /** One step of the filter: the verdict on the first node, then the rest. */
  lemma NewNodesCons(x: string, rest: seq<string>, bundles: map<string, string>)
    ensures NewNodes([x] + rest, bundles) == NewNodes([x], bundles) + NewNodes(rest, bundles)
  {
    var s := [x] + rest;
    assert s[0] == x && s[1..] == rest;
    assert [x][1..] == [];
  }

  /** The bookmark target `newnodes[-1]`: the last pushed node the index has no bundle for. */
  lemma {:induction false} NewNodesLast(nodes: seq<string>, bundles: map<string, string>)
    requires nodes != [] && !HasBundle(bundles, nodes[|nodes| - 1])
    ensures NewNodes(nodes, bundles) != []
    ensures NewNodes(nodes, bundles)[|NewNodes(nodes, bundles)| - 1] == nodes[|nodes| - 1]
  {
    var front, last := nodes[..|nodes| - 1], nodes[|nodes| - 1];
    assert nodes == front + [last];
    NewNodesAppend(front, [last], bundles);
    NewNodesSingle(last, bundles);
  }

  function Nodes(revs: seq<Commit>): (nodes: seq<string>)
    ensures |nodes| == |revs|
    ensures forall i :: 0 <= i < |revs| ==> nodes[i] == revs[i].node
  {
    seq(|revs|, i requires 0 <= i < |revs| => revs[i].node)
  }

  /** The revisions a part stores, or why it is refused. */
  function PushedRevs(params: map<string, string>, bundle: BundleRepo, bookmarks: map<string, string>)
    : (r: Result<seq<Commit>, Abort>)
    ensures ("bookmark" in params && params["bookmark"] != "" && params["bookmark"] !in bookmarks &&
             !("create" in params && params["create"] == "1")) ==>
      r == Failure(Abort("unknown bookmark " + params["bookmark"], Some("use --create if you want to create one")))
  {
    var bookmark := if "bookmark" in params then Some(params["bookmark"]) else None;
    var create := if "create" in params then Some(params["create"]) else None;
    var force := "force" in params && params["force"] != "";
    if Truthy(bookmark) then
      var oldnode := if bookmark.value in bookmarks then Some(bookmarks[bookmark.value]) else None;
      if !Truthy(oldnode) && create != Some("1") then
        Failure(Abort("unknown bookmark " + bookmark.value, Some("use --create if you want to create one")))
      else GetRevs(bundle, oldnode, force)
    else GetRevs(bundle, None, force)
  }

  /** The lines for the first `k` commits, one per commit. */
  method ListCommits(revs: seq<Commit>, k: nat) returns (listed: seq<string>)
    requires k <= |revs|
    ensures listed == CommitLines(revs, k)
  {
    listed := [];
    var i := 0;
    while i < k
      invariant 0 <= i <= k
      invariant listed == CommitLines(revs, i)
    {
      listed := listed + [CommitLine(revs[i])];
      i := i + 1;
    }
  }

  /** The warning lines for a push of `revs`: header, listed commits, and the elided tail. */
  method Summarize(revs: seq<Commit>) returns (output: seq<string>)
    ensures output == PushSummary(revs)
  {
    var n := |revs|;
    var listed := ListCommits(revs, Min(n, MAX_OUTPUT));
    var tail: seq<string> := [];
    if n > MAX_OUTPUT + 1 {
      tail := [ELLIPSIS_LINE, CommitLine(revs[n - 1])];
    }
    assert tail == Elided(revs);
    output := [Header(n)] + listed + tail;
  }

  /**
   * The index and store after storing a push of `revs` (`bookmark` empty for
   * none): the bundle is written once if some pushed node is new, the new
   * nodes are indexed under its key and the bookmark moves to the last new
   * node; with nothing new, only the bookmark moves, to the last pushed node.
   */
  ghost predicate StoredPush(revs: seq<Commit>, bookmark: string, bundleData: seq<int>, keyOf: seq<int> -> string,
                             oldBookmarks: map<string, string>, oldBundles: map<string, string>, oldWritten: seq<seq<int>>,
                             bookmarks: map<string, string>, bundles: map<string, string>, written: seq<seq<int>>)
    requires revs != []
  {
    var newnodes := NewNodes(Nodes(revs), oldBundles);
    if newnodes != [] then
      written == oldWritten + [bundleData] &&
      bundles == WithBundle(oldBundles, keyOf(bundleData), newnodes) &&
      bookmarks == (if bookmark != "" then oldBookmarks[bookmark := newnodes[|newnodes| - 1]] else oldBookmarks)
    else
      written == oldWritten && bundles == oldBundles &&
      bookmarks == (if bookmark != "" then oldBookmarks[bookmark := revs[|revs| - 1].node] else oldBookmarks)
  }

  /** The index update at the end of `bundle2scratchbranch`. */
  method StorePush(revs: seq<Commit>, bookmark: string, bundleData: seq<int>, index: BundleIndex, store: BundleStore)
    requires revs != []
    modifies index, store
    ensures StoredPush(revs, bookmark, bundleData, store.keyOf, old(index.bookmarks), old(index.bundles),
                       old(store.written), index.bookmarks, index.bundles, store.written)
  {
    var nodes := Nodes(revs);
    var newnodes := NewNodes(nodes, index.bundles);
    if newnodes != [] {
      var key := store.Write(bundleData);
      if bookmark != "" {
        index.AddBookmarkAndBundle(key, newnodes, bookmark, newnodes[|newnodes| - 1]);
      } else {
        index.AddBundle(key, newnodes);
      }
    } else if bookmark != "" {
      index.AddBookmark(bookmark, nodes[|nodes| - 1]);
    }
  }

  /**
   * Handle a scratch-branch part: check the bookmark, work out the revisions,
   * print the summary, store the bundle if any pushed node is new, and update
   * the index.  The handler answers 1 whenever it does not abort.
   */
  method Bundle2ScratchBranch(params: map<string, string>, bundle: BundleRepo, bundleData: seq<int>,
                              index: BundleIndex, store: BundleStore)
    returns (r: Result<int, Abort>, output: seq<string>)
    modifies index, store
    ensures r.Failure? <==> PushedRevs(params, bundle, old(index.bookmarks)).Failure?
    ensures r.Failure? ==>
      r.error == PushedRevs(params, bundle, old(index.bookmarks)).error && output == [] && unchanged(index, store)
    ensures r.Success? ==> r.value == 1 && bundle.revs != []
    ensures r.Success? ==>
      output == PushSummary(bundle.revs) &&
      StoredPush(bundle.revs, if "bookmark" in params then params["bookmark"] else "", bundleData, store.keyOf,
                 old(index.bookmarks), old(index.bundles), old(store.written),
                 index.bookmarks, index.bundles, store.written)
  {
    output := [];
    var pushed := PushedRevs(params, bundle, index.bookmarks);
    if pushed.Failure? {
      r := Failure(pushed.error);
      return;
    }
    PushedRevsValid(params, bundle, index.bookmarks);
    var revs := pushed.value;
    var bookmark := if "bookmark" in params then params["bookmark"] else "";
    // Notify the user of what is being pushed.
    output := Summarize(revs);
    StorePush(revs, bookmark, bundleData, index, store);
    r := Success(1);
  }

  /** A part that passes the checks pushes a non-empty revset with a single head. */
  lemma PushedRevsValid(params: map<string, string>, bundle: BundleRepo, bookmarks: map<string, string>)
    requires PushedRevs(params, bundle, bookmarks).Success?
    ensures PushedRevs(params, bundle, bookmarks).value == bundle.revs
    ensures bundle.revs != [] && |bundle.heads| <= 1
  {
  }

  // ---------------------------------------------------------------------------
  // `localrepolistkeys`
  // ---------------------------------------------------------------------------

  /** What the bookmarks listing returns for `patterns`: real bookmarks over scratch ones. */
  function ListedBookmarks(patterns: set<string>, matcher: string -> bool, scratch: map<string, string>,
                           bookmarks: map<string, string>): (results: map<string, string>)
    ensures results.Keys <= patterns
    ensures forall b :: b in patterns && b in bookmarks ==> b in results && results[b] == bookmarks[b]
    ensures forall b :: b in patterns && b !in bookmarks ==>
      (b in results <==> matcher(b) && b in scratch && scratch[b] != "")
    ensures forall b :: b in results && b !in bookmarks ==> results[b] == scratch[b]
  {
    map b | b in patterns && (b in bookmarks || (matcher(b) && b in scratch && scratch[b] != "")) ::
      if b in bookmarks then bookmarks[b] else scratch[b]
  }

  /**
   * `listkeys` with the scratch index merged in: for the bookmarks namespace
   * and a non-empty pattern list, the patterns that name a scratch bookmark
   * or a real one; otherwise whatever the wrapped `listkeys` returns.
   */
  method ListKeys(namespace: string, patterns: Option<seq<string>>, matcher: string -> bool,
                  index: BundleIndex, listkeys: string -> map<string, string>)
    returns (results: map<string, string>)
    ensures namespace != BOOKMARKS_NAMESPACE || patterns.None? || patterns.value == [] ==>
      results == listkeys(namespace)
    ensures namespace == BOOKMARKS_NAMESPACE && patterns.Some? && patterns.value != [] ==>
      results == ListedBookmarks((set p | p in patterns.value), matcher, index.bookmarks, listkeys(namespace))
  {
    if !(namespace == BOOKMARKS_NAMESPACE && patterns.Some? && patterns.value != []) {
      return listkeys(namespace);
    }
    var patternSet := set p | p in patterns.value;
    var scratch := FindScratch(patternSet, matcher, index);
    var bookmarks := listkeys(namespace);
    results := MergeBookmarks(scratch, bookmarks, patternSet);
    assert results == ListedBookmarks(patternSet, matcher, index.bookmarks, bookmarks);
  }

  /** The first loop of `localrepolistkeys`: the matching patterns that have a scratch node. */
  method FindScratch(patterns: set<string>, matcher: string -> bool, index: BundleIndex)
    returns (results: map<string, string>)
    ensures forall b :: b in results <==> b in patterns && matcher(b) && b in index.bookmarks && index.bookmarks[b] != ""
    ensures forall b :: b in results ==> results[b] == index.bookmarks[b]
  {
    results := map[];
    var todo := patterns;
    while todo != {}
      invariant todo <= patterns
      invariant forall b :: b in results <==>
        b in patterns - todo && matcher(b) && b in index.bookmarks && index.bookmarks[b] != ""
      invariant forall b :: b in results ==> results[b] == index.bookmarks[b]
      decreases |todo|
    {
      var bookmark :| bookmark in todo;
      if matcher(bookmark) {
        var node := index.GetNode(bookmark);
        if node.Some? && node.value != "" {
          results := results[bookmark := node.value];
        }
      }
      todo := todo - {bookmark};
    }
  }

  /** The second loop of `localrepolistkeys`: real bookmarks among the patterns written over `scratch`. */
  method MergeBookmarks(scratch: map<string, string>, bookmarks: map<string, string>, patterns: set<string>)
    returns (results: map<string, string>)
    ensures forall b :: b in results <==> b in scratch || (b in patterns && b in bookmarks)
    ensures forall b :: b in results ==>
      results[b] == if b in patterns && b in bookmarks then bookmarks[b] else scratch[b]
  {
    results := scratch;
    var rest := bookmarks.Keys;
    while rest != {}
      invariant rest <= bookmarks.Keys
      invariant forall b :: b in results <==> b in scratch || (b in patterns && b in bookmarks && b !in rest)
      invariant forall b :: b in results ==>
        results[b] == if b in patterns && b in bookmarks && b !in rest then bookmarks[b] else scratch[b]
      decreases |rest|
    {
      var bookmark :| bookmark in rest;
      if bookmark in patterns {
        results := results[bookmark := bookmarks[bookmark]];
      }
      rest := rest - {bookmark};
    }
  }
}

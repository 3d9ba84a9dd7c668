/**
 * Importing one Perforce changelist as one Mercurial commit.
 *
 * The importer lists the changelist's files (the `fstat` records), sorts them
 * into removed paths and added-or-modified paths, keeps one filelog per
 * Mercurial path, works out which files were moved, commits, and reports the
 * files that ended up as large files.  Everything that talks to Perforce, to
 * the repository or to the LFS store is a parameter: `relpath` (depot path to
 * repository path), the content and type queries on a filelog, the keyword
 * expansion, the commit itself and the LFS lookup.
 */
module P4Import {
  import opened Wrappers
  import opened Strings

  /** A commit node, as the repository hands it out. */
  type Node = string

  /** One record of `p4 fstat` for the changelist. */
  datatype FstatRecord = FstatRecord(action: string, depotFile: string, fileType: string)

  /** A `P4Filelog`: the depot file and, for this changelist, its action and file type. */
  datatype Filelog = Filelog(depotFile: string, cl: nat, action: string, fileType: string)

  /**
   * The changelist: its number, its `files` table (depot file name and the
   * `src` of a move, in the table's order), and the commit metadata.
   */
  datatype Changelist = Changelist(
    cl: nat,
    files: seq<(string, Option<string>)>,
    description: string,
    user: string,
    hgdate: string)

  /** A largefile found in the new commit: changelist, depot path, LFS oid. */
  datatype Largefile = Largefile(cl: nat, depotFile: string, oid: string)

  /** What `getfile` hands to the commit for one changed path. */
  datatype FileContext = FileContext(
    path: string,
    data: string,
    isLink: bool,
    isExec: bool,
    copied: Option<string>)

  /** The queries `getfile` makes about a filelog, and the keyword expansion. */
  datatype FileOps = FileOps(
    content: Filelog -> string,
    isSymlink: Filelog -> bool,
    isKeyworded: Filelog -> bool,
    isExec: Filelog -> bool,
    expandKeywords: string -> string)

  /** The in-memory commit: parents, message, affected files, per-file contents, author, date, extras. */
  datatype CommitRequest = CommitRequest(
    parents: (Node, Option<Node>),
    message: string,
    files: set<string>,
    changes: map<string, Option<FileContext>>,
    user: string,
    date: string,
    extra: map<string, nat>)

  const P4_CHANGELIST_EXTRA: string := "p4changelist"

  // ---------------------------------------------------------------------------
  // `rstrip()` on a symlink's content
  // ---------------------------------------------------------------------------

  /** The characters Python's `str.rstrip()` removes from a byte string. */
  predicate IsWhitespace(c: char) {
    c == ' ' || '\t' <= c <= '\r'
  }

  function RStrip(s: string): (r: string)
    ensures |r| <= |s| && r == s[..|r|]
    ensures r == [] || !IsWhitespace(r[|r| - 1])
    ensures forall i :: |r| <= i < |s| ==> IsWhitespace(s[i])
    decreases |s|
  {
    if s != [] && IsWhitespace(s[|s| - 1]) then RStrip(s[..|s| - 1]) else s
  }

  lemma RStripIdempotent(s: string)
    ensures RStrip(RStrip(s)) == RStrip(s)
  {
  }

  /** The strip keeps everything up to the last non-whitespace character. */
  lemma {:induction false} RStripKeepsContent(s: string, k: nat)
    requires k < |s| && !IsWhitespace(s[k])
    ensures k < |RStrip(s)|
    decreases |s|
  {
    if IsWhitespace(s[|s| - 1]) {
      RStripKeepsContent(s[..|s| - 1], k);
    }
  }

  /** The flattened `moved.get(path)`: absent and `None` both give `None`. */
  function MovedGet(moved: map<string, Option<string>>, path: string): (c: Option<string>)
    ensures c.Some? <==> path in moved && moved[path].Some?
    ensures c.Some? ==> c == moved[path]
  {
    if path in moved then moved[path] else None
  }

  class ChangelistImporter {
    /** The node the next commit goes on top of. */
    var node: Node
    /** `importer.relpath(client, p)`: depot path to repository path. */
    const relpath: string -> string
    /** `importer.relpath(client, p, ignore_nonexisting=True)`: `None` outside the client view. */
    const relpathIfExists: string -> Option<string>
    /** `ACTION_DELETE + ACTION_ARCHIVE`. */
    const removalActions: seq<string>
    const ops: FileOps

    constructor (start: Node, relpath: string -> string, relpathIfExists: string -> Option<string>,
                 removalActions: seq<string>, ops: FileOps)
      ensures node == start
      ensures this.relpath == relpath && this.relpathIfExists == relpathIfExists
      ensures this.removalActions == removalActions && this.ops == ops
    {
      node := start;
      this.relpath := relpath;
      this.relpathIfExists := relpathIfExists;
      this.removalActions := removalActions;
      this.ops := ops;
    }

    predicate IsRemoval(r: FstatRecord) {
      r.action in removalActions
    }

    function HgPath(r: FstatRecord): string {
      relpath(r.depotFile)
    }

    // -------------------------------------------------------------------------
    // The `_import` loop, as three specification functions over the records
    // -------------------------------------------------------------------------

    /** `p4flogs` after the records: one filelog per repository path, the last record winning. */
    function Filelogs(fstat: seq<FstatRecord>, cl: nat): map<string, Filelog>
      decreases |fstat|
    {
      if fstat == [] then map[]
      else
        var r := fstat[|fstat| - 1];
        Filelogs(fstat[..|fstat| - 1], cl)[HgPath(r) := Filelog(r.depotFile, cl, r.action, r.fileType)]
    }

    /** `removed` after the records. */
    function Removed(fstat: seq<FstatRecord>): set<string>
      decreases |fstat|
    {
      if fstat == [] then {}
      else
        var r := fstat[|fstat| - 1];
        Removed(fstat[..|fstat| - 1]) + (if IsRemoval(r) then {HgPath(r)} else {})
    }

    /** `added_or_modified` after the records. */
    function AddedOrModified(fstat: seq<FstatRecord>): seq<(string, string)>
      decreases |fstat|
    {
      if fstat == [] then []
      else
        var r := fstat[|fstat| - 1];
        AddedOrModified(fstat[..|fstat| - 1]) + (if IsRemoval(r) then [] else [(r.depotFile, HgPath(r))])
    }

    /** The `_import` loop over the `fstat` records. */
    method Classify(fstat: seq<FstatRecord>, cl: nat)
      returns (addedOrModified: seq<(string, string)>, removed: set<string>, p4flogs: map<string, Filelog>)
      ensures addedOrModified == AddedOrModified(fstat)
      ensures removed == Removed(fstat)
      ensures p4flogs == Filelogs(fstat, cl)
    {
      addedOrModified := [];
      removed := {};
      p4flogs := map[];
      var i := 0;
      while i < |fstat|
        invariant 0 <= i <= |fstat|
        invariant addedOrModified == AddedOrModified(fstat[..i])
        invariant removed == Removed(fstat[..i])
        invariant p4flogs == Filelogs(fstat[..i], cl)
      {
        var info := fstat[i];
        assert fstat[..i + 1][..i] == fstat[..i];
        var hgpath := relpath(info.depotFile);
        p4flogs := p4flogs[hgpath := Filelog(info.depotFile, cl, info.action, info.fileType)];
        if info.action in removalActions {
          removed := removed + {hgpath};
        } else {
          addedOrModified := addedOrModified + [(info.depotFile, hgpath)];
        }
        i := i + 1;
      }
      assert fstat[..|fstat|] == fstat;
    }

    /** Every record's repository path is a key of `p4flogs`, and nothing else is. */
    lemma {:induction false} FilelogsKeys(fstat: seq<FstatRecord>, cl: nat)
      ensures Filelogs(fstat, cl).Keys == set i | 0 <= i < |fstat| :: HgPath(fstat[i])
      decreases |fstat|
    {
      if fstat != [] {
        var front := fstat[..|fstat| - 1];
        FilelogsKeys(front, cl);
        assert forall i :: 0 <= i < |front| ==> front[i] == fstat[i];
        assert (set i | 0 <= i < |fstat| :: HgPath(fstat[i]))
            == (set i | 0 <= i < |front| :: HgPath(front[i])) + {HgPath(fstat[|fstat| - 1])};
      }
    }

    /** The filelog of a path is made from the last record with that path. */
    lemma {:induction false} FilelogsLastWins(fstat: seq<FstatRecord>, cl: nat, i: nat)
      requires i < |fstat|
      requires forall j :: i < j < |fstat| ==> HgPath(fstat[j]) != HgPath(fstat[i])
      ensures HgPath(fstat[i]) in Filelogs(fstat, cl)
      ensures Filelogs(fstat, cl)[HgPath(fstat[i])] == Filelog(fstat[i].depotFile, cl, fstat[i].action, fstat[i].fileType)
      decreases |fstat|
    {
      if i < |fstat| - 1 {
        var front := fstat[..|fstat| - 1];
        assert front[i] == fstat[i];
        assert forall j :: i < j < |front| ==> front[j] == fstat[j];
        FilelogsLastWins(front, cl, i);
      }
    }

    /** Each filelog sits under the repository path of its own depot file. */
    lemma {:induction false} FilelogsConsistent(fstat: seq<FstatRecord>, cl: nat)
      ensures forall h :: h in Filelogs(fstat, cl) ==> relpath(Filelogs(fstat, cl)[h].depotFile) == h
      decreases |fstat|
    {
      if fstat != [] {
        FilelogsConsistent(fstat[..|fstat| - 1], cl);
      }
    }

    /** A path is removed iff some removal record has it. */
    lemma {:induction false} RemovedMembers(fstat: seq<FstatRecord>, h: string)
      ensures h in Removed(fstat) <==> exists i :: 0 <= i < |fstat| && IsRemoval(fstat[i]) && HgPath(fstat[i]) == h
      decreases |fstat|
    {
      if fstat != [] {
        var front := fstat[..|fstat| - 1];
        RemovedMembers(front, h);
        if h in Removed(front) {
          var i :| 0 <= i < |front| && IsRemoval(front[i]) && HgPath(front[i]) == h;
          assert fstat[i] == front[i];
        }
        if exists i :: 0 <= i < |fstat| && IsRemoval(fstat[i]) && HgPath(fstat[i]) == h {
          var i :| 0 <= i < |fstat| && IsRemoval(fstat[i]) && HgPath(fstat[i]) == h;
          if i < |front| {
            assert front[i] == fstat[i];
          }
        }
      }
    }

    /** `added_or_modified` keeps the records' order: splitting the records splits the list. */
    lemma {:induction false} AddedOrModifiedAppend(a: seq<FstatRecord>, b: seq<FstatRecord>)
      ensures AddedOrModified(a + b) == AddedOrModified(a) + AddedOrModified(b)
      decreases |b|
    {
      if b == [] {
        assert a + b == a;
      } else {
        var front := b[..|b| - 1];
        assert (a + b)[..|a + b| - 1] == a + front;
        AddedOrModifiedAppend(a, front);
      }
    }

    /** A pair is added-or-modified iff some non-removal record yields it. */
    lemma {:induction false} AddedOrModifiedMembers(fstat: seq<FstatRecord>, p: (string, string))
      ensures p in AddedOrModified(fstat) <==>
        exists i :: 0 <= i < |fstat| && !IsRemoval(fstat[i]) && p == (fstat[i].depotFile, HgPath(fstat[i]))
      decreases |fstat|
    {
      if fstat != [] {
        var front := fstat[..|fstat| - 1];
        AddedOrModifiedMembers(front, p);
        if p in AddedOrModified(front) {
          var i :| 0 <= i < |front| && !IsRemoval(front[i]) && p == (front[i].depotFile, HgPath(front[i]));
          assert fstat[i] == front[i];
        }
        if exists i :: 0 <= i < |fstat| && !IsRemoval(fstat[i]) && p == (fstat[i].depotFile, HgPath(fstat[i])) {
          var i :| 0 <= i < |fstat| && !IsRemoval(fstat[i]) && p == (fstat[i].depotFile, HgPath(fstat[i]));
          if i < |front| {
            assert front[i] == fstat[i];
          }
        }
      }
    }

    // -------------------------------------------------------------------------
    // `_get_move_info`
    // -------------------------------------------------------------------------

    /** `files_in_clientspec`: the filelog table inverted, depot file to repository path. */
    function ClientspecFiles(p4flogs: map<string, Filelog>): (inv: map<string, string>)
      requires forall h :: h in p4flogs ==> relpath(p4flogs[h].depotFile) == h
      ensures forall d :: d in inv <==> exists h :: h in p4flogs && p4flogs[h].depotFile == d
      ensures forall d :: d in inv ==> inv[d] == relpath(d) && inv[d] in p4flogs && p4flogs[inv[d]].depotFile == d
    {
      map h | h in p4flogs :: p4flogs[h].depotFile := h
    }

    /** `moves` after the first entries of the changelist's file table. */
    function Moves(files: seq<(string, Option<string>)>, inClientspec: map<string, string>): map<string, Option<string>>
      decreases |files|
    {
      if files == [] then map[]
      else
        var (filename, src) := files[|files| - 1];
        var before := Moves(files[..|files| - 1], inClientspec);
        if filename in inClientspec && Truthy(src) then before[inClientspec[filename] := relpathIfExists(src.value)]
        else before
    }

    method GetMoveInfo(p4cl: Changelist, p4flogs: map<string, Filelog>) returns (moves: map<string, Option<string>>)
      requires forall h :: h in p4flogs ==> relpath(p4flogs[h].depotFile) == h
      ensures moves == Moves(p4cl.files, ClientspecFiles(p4flogs))
    {
      moves := map[];
      var filesInClientspec := ClientspecFiles(p4flogs);
      var i := 0;
      while i < |p4cl.files|
        invariant 0 <= i <= |p4cl.files|
        invariant moves == Moves(p4cl.files[..i], filesInClientspec)
      {
        MovesSnoc(p4cl.files, filesInClientspec, i);
        var (filename, src) := p4cl.files[i];
        if filename in filesInClientspec && src.Some? && src.value != "" {
          var hgdst := filesInClientspec[filename];
          var hgsrc := relpathIfExists(src.value);
          moves := moves[hgdst := hgsrc];
        }
        i := i + 1;
      }
      assert p4cl.files[..|p4cl.files|] == p4cl.files;
    }

    /** One more entry of the file table: the step of the loop. */
    lemma MovesSnoc(files: seq<(string, Option<string>)>, inClientspec: map<string, string>, i: nat)
      requires i < |files|
      ensures var (filename, src) := files[i];
        Moves(files[..i + 1], inClientspec) ==
          if filename in inClientspec && Truthy(src)
          then Moves(files[..i], inClientspec)[inClientspec[filename] := relpathIfExists(src.value)]
          else Moves(files[..i], inClientspec)
    {
      assert files[..i + 1][..i] == files[..i];
    }

    /** The move destinations are exactly the clientspec files with a non-empty `src`. */
    lemma {:induction false} MovesKeys(files: seq<(string, Option<string>)>, inClientspec: map<string, string>, h: string)
      ensures h in Moves(files, inClientspec) <==>
        exists i :: 0 <= i < |files| && files[i].0 in inClientspec && Truthy(files[i].1) && inClientspec[files[i].0] == h
      decreases |files|
    {
      if files != [] {
        var front := files[..|files| - 1];
        MovesKeys(front, inClientspec, h);
        if h in Moves(front, inClientspec) {
          var i :| 0 <= i < |front| && front[i].0 in inClientspec && Truthy(front[i].1) && inClientspec[front[i].0] == h;
          assert files[i] == front[i];
        }
        if exists i :: 0 <= i < |files| && files[i].0 in inClientspec && Truthy(files[i].1) && inClientspec[files[i].0] == h {
          var i :| 0 <= i < |files| && files[i].0 in inClientspec && Truthy(files[i].1) && inClientspec[files[i].0] == h;
          if i < |front| {
            assert front[i] == files[i];
          }
        }
      }
    }

    /** The move recorded for a destination is its source's repository path, last entry winning. */
    lemma {:induction false} MovesValue(files: seq<(string, Option<string>)>, inClientspec: map<string, string>, i: nat)
      requires i < |files| && files[i].0 in inClientspec && Truthy(files[i].1)
      requires forall j :: i < j < |files| && files[j].0 in inClientspec && Truthy(files[j].1) ==>
        inClientspec[files[j].0] != inClientspec[files[i].0]
      ensures inClientspec[files[i].0] in Moves(files, inClientspec)
      ensures Moves(files, inClientspec)[inClientspec[files[i].0]] == relpathIfExists(files[i].1.value)
      decreases |files|
    {
      if i < |files| - 1 {
        var front := files[..|files| - 1];
        assert front[i] == files[i];
        assert forall j :: i < j < |front| ==> front[j] == files[j];
        MovesValue(front, inClientspec, i);
      }
    }

    /**
     * With the changelist's file names distinct (they are the keys of a
     * table), each moved file is recorded under its own repository path with
     * the repository path of its source, even `None` for a source outside the
     * client view.
     */
    lemma MoveOfFile(files: seq<(string, Option<string>)>, p4flogs: map<string, Filelog>, i: nat)
      requires forall h :: h in p4flogs ==> relpath(p4flogs[h].depotFile) == h
      requires forall j, k :: 0 <= j < k < |files| ==> files[j].0 != files[k].0
      requires i < |files| && Truthy(files[i].1)
      requires exists h :: h in p4flogs && p4flogs[h].depotFile == files[i].0
      ensures relpath(files[i].0) in Moves(files, ClientspecFiles(p4flogs))
      ensures Moves(files, ClientspecFiles(p4flogs))[relpath(files[i].0)] == relpathIfExists(files[i].1.value)
    {
      var inv := ClientspecFiles(p4flogs);
      forall j | i < j < |files| && files[j].0 in inv && Truthy(files[j].1)
        ensures inv[files[j].0] != inv[files[i].0]
      {
      }
      MovesValue(files, inv, i);
    }

    // -------------------------------------------------------------------------
    // `_get_largefiles`
    // -------------------------------------------------------------------------

    function Largefiles(cl: nat, files: seq<(string, string)>, node: Node, lfsInfo: (Node, string) -> (bool, string))
      : seq<Largefile>
      decreases |files|
    {
      if files == [] then []
      else
        var (p4path, hgpath) := files[|files| - 1];
        var (isLfs, oid) := lfsInfo(node, hgpath);
        Largefiles(cl, files[..|files| - 1], node, lfsInfo) + (if isLfs then [Largefile(cl, p4path, oid)] else [])
    }

    method GetLargefiles(p4cl: Changelist, files: seq<(string, string)>, node: Node,
                         lfsInfo: (Node, string) -> (bool, string))
      returns (largefiles: seq<Largefile>)
      ensures largefiles == Largefiles(p4cl.cl, files, node, lfsInfo)
    {
      largefiles := [];
      var i := 0;
      while i < |files|
        invariant 0 <= i <= |files|
        invariant largefiles == Largefiles(p4cl.cl, files[..i], node, lfsInfo)
      {
        assert files[..i + 1][..i] == files[..i];
        var (p4path, hgpath) := files[i];
        var (isLfs, oid) := lfsInfo(node, hgpath);
        if isLfs {
          largefiles := largefiles + [Largefile(p4cl.cl, p4path, oid)];
        }
        i := i + 1;
      }
      assert files[..|files|] == files;
    }

    /** A largefile is reported iff one of the given files is an LFS file, with its oid. */
    lemma {:induction false} LargefilesMembers(cl: nat, files: seq<(string, string)>, node: Node,
                                                lfsInfo: (Node, string) -> (bool, string), f: Largefile)
      ensures f in Largefiles(cl, files, node, lfsInfo) <==>
        exists i :: 0 <= i < |files| && lfsInfo(node, files[i].1).0 &&
          f == Largefile(cl, files[i].0, lfsInfo(node, files[i].1).1)
      decreases |files|
    {
      if files != [] {
        var front := files[..|files| - 1];
        LargefilesMembers(cl, front, node, lfsInfo, f);
        if f in Largefiles(cl, front, node, lfsInfo) {
          var i :| 0 <= i < |front| && lfsInfo(node, front[i].1).0 && f == Largefile(cl, front[i].0, lfsInfo(node, front[i].1).1);
          assert files[i] == front[i];
        }
        if exists i :: 0 <= i < |files| && lfsInfo(node, files[i].1).0 && f == Largefile(cl, files[i].0, lfsInfo(node, files[i].1).1) {
          var i :| 0 <= i < |files| && lfsInfo(node, files[i].1).0 && f == Largefile(cl, files[i].0, lfsInfo(node, files[i].1).1);
          if i < |front| {
            assert front[i] == files[i];
          }
        }
      }
    }

    /** Largefiles keep the order of the files they come from. */
    lemma {:induction false} LargefilesAppend(cl: nat, a: seq<(string, string)>, b: seq<(string, string)>, node: Node,
                                               lfsInfo: (Node, string) -> (bool, string))
      ensures Largefiles(cl, a + b, node, lfsInfo) == Largefiles(cl, a, node, lfsInfo) + Largefiles(cl, b, node, lfsInfo)
      decreases |b|
    {
      if b == [] {
        assert a + b == a;
      } else {
        var front := b[..|b| - 1];
        assert (a + b)[..|a + b| - 1] == a + front;
        LargefilesAppend(cl, a, front, node, lfsInfo);
      }
    }

    // -------------------------------------------------------------------------
    // `getfile` and the commit
    // -------------------------------------------------------------------------

    /** What the commit learns about one affected path; `None` deletes it. */
    function GetFile(path: string, removed: set<string>, p4flogs: map<string, Filelog>,
                     moved: map<string, Option<string>>): (r: Option<FileContext>)
      requires path in removed || path in p4flogs
      ensures r.None? <==> path in removed
      ensures r.Some? ==> r.value.path == path && r.value.copied == MovedGet(moved, path)
      ensures r.Some? ==> r.value.isLink == ops.isSymlink(p4flogs[path]) && r.value.isExec == ops.isExec(p4flogs[path])
      ensures r.Some? && r.value.isLink && !ops.isKeyworded(p4flogs[path]) ==>
        r.value.data == RStrip(ops.content(p4flogs[path]))
      ensures r.Some? && !r.value.isLink && !ops.isKeyworded(p4flogs[path]) ==>
        r.value.data == ops.content(p4flogs[path])
      ensures r.Some? && ops.isKeyworded(p4flogs[path]) ==>
        r.value.data == ops.expandKeywords(if r.value.isLink then RStrip(ops.content(p4flogs[path])) else ops.content(p4flogs[path]))
    {
      if path in removed then None
      else
        var p4flog := p4flogs[path];
        var raw := ops.content(p4flog);
        var islink := ops.isSymlink(p4flog);
        var data := if islink then RStrip(raw) else raw;
        var data' := if ops.isKeyworded(p4flog) then ops.expandKeywords(data) else data;
        Some(FileContext(path, data', islink, ops.isExec(p4flog), MovedGet(moved, path)))
    }

    /** The commit `_create_commit` asks for, on top of `parent`. */
    function CommitFor(parent: Node, p4cl: Changelist, p4flogs: map<string, Filelog>, removed: set<string>,
                       moved: map<string, Option<string>>): (req: CommitRequest)
      ensures req.parents == (parent, None)
      ensures req.files == p4flogs.Keys == req.changes.Keys
      ensures forall p :: p in req.changes ==> req.changes[p] == GetFile(p, removed, p4flogs, moved)
      ensures req.extra == map[P4_CHANGELIST_EXTRA := p4cl.cl]
    {
      CommitRequest(
        (parent, None),
        p4cl.description,
        p4flogs.Keys,
        map p | p in p4flogs :: GetFile(p, removed, p4flogs, moved),
        p4cl.user,
        p4cl.hgdate,
        map[P4_CHANGELIST_EXTRA := p4cl.cl])
    }

    /** The commit `_import` asks for: one change per record's repository path, on top of `parent`. */
    function ImportRequest(parent: Node, p4cl: Changelist, fstat: seq<FstatRecord>): (req: CommitRequest)
      ensures req.parents == (parent, None)
      ensures req.files == set i | 0 <= i < |fstat| :: HgPath(fstat[i])
      ensures req.extra == map[P4_CHANGELIST_EXTRA := p4cl.cl]
    {
      var p4flogs := Filelogs(fstat, p4cl.cl);
      FilelogsConsistent(fstat, p4cl.cl);
      FilelogsKeys(fstat, p4cl.cl);
      CommitFor(parent, p4cl, p4flogs, Removed(fstat), Moves(p4cl.files, ClientspecFiles(p4flogs)))
    }

    /**
     * What `_import` yields for a changelist on top of `parent`: it fails
     * exactly when the commit fails, with the commit's error; otherwise the
     * new node and the largefiles among the added-or-modified files.
     */
    function Import(parent: Node, p4cl: Changelist, fstat: seq<FstatRecord>,
                    commit: CommitRequest -> Result<Node, string>,
                    lfsInfo: (Node, string) -> (bool, string)): (r: Result<(Node, seq<Largefile>), string>)
      ensures r.Failure? <==> commit(ImportRequest(parent, p4cl, fstat)).Failure?
      ensures r.Failure? ==> r.error == commit(ImportRequest(parent, p4cl, fstat)).error
      ensures r.Success? ==> r.value.0 == commit(ImportRequest(parent, p4cl, fstat)).value
      ensures r.Success? ==> r.value.1 == Largefiles(p4cl.cl, AddedOrModified(fstat), r.value.0, lfsInfo)
    {
      match commit(ImportRequest(parent, p4cl, fstat))
      case Failure(e) => Failure(e)
      case Success(n) => Success((n, Largefiles(p4cl.cl, AddedOrModified(fstat), n, lfsInfo)))
    }

    /** The line written to the error stream when an import fails: the prefix, the changelist number in decimal, the error. */
    function FailureMessage(cl: nat, e: string): (msg: string)
      ensures var d := NatToString(cl);
        && |msg| == 19 + |d| + 2 + |e| + 1
        && msg[..19] == "Failed importing CL"
        && msg[19..19 + |d|] == d
        && msg[19 + |d|..] == ": " + e + "\n"
    {
      var prefix, d, rest := "Failed importing CL", NatToString(cl), ": " + e + "\n";
      assert |prefix| == 19;
      var msg := prefix + d + rest;
      assert msg[..19] == prefix;
      assert msg[19..19 + |d|] == d;
      assert msg[19 + |d|..] == rest;
      msg
    }

    /**
     * `importcl`: import the changelist and advance `node` to the new commit;
     * on failure report it, leave `node` as it was and hand the error back.
     */
    method ImportCl(p4cl: Changelist, fstat: seq<FstatRecord>,
                    commit: CommitRequest -> Result<Node, string>,
                    lfsInfo: (Node, string) -> (bool, string))
      returns (r: Result<(Node, seq<Largefile>), string>, errLog: string)
      modifies this
      ensures r == Import(old(node), p4cl, fstat, commit, lfsInfo)
      ensures r.Success? ==> node == r.value.0 && errLog == ""
      ensures r.Failure? ==> node == old(node) && errLog == FailureMessage(p4cl.cl, r.error)
    {
      var addedOrModified, removed, p4flogs := Classify(fstat, p4cl.cl);
      FilelogsConsistent(fstat, p4cl.cl);
      var moved := GetMoveInfo(p4cl, p4flogs);
      var result := commit(CommitFor(node, p4cl, p4flogs, removed, moved));
      match result {
        case Failure(e) =>
          errLog := FailureMessage(p4cl.cl, e);
          r := Failure(e);
        case Success(newNode) =>
          var largefiles := GetLargefiles(p4cl, addedOrModified, newNode, lfsInfo);
          node := newNode;
          errLog := "";
          r := Success((newNode, largefiles));
      }
    }
  }

  /** Symlink content loses its trailing newline from Perforce. */
  lemma SymlinkNewlineStripped(s: string)
    requires s == [] || !IsWhitespace(s[|s| - 1])
    ensures RStrip(s + "\n") == s
  {
    assert (s + "\n")[..|s|] == s;
  }
}

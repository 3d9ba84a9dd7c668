# Six pieces of sequential logic from a source-control server and its extensions

This project models, in Dafny, six small pieces of sequential logic from a repository that holds a Mercurial-compatible server, its blob repository, a virtual-filesystem client, and Mercurial extensions. It proves properties of each piece:

- **`BlobrepoManifest`** (`Manifest.dfy`): the parser of Mercurial manifest text. A manifest has one line per entry, `name NUL 40-hex-digit-hash [flag] LF`. The parser turns it into a map from name to entry id, or into one precise error. It also covers the null-id shortcut of `BlobManifest::load`.
- **`DataEntry`** (`DataEntry.dfy`): a stored file revision. Its data can be read with or without validation. Validation recomputes the node hash: SHA-1 over the smaller parent, then the larger parent, then the data.
- **`Hostname`** (`Hostname.dfy`): the host scheme of a hostname. It is the longest prefix made only of ASCII letters.
- **`Blacklist`** (`Blacklist.dfy`): the decision to skip an integration test. It looks at the platform's blacklist table, the `EDEN_RUN_BLACKLISTED_TESTS` override and the test's class and method names.
- **`P4Import`** (`P4Import.dfy`): importing one Perforce changelist as one Mercurial commit. It is a class `ChangelistImporter`:
  - a `node` field that `ImportCl` advances;
  - the `_import` loop (`Classify`), proved equal to three specification functions;
  - the move map (`GetMoveInfo`);
  - the largefile filter (`GetLargefiles`);
  - the per-path file decision (`GetFile`) and the commit request.
- **`Infinitepush`** (`Infinitepush.dfy`): scratch-branch pushes. It covers:
  - building the push part;
  - revset validation and the fast-forward rule;
  - the unknown-bookmark check;
  - the push summary;
  - the update of the bundle index (class `BundleIndex`: bookmark-to-node and node-to-bundle maps) and of the bundle store (class `BundleStore`);
  - the bookmarks `listkeys` merge;
  - the phase-move filter.

Three helper modules support them. `Wrappers` holds `Option`, `Result` and `Outcome`. `Bytes` holds a `byte` newtype and lexicographic order. `Strings` holds decimal rendering of naturals.

Collaborators are passed in as parameters rather than implemented:

| Collaborator | Parameter |
|---|---|
| SHA-1 | function `sha1` from bytes to nodes |
| `MPathElement::new` | predicate `validPath` |
| Mercurial hex-hash parsing | `DecodeHash`: exactly 40 hex digits of either case |
| `importer.relpath` | class constants `relpath` and `relpathIfExists` |
| Perforce content and type queries, keyword substitution | the `FileOps` record |
| the in-memory commit | function `commit` from a `CommitRequest` to a `Result` |
| the LFS lookup | function `lfsInfo` |
| the branch-pattern matcher | function `matcher` |
| the wrapped `listkeys` | function `listkeys` |
| the repository opened on a pushed bundle | the `BundleRepo` value: revisions, heads, membership, descent |

## Model

| member | source | states |
|---|---|---|
| `BlobrepoManifest.Find` | blobrepo/src/manifest.rs:284-289 | A found index holds the needle and no earlier element does. The result is None exactly when the needle does not occur. |
| `BlobrepoManifest.FindIsFirst` | blobrepo/src/manifest.rs:284-289 | The first index holding the needle is the one `find` returns. |
| `BlobrepoManifest.DecodeEncodeHex` | blobrepo/src/manifest.rs:263-267 | Lower-case hex of 20 bytes decodes back to the same bytes, so hashes written by Mercurial parse. |
| `BlobrepoManifest.ParseHgEntry` | blobrepo/src/manifest.rs:260-282 | Fewer than 40 bytes fail with "hash too small", and only those. More than 41 bytes always fail. A success had 40 or 41 bytes whose first 40 decode to the entry's hash. |
| `BlobrepoManifest.ParseHgEntryErrors` | blobrepo/src/manifest.rs:263-268 | With at least 40 bytes: an undecodable hash fails "malformed hash". A decodable hash with more than one flag byte fails "More than 1 flag". |
| `BlobrepoManifest.FlagTable` | blobrepo/src/manifest.rs:270-278 | The flag mapping: no flag is a regular file, `l` a symlink, `x` an executable, `t` a tree manifest. Any other byte is "Unknown flag". |
| `BlobrepoManifest.EntryRoundTrip` | blobrepo/src/manifest.rs:260-282 | Every entry id, written as Mercurial writes it, parses back to itself. |
| `BlobrepoManifest.SplitLines` | blobrepo/src/manifest.rs:51 | At least one line, and no line holds a newline byte. |
| `BlobrepoManifest.JoinSplitLines` | blobrepo/src/manifest.rs:51 | Splitting on newlines loses no byte: joining the pieces with newlines gives back the text. |
| `BlobrepoManifest.SplitLinesAppend` | blobrepo/src/manifest.rs:51 | The lines of `x LF y` are the lines of `x` followed by the lines of `y`. |
| `BlobrepoManifest.ParseLine` | blobrepo/src/manifest.rs:56-69 | No NUL fails "no \0", and only then. The "no hash" error never occurs. A success's name is exactly the bytes before the first NUL, and that name is a valid path. The entry is parsed from everything after that NUL. |
| `BlobrepoManifest.ParseImpl` | blobrepo/src/manifest.rs:48-75 | The loop over the split lines, with its early break and its error returns, yields exactly the specification `ManifestParse`. |
| `BlobrepoManifest.Parse` | blobrepo/src/manifest.rs:77-81 | Succeeds exactly when `ManifestParse` does, with its map as the content. Otherwise it passes its error on. |
| `BlobrepoManifest.FirstBlank` | blobrepo/src/manifest.rs:52-54 | The index of the first empty line: every earlier line is non-empty. |
| `BlobrepoManifest.StopsAtEmptyLine` | blobrepo/src/manifest.rs:52-54 | Lines after an empty line are never looked at. |
| `BlobrepoManifest.NothingAfterBlankLine` | blobrepo/src/manifest.rs:51-54 | Bytes after a blank line in the text add no entry and raise no error. |
| `BlobrepoManifest.TrailingNewlineAddsNothing` | blobrepo/src/manifest.rs:51-54 | A final newline, and the empty segment after it, change nothing. |
| `BlobrepoManifest.FailsAtFirstBadLine` | blobrepo/src/manifest.rs:56-69 | When earlier lines parse, the first line before the blank line that fails decides the error of the whole parse. |
| `BlobrepoManifest.LineWithoutNulFails` | blobrepo/src/manifest.rs:56-57 | A line before the blank line that has no NUL makes the parse fail. If every earlier line parses, the error is "no \0". |
| `BlobrepoManifest.SuccessIffAllLinesParse` | blobrepo/src/manifest.rs:51-72 | The parse succeeds exactly when every line before the first blank line parses. |
| `BlobrepoManifest.EntriesOfParsedLines` | blobrepo/src/manifest.rs:51-71 | When every line parses, the parsed pairs are the lines' pairs, one for one and in order. |
| `BlobrepoManifest.SuccessIsInsertAll` | blobrepo/src/manifest.rs:51-71 | A successful parse is the map built by inserting the parsed pairs in line order. |
| `BlobrepoManifest.InsertAllKeys` | blobrepo/src/manifest.rs:71 | After the inserts, the keys are the old keys plus every inserted name. |
| `BlobrepoManifest.InsertAllUntouched` | blobrepo/src/manifest.rs:71 | A name no pair carries keeps its old presence and value. |
| `BlobrepoManifest.InsertAllLastWins` | blobrepo/src/manifest.rs:71 | A name holds the entry of the last pair that carries it. |
| `BlobrepoManifest.SuccessKeys` | blobrepo/src/manifest.rs:51-71 | On success, the map's keys are exactly the names on the lines before the first blank line. |
| `BlobrepoManifest.SuccessValues` | blobrepo/src/manifest.rs:51-71 | On success, each name holds the entry of the last such line that carries it. |
| `BlobrepoManifest.LineRoundTrip` | blobrepo/src/manifest.rs:56-69 | A written line, whose name has neither NUL nor newline and is a valid path, parses back to its name and entry. |
| `BlobrepoManifest.ParseFormattedLine` | blobrepo/src/manifest.rs:51-71 | One loop iteration over a written line inserts that line's entry and goes on with the rest of the text. |
| `BlobrepoManifest.ManifestRoundTrip` | blobrepo/src/manifest.rs:48-75 | Writing well-formed entries one per line and parsing the text gives the map that inserting them in order builds. |
| `BlobrepoManifest.NullManifest` | blobrepo/src/manifest.rs:160-167 | The null manifest has no entries, no parents, and the null hash as both its node id and computed node id. |
| `BlobrepoManifest.Load` | blobrepo/src/manifest.rs:155-170 | The null id yields the null manifest whatever the blobstore would give. Any other id yields what fetching gives. |
| `DataEntry.New` | lib/types/src/dataentry.rs:34-36 | `new` stores key, data and parents unchanged. |
| `DataEntry.KeyOf` | lib/types/src/dataentry.rs:38-40 | The key read back, with the entry's data and parents, rebuilds the whole entry. |
| `DataEntry.NewThenRead` | lib/types/src/dataentry.rs:34-50 | The key of a new entry is the given key. Reading it without validation gives the given data. |
| `DataEntry.SortedParents` | lib/types/src/dataentry.rs:57-60 | The pair holds the same two parents, the smaller first. |
| `DataEntry.SortedParentsIsMinMax` | lib/types/src/dataentry.rs:55-60 | Sorting does not depend on the order the parents come in. |
| `DataEntry.SortedParentsUnique` | lib/types/src/dataentry.rs:57-60 | Any smaller-first arrangement of the two parents is the sorted pair. |
| `DataEntry.Validate` | lib/types/src/dataentry.rs:54-80 | Passes exactly when SHA-1 of smaller parent, larger parent and data equals the key's node. A failure reports the expected and the computed node. |
| `DataEntry.SwapParentsKeepsValidation` | lib/types/src/dataentry.rs:55-60 | Swapping p1 and p2 never changes the outcome of validation. |
| `DataEntry.Data` | lib/types/src/dataentry.rs:45-50 | Unvalidated reads always succeed and give the stored data. A validated read fails exactly when validation fails, with its error, and otherwise gives the same data. |
| `Hostname.FindNonAlphabetic` | server/repo_listener/src/request_handler.rs:252 | None exactly when every character is an ASCII letter. Otherwise the first non-letter, with only letters before it. |
| `Hostname.HostnameScheme` | server/repo_listener/src/request_handler.rs:250-258 | The scheme is a prefix of the hostname made only of ASCII letters. When it is shorter, the next character is not a letter. |
| `Hostname.AllLettersUnchanged` | server/repo_listener/src/request_handler.rs:255 | An all-letter hostname, the empty one included, is returned unchanged. |
| `Hostname.SchemeIsLongestAlphabeticPrefix` | server/repo_listener/src/request_handler.rs:252-254 | Any all-letter prefix followed by a non-letter or the end is the scheme: the longest such prefix is unique. |
| `Hostname.SchemeIdempotent` | server/repo_listener/src/request_handler.rs:250-258 | Taking the scheme of a scheme changes nothing. |
| `Hostname.DevvmExample` | server/repo_listener/src/request_handler.rs:247-248 | "devvm001.lla1.facebook.com" gives "devvm". |
| `Hostname.HgExample` | server/repo_listener/src/request_handler.rs:249 | "hg001.lla1.facebook.com" gives "hg". |
| `Blacklist.PlatformTable` | eden/integration/lib/blacklist.py:21-25 | Every platform other than win32 has an empty table. |
| `Blacklist.EnvGet` | eden/integration/lib/blacklist.py:155 | An unset variable reads as the empty string. |
| `Blacklist.ClassKey` | eden/integration/lib/blacklist.py:158-163 | The key is `module.Class`. If that starts with "eden.integration.", one copy of the prefix is removed; otherwise it is unchanged. |
| `Blacklist.IsBlacklisted` | eden/integration/lib/blacklist.py:152-174 | The outcome is decided as follows: an empty table blacklists nothing; override "1" blacklists nothing; a class with no table entry is not blacklisted; otherwise a `True` entry blacklists every method, and a list entry blacklists exactly the methods it names. |
| `Blacklist.SkipTestIfBlacklisted` | eden/integration/lib/blacklist.py:147-149 | Skips, with the fixed reason, exactly when the test is blacklisted. |
| `Blacklist.NothingSkippedOffWindows` | eden/integration/lib/blacklist.py:21-22 | Off Windows no test is ever skipped. |
| `Blacklist.PrefixStrippedOnce` | eden/integration/lib/blacklist.py:161-163 | The prefix is stripped once only: a doubled prefix keeps its second copy. |
| `P4Import.RStrip` | hgext/p4fastimport/seqimporter.py:111-114 | The result is a prefix of the input that does not end in whitespace. Everything it drops is whitespace. |
| `P4Import.RStripIdempotent` | hgext/p4fastimport/seqimporter.py:114 | Stripping twice is stripping once. |
| `P4Import.RStripKeepsContent` | hgext/p4fastimport/seqimporter.py:114 | Nothing up to the last non-whitespace character is removed. |
| `P4Import.SymlinkNewlineStripped` | hgext/p4fastimport/seqimporter.py:111-114 | The trailing newline Perforce adds to a symlink's target is removed, and only that. |
| `P4Import.MovedGet` | hgext/p4fastimport/seqimporter.py:125 | `moved.get(path)`: the recorded source if there is one, otherwise None. |
| `P4Import.ChangelistImporter.Classify` | hgext/p4fastimport/seqimporter.py:35-48 | The `_import` loop yields exactly the specification functions `AddedOrModified`, `Removed` and `Filelogs` of the records. |
| `P4Import.ChangelistImporter.FilelogsKeys` | hgext/p4fastimport/seqimporter.py:42-43 | The keys of `p4flogs` are exactly the repository paths of the records. |
| `P4Import.ChangelistImporter.FilelogsLastWins` | hgext/p4fastimport/seqimporter.py:41-43 | A path's filelog is built from the last record with that path. |
| `P4Import.ChangelistImporter.FilelogsConsistent` | hgext/p4fastimport/seqimporter.py:42-43 | Each filelog sits under the repository path of its own depot file. |
| `P4Import.ChangelistImporter.RemovedMembers` | hgext/p4fastimport/seqimporter.py:45-46 | A path is removed exactly when some record with a delete or archive action has it. |
| `P4Import.ChangelistImporter.AddedOrModifiedMembers` | hgext/p4fastimport/seqimporter.py:47-48 | A `(depot path, repository path)` pair is listed exactly when some other record yields it. |
| `P4Import.ChangelistImporter.AddedOrModifiedAppend` | hgext/p4fastimport/seqimporter.py:48 | The list keeps record order: the list of two runs of records is the two lists one after the other. |
| `P4Import.ChangelistImporter.ClientspecFiles` | hgext/p4fastimport/seqimporter.py:71-73 | The inverted table has exactly the filelogs' depot files as keys. Each maps to the repository path holding its filelog. |
| `P4Import.ChangelistImporter.GetMoveInfo` | hgext/p4fastimport/seqimporter.py:68-93 | The loop yields exactly the specification `Moves` of the changelist's file table. |
| `P4Import.ChangelistImporter.MovesSnoc` | hgext/p4fastimport/seqimporter.py:74-92 | Each file-table entry adds a move only when its depot file is in the client view and its `src` is truthy. |
| `P4Import.ChangelistImporter.MovesKeys` | hgext/p4fastimport/seqimporter.py:74-92 | Move destinations are exactly the client-view files with a truthy `src`. |
| `P4Import.ChangelistImporter.MovesValue` | hgext/p4fastimport/seqimporter.py:87-92 | A destination's value is `relpath(src)`, which may be None, from its last entry. |
| `P4Import.ChangelistImporter.MoveOfFile` | hgext/p4fastimport/seqimporter.py:71-92 | With distinct file names, a moved client-view file is recorded under its own repository path with the repository path of its source. |
| `P4Import.ChangelistImporter.GetLargefiles` | hgext/p4fastimport/seqimporter.py:56-66 | The loop yields exactly the specification `Largefiles`. |
| `P4Import.ChangelistImporter.LargefilesMembers` | hgext/p4fastimport/seqimporter.py:59-64 | A largefile is reported exactly when a given file is an LFS file, with its oid and depot path. |
| `P4Import.ChangelistImporter.LargefilesAppend` | hgext/p4fastimport/seqimporter.py:59-64 | Largefiles keep the order of the files they come from. |
| `P4Import.ChangelistImporter.GetFile` | hgext/p4fastimport/seqimporter.py:97-126 | None, meaning a deletion, exactly for removed paths. Otherwise: the symlink and exec flags of the filelog; symlink content right-stripped; keyworded content expanded; copy source `moved.get(path)`. |
| `P4Import.ChangelistImporter.CommitFor` | hgext/p4fastimport/seqimporter.py:128-137 | The commit sits on `(node, None)`. It touches exactly the `p4flogs` paths. Each path's content is `getfile`'s answer, and the extras record the changelist number. |
| `P4Import.ChangelistImporter.ImportRequest` | hgext/p4fastimport/seqimporter.py:37-54 | The commit asked for sits on `parent` with no second parent, changes exactly the records' repository paths, and records the changelist number in the extras. |
| `P4Import.ChangelistImporter.Import` | hgext/p4fastimport/seqimporter.py:30-54 | Fails exactly when the commit fails, with its error. On success gives the new node and the largefiles among the added-or-modified files. |
| `P4Import.ChangelistImporter.FailureMessage` | hgext/p4fastimport/seqimporter.py:27 | "Failed importing CL", then the changelist number in decimal, then ": ", the error and a newline. |
| `P4Import.ChangelistImporter.ImportCl` | hgext/p4fastimport/seqimporter.py:21-28 | Yields the specification `Import`. On success `node` becomes the new commit and nothing is logged. On failure `node` is unchanged, "Failed importing CL<n>: <error>" is logged, and the error is passed on. |
| `Strings.NatToString` | hgext/p4fastimport/seqimporter.py:27 | Decimal rendering: at least one digit, all digits, no leading zero, and the digits denote `n`. |
| `Infinitepush.ValidateRevset` | infinitepush/__init__.py:279-287 | An empty revset aborts "nothing to push". More than one head aborts. Otherwise it passes. |
| `Infinitepush.GetRevs` | infinitepush/__init__.py:497-515 | Validation errors pass through. The revisions are returned exactly when there is no old node, the old node is in the bundle and some revision descends from it, or the push is forced. Otherwise "non-forward push" with the `--force` hint. |
| `Infinitepush.Upper` | infinitepush/__init__.py:309 | `str.upper()` on ASCII: same length, each lower-case letter raised. |
| `Infinitepush.PartTypeIsUpperCase` | infinitepush/__init__.py:46 | The mandatory part type is "B2X:INFINITEPUSH". |
| `Infinitepush.PartParams` | infinitepush/__init__.py:300-305 | The part parameters follow these rules: `bookmark` and `create` are present exactly when the bookmark is truthy; `create` is "1" or "0" as `create` is set or not; `force` is present exactly when forced, and is then "1"; there are no other keys. |
| `Infinitepush.GetScratchBranchPart` | infinitepush/__init__.py:289-311 | No outgoing commits aborts first. A peer without the capability aborts "no server support for 'b2x:infinitepush'". Otherwise the part is built exactly when the missing commits have at most one head, with the upper-cased type and those parameters. |
| `Infinitepush.PhaseMove` | infinitepush/__init__.py:407-414 | The wrapped phase move is called exactly when the phase is not public, with the same nodes. |
| `Infinitepush.PhaseMoveNeverPublishes` | infinitepush/__init__.py:407-414 | A phase move that is passed on never makes commits public. |
| `Infinitepush.BeforeNewlineShape` | infinitepush/__init__.py:552 | `split('\n')[0]` is a newline-free prefix that ends at the first newline or at the end. |
| `Infinitepush.FirstLine` | infinitepush/__init__.py:552 | The printed description is at most 50 characters and no longer than the description. |
| `Infinitepush.FirstLineShape` | infinitepush/__init__.py:552 | The printed description is a newline-free prefix of at most 50 characters. It is cut short only by the first newline, the end, or the limit. |
| `Infinitepush.CommitLinesAt` | infinitepush/__init__.py:551-553 | Line `i` of the listing describes commit `i`. |
| `Infinitepush.PushSummaryShape` | infinitepush/__init__.py:548-558 | The summary is a header, then the first min(n, 10) commits. Only when n > 11 does it add "..." and the last commit, so 11 commits show their first ten. |
| `Infinitepush.Header` | infinitepush/__init__.py:548-549 | The header starts "pushing " and ends in ":" and a newline, with an "s" before the colon exactly when more than one commit is pushed. |
| `Infinitepush.CommitLine` | infinitepush/__init__.py:553 | A commit line is four spaces, the short node, two spaces, the cut first line of the description, and a newline. |
| `Infinitepush.HeaderPlural` | infinitepush/__init__.py:548-549 | "commits" is plural exactly when more than one commit is pushed. |
| `Infinitepush.ListCommits` | infinitepush/__init__.py:551-553 | The loop yields the commit lines for the first `k` commits. |
| `Infinitepush.Summarize` | infinitepush/__init__.py:548-558 | The warnings printed for a push are exactly `PushSummary`. |
| `Infinitepush.BundleIndex.GetNode` | infinitepush/__init__.py:538 | The node of a bookmark, or None for an unknown one. |
| `Infinitepush.BundleIndex.AddBundle` | infinitepush/__init__.py:571 | Records each node under the key. Bookmarks are unchanged. |
| `Infinitepush.BundleIndex.AddBookmark` | infinitepush/__init__.py:574 | Moves the bookmark to the node. Bundles are unchanged. |
| `Infinitepush.BundleIndex.AddBookmarkAndBundle` | infinitepush/__init__.py:567-568 | Records the nodes under the key and moves the bookmark. |
| `Infinitepush.WithBundle` | infinitepush/__init__.py:567-571 | The indexed nodes are the old ones plus the new ones. Every new node maps to the key, and the others keep their bundle. |
| `Infinitepush.BundleStore.Write` | infinitepush/__init__.py:565 | Appends the bundle to the store and returns its key. |
| `Infinitepush.NewNodes` | infinitepush/__init__.py:562 | The filter never yields more nodes than were pushed. Which nodes it keeps is `NewNodesMembers`. |
| `Infinitepush.NewNodesMembers` | infinitepush/__init__.py:562 | A pushed node is kept exactly when the index gives it no bundle or an empty (falsy) bundle key. |
| `Infinitepush.NewNodesCons` | infinitepush/__init__.py:562 | One filter step: the verdict on the first node, followed by the filtered rest. |
| `Infinitepush.NewNodesAppend` | infinitepush/__init__.py:562 | The filter keeps order: filtering a concatenation is the concatenation of the filtered parts. |
| `Infinitepush.NewNodesSingle` | infinitepush/__init__.py:562 | A single node is dropped exactly when it already has a truthy bundle key. |
| `Infinitepush.NewNodesLast` | infinitepush/__init__.py:562-568 | When the last pushed node is new, it is also the last new node, the one the bookmark is pointed at. |
| `Infinitepush.Nodes` | infinitepush/__init__.py:560 | The hex node of each revision, in order. |
| `Infinitepush.PushedRevs` | infinitepush/__init__.py:533-545 | A truthy bookmark with no index node and `create` other than "1" aborts "unknown bookmark" with the `--create` hint. |
| `Infinitepush.PushedRevsValid` | infinitepush/__init__.py:533-545 | An accepted part pushes all of the bundle's revisions: a non-empty revset with one head. |
| `Infinitepush.StorePush` | infinitepush/__init__.py:560-574 | The index and store update is `StoredPush`, as follows: when some node is new, the bundle is written once and the new nodes are indexed under its key; in that case, a bookmark moves to the last new node; with nothing new, only a bookmark moves, to the last pushed node; otherwise nothing changes. |
| `Infinitepush.Bundle2ScratchBranch` | infinitepush/__init__.py:518-583 | Aborts exactly when the checks refuse the part, with their error, printing nothing and changing nothing. Otherwise it prints the push summary, stores the push as in `StorePush`, and answers 1. |
| `Infinitepush.ListedBookmarks` | infinitepush/__init__.py:188-209 | The merge with patterns behaves as follows: the keys are a subset of the patterns; a real bookmark among the patterns is always listed with its own node; any other pattern is listed exactly when it matches the scratch pattern and the index has a node for it, and then with that node. |
| `Infinitepush.FindScratch` | infinitepush/__init__.py:198-203 | The matching patterns with an index node, and their nodes. |
| `Infinitepush.MergeBookmarks` | infinitepush/__init__.py:205-208 | Real bookmarks among the patterns are written over the scratch results. |
| `Infinitepush.ListKeys` | infinitepush/__init__.py:188-211 | For the bookmarks namespace with patterns, the result is `ListedBookmarks`. Otherwise it is the wrapped `listkeys`. |

## Left out

- `eden/fs/fuse/FuseDispatcher.cpp` is not modelled. It holds only default stubs that raise errors, a field-by-field copy of `stat`, and fixed `statfs` constants.
- The request handler around `hostname_scheme` is not modelled: futures, SSH stdio, shared state, logging and statistics.
- `loadlimiting_configs` is not modelled: it uses floating-point scaling and foreign configuration calls.
- Manifest fetching, non-null `BlobManifest::load`, and the `lookup`/`list` entry construction are not modelled. They are blobstore futures; `Load` takes the fetch result as a parameter.
- SHA-1 is not computed. It is an uninterpreted parameter over the concatenation of what the hasher is fed, since the three `input` calls equal one call on the concatenation.
- `Parents::into_nodes` is not part of this model. `Parents` is the pair of nodes it yields.
- `MPathElement::new` is the given predicate `validPath`. Its error text is not modelled.
- `HgNodeHash` parsing is not part of this model. `DecodeHash` assumes it accepts exactly 40 hex digits of either case. The `from_utf8` step is subsumed, since hex digits are ASCII.
- The Perforce shell calls (`parse_fstat`, `get_p4_file_content`), LFS inspection and `KEYWORD_REGEX` substitution are given functions. The values of `ACTION_DELETE + ACTION_ARCHIVE` are the constant `removalActions`.
- P4Import.ChangelistImporter.ImportCl: the only failure modelled is the commit's. Exceptions from the Perforce calls or from `relpath` are not visible and are not modelled.
- P4Import.ChangelistImporter.GetMoveInfo: `p4flogs` is a map, so the key order of `items()` does not arise. The changelist's `files` table is a sequence in its iteration order.
- The `memctx` internals and the `ui.debug` output are not modelled.
- The infinitepush plumbing is not modelled: configuration, wire protocol and bundle2 registration, temporary bundle files and their removal, and the `_skippushkey` record. The changegroup data is an opaque parameter.
- The bundle index and store are modelled as maps and a list of written blobs, not through their storage back ends.
- Infinitepush.FirstLineShape: descriptions are modelled as character strings, so the limit of 50 counts characters. The source runs under Python 2, where the description is a byte string and `[:50]` keeps 50 bytes; a multi-byte UTF-8 description can be cut differently, even inside a character. `Infinitepush.FirstLine` has the same gap.
- Infinitepush.PushedRevs: beyond the unknown-bookmark abort, its contract leaves the outcome to `GetRevs` and `PushedRevsValid` rather than restating each branch.
- The `False` value of a blacklist entry is not modelled: the source asserts that a boolean entry is `True`. The concrete entries of the Windows table are a parameter.

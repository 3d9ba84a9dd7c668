/**
 * The Mercurial manifest text of a root manifest or tree node, as the blob
 * repository reads it: one line per entry,
 *
 *     <name> NUL <40 hex digits of the entry's node hash> [<one flag byte>] LF
 *
 * parsed into a map from name to entry id.  The map follows `BTreeMap::insert`:
 * a name that occurs twice keeps the entry of its last line.
 */
module BlobrepoManifest {
  import opened Wrappers
  import opened Bytes

  const NUL: byte := 0
  const NEWLINE: byte := 10
  const FLAG_SYMLINK: byte := 108      // 'l'
  const FLAG_EXECUTABLE: byte := 120   // 'x'
  const FLAG_TREE: byte := 116         // 't'

  /** Number of hex digits that spell a node hash in the manifest text. */
  const HASH_HEX_LEN: nat := 40

  /** A 20-byte Mercurial node hash. */
  type NodeHash = s: seq<byte> | |s| == 20 witness [0, 0, 0, 0, 0, 0, 0, 0, 0, 0, 0, 0, 0, 0, 0, 0, 0, 0, 0, 0]

  const NULL_HASH: NodeHash := [0, 0, 0, 0, 0, 0, 0, 0, 0, 0, 0, 0, 0, 0, 0, 0, 0, 0, 0, 0]

  datatype FileType = Regular | Symlink | Executable

  datatype EntryId =
    | File(fileType: FileType, fileNode: NodeHash)
    | Manifest(manifestId: NodeHash)
  {
    function Hash(): NodeHash {
      match this
      case File(_, h) => h
      case Manifest(h) => h
    }
  }

  datatype ParseError =
    | NoNul
    | NoHash
    | InvalidPath(name: seq<byte>)
    | HashTooSmall(entry: seq<byte>)
    | MalformedHash(hash: seq<byte>)
    | MoreThanOneFlag(flags: seq<byte>)
    | UnknownFlag(flag: byte)

  datatype ManifestContent = ManifestContent(files: map<seq<byte>, EntryId>)

  datatype BlobManifest = BlobManifest(
    nodeId: NodeHash,
    p1: Option<NodeHash>,
    p2: Option<NodeHash>,
    computedNodeId: NodeHash,
    content: ManifestContent)

  // ---------------------------------------------------------------------------
  // `find`: the position of the first element equal to the needle

  function Find<T(==)>(haystack: seq<T>, needle: T): (r: Option<nat>)
    ensures r.Some? ==> r.value < |haystack| && haystack[r.value] == needle
    ensures r.Some? ==> needle !in haystack[..r.value]
    ensures r.None? <==> needle !in haystack
    decreases |haystack|
  {
    if haystack == [] then None
    else if haystack[0] == needle then Some(0)
    else match Find(haystack[1..], needle)
      case None => None
      case Some(i) =>
        assert haystack[..i + 1] == [haystack[0]] + haystack[1..][..i];
        Some(i + 1)
  }

  /** The first occurrence is the only index `Find` can return. */
  lemma FindIsFirst<T>(haystack: seq<T>, needle: T, k: nat)
    requires k < |haystack| && haystack[k] == needle && needle !in haystack[..k]
    ensures Find(haystack, needle) == Some(k)
  {
    assert haystack[..k + 1] == haystack[..k] + [needle];
  }

  // ---------------------------------------------------------------------------
  // Hex spelling of node hashes

  function HexDigitValue(b: byte): (r: Option<byte>)
    ensures r.Some? ==> r.value < 16
  {
    if 48 <= b <= 57 then Some(b - 48)         // '0'..'9'
    else if 97 <= b <= 102 then Some(b - 87)   // 'a'..'f'
    else if 65 <= b <= 70 then Some(b - 55)    // 'A'..'F'
    else None
  }

  /** The lower-case hex digit for a value below 16. */
  function HexDigit(v: byte): (d: byte)
    requires v < 16
    ensures HexDigitValue(d) == Some(v)
  {
    if v < 10 then 48 + v else 87 + v
  }

  function DecodeHex(h: seq<byte>): (r: Option<seq<byte>>)
    requires |h| % 2 == 0
    ensures r.Some? ==> |r.value| == |h| / 2
    decreases |h|
  {
    if h == [] then Some([])
    else match (HexDigitValue(h[0]), HexDigitValue(h[1]), DecodeHex(h[2..]))
      case (Some(hi), Some(lo), Some(rest)) => Some([(hi as int * 16 + lo as int) as byte] + rest)
      case _ => None
  }

  function EncodeHex(bs: seq<byte>): (h: seq<byte>)
    ensures |h| == 2 * |bs|
    ensures forall i :: 0 <= i < |h| ==> HexDigitValue(h[i]).Some?
    decreases |bs|
  {
    if bs == [] then [] else [HexDigit(bs[0] / 16), HexDigit(bs[0] % 16)] + EncodeHex(bs[1..])
  }

  lemma {:induction false} DecodeEncodeHex(bs: seq<byte>)
    ensures DecodeHex(EncodeHex(bs)) == Some(bs)
    decreases |bs|
  {
    if bs != [] {
      var h := EncodeHex(bs);
      assert h[2..] == EncodeHex(bs[1..]);
      DecodeEncodeHex(bs[1..]);
      assert bs == [bs[0]] + bs[1..];
    }
  }

  /** Parsing the 40 hex digits of a node hash. */
  function DecodeHash(h: seq<byte>): (r: Option<NodeHash>)
    requires |h| == HASH_HEX_LEN
  {
    match DecodeHex(h)
    case Some(bs) => Some(bs)
    case None => None
  }

  // ---------------------------------------------------------------------------
  // `parse_hg_entry`: the text after the NUL

  function ParseHgEntry(data: seq<byte>): (r: Result<EntryId, ParseError>)
    ensures |data| < HASH_HEX_LEN <==> r == Failure(HashTooSmall(data))
    ensures |data| > HASH_HEX_LEN + 1 ==> r.Failure?
    ensures r.Success? ==>
      HASH_HEX_LEN <= |data| <= HASH_HEX_LEN + 1 && DecodeHash(data[..HASH_HEX_LEN]) == Some(r.value.Hash())
  {
    if |data| < HASH_HEX_LEN then Failure(HashTooSmall(data))
    else
      var hash, flags := data[..HASH_HEX_LEN], data[HASH_HEX_LEN..];
      match DecodeHash(hash)
      case None => Failure(MalformedHash(hash))
      case Some(h) =>
        if |flags| > 1 then Failure(MoreThanOneFlag(flags))
        else if |flags| == 0 then Success(File(Regular, h))
        else if flags[0] == FLAG_SYMLINK then Success(File(Symlink, h))
        else if flags[0] == FLAG_EXECUTABLE then Success(File(Executable, h))
        else if flags[0] == FLAG_TREE then Success(Manifest(h))
        else Failure(UnknownFlag(flags[0]))
  }

  /** The error cases of `parse_hg_entry`, in the order the code checks them. */
  lemma ParseHgEntryErrors(data: seq<byte>)
    requires |data| >= HASH_HEX_LEN
    ensures DecodeHash(data[..HASH_HEX_LEN]).None? ==> ParseHgEntry(data) == Failure(MalformedHash(data[..HASH_HEX_LEN]))
    ensures DecodeHash(data[..HASH_HEX_LEN]).Some? && |data| > HASH_HEX_LEN + 1 ==>
      ParseHgEntry(data) == Failure(MoreThanOneFlag(data[HASH_HEX_LEN..]))
  {
  }

  /**
   * The flag table: no flag is a regular file, 'l' a symlink, 'x' an
   * executable, 't' a tree; any other byte is an error.
   */
  lemma FlagTable(data: seq<byte>)
    requires HASH_HEX_LEN <= |data| <= HASH_HEX_LEN + 1 && DecodeHash(data[..HASH_HEX_LEN]).Some?
    ensures var h := DecodeHash(data[..HASH_HEX_LEN]).value;
      ParseHgEntry(data) ==
        if |data| == HASH_HEX_LEN then Success(File(Regular, h))
        else if data[HASH_HEX_LEN] == FLAG_SYMLINK then Success(File(Symlink, h))
        else if data[HASH_HEX_LEN] == FLAG_EXECUTABLE then Success(File(Executable, h))
        else if data[HASH_HEX_LEN] == FLAG_TREE then Success(Manifest(h))
        else Failure(UnknownFlag(data[HASH_HEX_LEN]))
  {
  }

  /** The text Mercurial writes after the NUL for an entry: lower-case hex and the flag. */
  function FormatHgEntry(e: EntryId): (t: seq<byte>)
    ensures |t| == HASH_HEX_LEN || |t| == HASH_HEX_LEN + 1
    ensures NEWLINE !in t && NUL !in t
  {
    var hex := EncodeHex(e.Hash());
    match e
    case File(Regular, _) => hex
    case File(Symlink, _) => hex + [FLAG_SYMLINK]
    case File(Executable, _) => hex + [FLAG_EXECUTABLE]
    case Manifest(_) => hex + [FLAG_TREE]
  }

  /** Every entry id survives being written and parsed back. */
  lemma EntryRoundTrip(e: EntryId)
    ensures ParseHgEntry(FormatHgEntry(e)) == Success(e)
  {
    var t := FormatHgEntry(e);
    assert t[..HASH_HEX_LEN] == EncodeHex(e.Hash());
    DecodeEncodeHex(e.Hash());
  }

  // ---------------------------------------------------------------------------
  // Splitting the text into lines, as `data.split(|b| *b == b'\n')` does

  function SplitLines(data: seq<byte>): (lines: seq<seq<byte>>)
    ensures |lines| >= 1
    ensures forall i :: 0 <= i < |lines| ==> NEWLINE !in lines[i]
    decreases |data|
  {
    match Find(data, NEWLINE)
    case None => [data]
    case Some(i) => [data[..i]] + SplitLines(data[i + 1..])
  }

  /** The inverse of `SplitLines`: the lines joined by newlines. */
  function JoinLines(lines: seq<seq<byte>>): seq<byte>
    requires |lines| >= 1
    decreases |lines|
  {
    if |lines| == 1 then lines[0] else lines[0] + [NEWLINE] + JoinLines(lines[1..])
  }

  /** Splitting loses no byte: the pieces and the separators rebuild the text. */
  lemma {:induction false} JoinSplitLines(data: seq<byte>)
    ensures JoinLines(SplitLines(data)) == data
    decreases |data|
  {
    match Find(data, NEWLINE)
    case None =>
    case Some(i) =>
      var rest := data[i + 1..];
      var lines := SplitLines(data);
      assert lines == [data[..i]] + SplitLines(rest);
      assert lines[1..] == SplitLines(rest);
      JoinSplitLines(rest);
      assert JoinLines(lines) == data[..i] + [NEWLINE] + rest;
      SplitAround(data, i);
  }

  lemma SplitAround(data: seq<byte>, i: nat)
    requires i < |data|
    ensures data == data[..i] + [data[i]] + data[i + 1..]
  {
  }

  lemma SplitLinesCons(line: seq<byte>, rest: seq<byte>)
    requires NEWLINE !in line
    ensures SplitLines(line + [NEWLINE] + rest) == [line] + SplitLines(rest)
  {
    var d := line + [NEWLINE] + rest;
    assert d[..|line|] == line;
    FindIsFirst(d, NEWLINE, |line|);
    assert d[|line| + 1..] == rest;
  }

  // ---------------------------------------------------------------------------
  // The loop of `parse_impl`, as a function over the lines

  /** One loop iteration: name before the first NUL, entry id from what follows it. */
  function ParseLine(line: seq<byte>, validPath: seq<byte> -> bool): (r: Result<(seq<byte>, EntryId), ParseError>)
    ensures NUL !in line <==> r == Failure(NoNul)
    ensures r != Failure(NoHash)
    ensures r.Success? ==> |r.value.0| < |line| && line[|r.value.0|] == NUL && r.value.0 == line[..|r.value.0|]
    ensures r.Success? ==> NUL !in r.value.0 && validPath(r.value.0)
    ensures r.Success? ==> ParseHgEntry(line[|r.value.0| + 1..]) == Success(r.value.1)
  {
    match Find(line, NUL)
    case None => Failure(NoNul)
    case Some(nil) =>
      var name, rest := line[..nil], line[nil..];
      // `rest` starts with the NUL itself, so splitting off its first byte always succeeds
      var hash := rest[1..];
      assert hash == line[nil + 1..];
      if !validPath(name) then Failure(InvalidPath(name))
      else match ParseHgEntry(hash)
        case Failure(e) => Failure(e)
        case Success(id) => Success((name, id))
  }

  function ParseLines(lines: seq<seq<byte>>, validPath: seq<byte> -> bool, acc: map<seq<byte>, EntryId>)
    : Result<map<seq<byte>, EntryId>, ParseError>
    decreases |lines|
  {
    if lines == [] || lines[0] == [] then Success(acc)
    else match ParseLine(lines[0], validPath)
      case Failure(e) => Failure(e)
      case Success(entry) => ParseLines(lines[1..], validPath, acc[entry.0 := entry.1])
  }

  /** What parsing a whole manifest text yields. */
  function ManifestParse(data: seq<byte>, validPath: seq<byte> -> bool): Result<map<seq<byte>, EntryId>, ParseError> {
    ParseLines(SplitLines(data), validPath, map[])
  }

  // ---------------------------------------------------------------------------
  // `ManifestContent::parse_impl` and `parse`

  method ParseImpl(data: seq<byte>, validPath: seq<byte> -> bool) returns (r: Result<map<seq<byte>, EntryId>, ParseError>)
    ensures r == ManifestParse(data, validPath)
  {
    var files: map<seq<byte>, EntryId> := map[];
    var lines := SplitLines(data);
    var i := 0;
    while i < |lines|
      invariant 0 <= i <= |lines|
      invariant ManifestParse(data, validPath) == ParseLines(lines[i..], validPath, files)
    {
      var line := lines[i];
      assert lines[i..][0] == line && lines[i..][1..] == lines[i + 1..];
      if |line| == 0 {
        break;
      }
      var nul := Find(line, NUL);
      if nul.None? {
        return Failure(NoNul);
      }
      var name, rest := line[..nul.value], line[nul.value..];
      var hash := rest[1..];
      if !validPath(name) {
        return Failure(InvalidPath(name));
      }
      var entryId := ParseHgEntry(hash);
      if entryId.Failure? {
        return Failure(entryId.error);
      }
      files := files[name := entryId.value];
      i := i + 1;
    }
    return Success(files);
  }

  method Parse(data: seq<byte>, validPath: seq<byte> -> bool) returns (r: Result<ManifestContent, ParseError>)
    ensures r.Success? <==> ManifestParse(data, validPath).Success?
    ensures r.Success? ==> r.value.files == ManifestParse(data, validPath).value
    ensures r.Failure? ==> r.error == ManifestParse(data, validPath).error
  {
    var files := ParseImpl(data, validPath);
    if files.Failure? {
      return Failure(files.error);
    }
    return Success(ManifestContent(files.value));
  }

  // ---------------------------------------------------------------------------
  // Properties of the parse

  /** Index of the first empty line, or the number of lines if there is none. */
  function FirstBlank(lines: seq<seq<byte>>): (k: nat)
    ensures k <= |lines|
    ensures forall j :: 0 <= j < k ==> lines[j] != []
    ensures k < |lines| ==> lines[k] == []
    decreases |lines|
  {
    if lines == [] || lines[0] == [] then 0 else 1 + FirstBlank(lines[1..])
  }

  /** Parsing stops at the first empty line: whatever follows it is never looked at. */
  lemma {:induction false} StopsAtEmptyLine(
    prefix: seq<seq<byte>>, suffix: seq<seq<byte>>, validPath: seq<byte> -> bool, acc: map<seq<byte>, EntryId>)
    ensures ParseLines(prefix + [[]] + suffix, validPath, acc) == ParseLines(prefix, validPath, acc)
    decreases |prefix|
  {
    var all := prefix + [[]] + suffix;
    if prefix != [] && prefix[0] != [] {
      assert all[0] == prefix[0] && all[1..] == prefix[1..] + [[]] + suffix;
      match ParseLine(prefix[0], validPath)
      case Failure(_) =>
      case Success(entry) => StopsAtEmptyLine(prefix[1..], suffix, validPath, acc[entry.0 := entry.1]);
    } else if prefix != [] {
      assert all[0] == [];
    }
  }

  lemma Regroup(a: seq<byte>, b: seq<byte>, c: seq<byte>)
    ensures (a + [NEWLINE] + b) + [NEWLINE] + c == a + [NEWLINE] + (b + [NEWLINE] + c)
  {
  }

  /** Splitting at a newline: the lines of each side, one after the other. */
  lemma {:induction false} SplitLinesAppend(x: seq<byte>, y: seq<byte>)
    ensures SplitLines(x + [NEWLINE] + y) == SplitLines(x) + SplitLines(y)
    decreases |x|
  {
    match Find(x, NEWLINE)
    case None =>
      SplitLinesCons(x, y);
    case Some(i) =>
      var line, rest := x[..i], x[i + 1..];
      SplitAround(x, i);
      var tail := rest + [NEWLINE] + y;
      Regroup(line, rest, y);
      assert x + [NEWLINE] + y == line + [NEWLINE] + tail;
      SplitLinesCons(line, rest);
      SplitLinesCons(line, tail);
      SplitLinesAppend(rest, y);
      ConsAppend(line, SplitLines(rest), SplitLines(y));
  }

  lemma ConsAppend(line: seq<byte>, a: seq<seq<byte>>, b: seq<seq<byte>>)
    ensures [line] + (a + b) == ([line] + a) + b
  {
  }

  /** A blank line in the text ends the manifest: the bytes after it add no entry and raise no error. */
  lemma NothingAfterBlankLine(before: seq<byte>, after: seq<byte>, validPath: seq<byte> -> bool)
    requires before == [] || before[|before| - 1] == NEWLINE
    ensures ManifestParse(before + [NEWLINE] + after, validPath) == ManifestParse(before, validPath)
  {
    var tail := SplitLines(after);
    SplitLinesAppend([], after);
    assert SplitLines([]) == [[]];
    assert SplitLines([] + [NEWLINE] + after) == [[]] + tail;
    if before == [] {
      assert before + [NEWLINE] + after == [] + [NEWLINE] + after;
      StopsAtEmptyLine([], tail, validPath, map[]);
      StopsAtEmptyLine([], [], validPath, map[]);
    } else {
      var b := before[..|before| - 1];
      var head := SplitLines(b);
      assert before == b + [NEWLINE] + [];
      assert before + [NEWLINE] + after == b + [NEWLINE] + ([] + [NEWLINE] + after);
      SplitLinesAppend(b, []);
      SplitLinesAppend(b, [] + [NEWLINE] + after);
      ConsAppendBlank(head, tail);
      StopsAtEmptyLine(head, tail, validPath, map[]);
      StopsAtEmptyLine(head, [], validPath, map[]);
    }
  }

  lemma ConsAppendBlank(a: seq<seq<byte>>, b: seq<seq<byte>>)
    ensures a + ([[]] + b) == a + [[]] + b
    ensures a + [[]] == a + [[]] + []
  {
  }

  /** The segment after a final newline is empty and adds nothing. */
  lemma TrailingNewlineAddsNothing(data: seq<byte>, validPath: seq<byte> -> bool)
    ensures ManifestParse(data + [NEWLINE], validPath) == ManifestParse(data, validPath)
  {
    assert data + [NEWLINE] == data + [NEWLINE] + [];
    SplitLinesAppend(data, []);
    assert SplitLines([]) == [[]];
    assert SplitLines(data + [NEWLINE]) == SplitLines(data) + [[]] + [];
    StopsAtEmptyLine(SplitLines(data), [], validPath, map[]);
  }

  /** The first line before the blank line that fails to parse decides the error of the whole parse. */
  lemma {:induction false} FailsAtFirstBadLine(
    lines: seq<seq<byte>>, validPath: seq<byte> -> bool, acc: map<seq<byte>, EntryId>, k: nat)
    requires k < FirstBlank(lines) && ParseLine(lines[k], validPath).Failure?
    requires forall j :: 0 <= j < k ==> ParseLine(lines[j], validPath).Success?
    ensures ParseLines(lines, validPath, acc) == Failure(ParseLine(lines[k], validPath).error)
    decreases k
  {
    if k > 0 {
      var entry := ParseLine(lines[0], validPath).value;
      forall j | 0 <= j < k - 1 ensures ParseLine(lines[1..][j], validPath).Success? {
        assert lines[1..][j] == lines[j + 1];
      }
      FailsAtFirstBadLine(lines[1..], validPath, acc[entry.0 := entry.1], k - 1);
    }
  }

  /** A line before the blank line that has no NUL makes the whole parse fail. */
  lemma LineWithoutNulFails(lines: seq<seq<byte>>, validPath: seq<byte> -> bool, k: nat)
    requires k < FirstBlank(lines) && NUL !in lines[k]
    ensures ParseLines(lines, validPath, map[]).Failure?
    ensures (forall j :: 0 <= j < k ==> ParseLine(lines[j], validPath).Success?) ==>
      ParseLines(lines, validPath, map[]) == Failure(NoNul)
  {
    assert ParseLine(lines[k], validPath) == Failure(NoNul);
    SuccessIffAllLinesParse(lines, validPath, map[]);
    if forall j :: 0 <= j < k ==> ParseLine(lines[j], validPath).Success? {
      FailsAtFirstBadLine(lines, validPath, map[], k);
    }
  }

  // ---- success: which keys, which values

  /** The (name, entry id) pairs of the lines before the first blank line, for lines that parse. */
  function Entries(lines: seq<seq<byte>>, validPath: seq<byte> -> bool): seq<(seq<byte>, EntryId)>
    decreases |lines|
  {
    if lines == [] || lines[0] == [] then []
    else match ParseLine(lines[0], validPath)
      case Failure(_) => []
      case Success(entry) => [entry] + Entries(lines[1..], validPath)
  }

  /** Inserting pairs in order into a map, as `BTreeMap::insert` in the loop does. */
  function InsertAll(acc: map<seq<byte>, EntryId>, pairs: seq<(seq<byte>, EntryId)>): map<seq<byte>, EntryId>
    decreases |pairs|
  {
    if pairs == [] then acc else InsertAll(acc[pairs[0].0 := pairs[0].1], pairs[1..])
  }

  /** Every line before the first blank line parses on its own. */
  ghost predicate AllLinesParse(lines: seq<seq<byte>>, validPath: seq<byte> -> bool) {
    forall j :: 0 <= j < FirstBlank(lines) ==> ParseLine(lines[j], validPath).Success?
  }

  lemma AllLinesParseStep(lines: seq<seq<byte>>, validPath: seq<byte> -> bool)
    requires lines != [] && lines[0] != []
    ensures AllLinesParse(lines, validPath) <==>
      ParseLine(lines[0], validPath).Success? && AllLinesParse(lines[1..], validPath)
  {
    var n := FirstBlank(lines[1..]);
    assert FirstBlank(lines) == 1 + n;
    if AllLinesParse(lines, validPath) {
      forall j | 0 <= j < n ensures ParseLine(lines[1..][j], validPath).Success? {
        ShiftedLine(lines, j + 1);
      }
    }
    if ParseLine(lines[0], validPath).Success? && AllLinesParse(lines[1..], validPath) {
      forall j | 0 <= j < 1 + n ensures ParseLine(lines[j], validPath).Success? {
        if j > 0 { ShiftedLine(lines, j); }
      }
    }
  }

  /** The parse succeeds iff every line before the first blank line parses. */
  lemma {:induction false} SuccessIffAllLinesParse(lines: seq<seq<byte>>, validPath: seq<byte> -> bool, acc: map<seq<byte>, EntryId>)
    ensures ParseLines(lines, validPath, acc).Success? <==> AllLinesParse(lines, validPath)
    decreases |lines|
  {
    if lines != [] && lines[0] != [] {
      AllLinesParseStep(lines, validPath);
      match ParseLine(lines[0], validPath)
      case Failure(_) =>
      case Success(entry) => SuccessIffAllLinesParse(lines[1..], validPath, acc[entry.0 := entry.1]);
    }
  }

  /** When every line parses, `Entries` lists the parsed lines one for one. */
  lemma EntriesOfParsedLines(lines: seq<seq<byte>>, validPath: seq<byte> -> bool)
    requires AllLinesParse(lines, validPath)
    ensures |Entries(lines, validPath)| == FirstBlank(lines)
    ensures forall j :: 0 <= j < FirstBlank(lines) ==> Entries(lines, validPath)[j] == ParseLine(lines[j], validPath).value
  {
    EntriesLength(lines, validPath);
    forall j | 0 <= j < FirstBlank(lines) ensures Entries(lines, validPath)[j] == ParseLine(lines[j], validPath).value {
      EntryAt(lines, validPath, j);
    }
  }

  /** When every line parses, there is one entry per line before the first blank line. */
  lemma {:induction false} EntriesLength(lines: seq<seq<byte>>, validPath: seq<byte> -> bool)
    requires AllLinesParse(lines, validPath)
    ensures |Entries(lines, validPath)| == FirstBlank(lines)
    decreases |lines|
  {
    if lines != [] && lines[0] != [] {
      AllLinesParseStep(lines, validPath);
      EntriesLength(lines[1..], validPath);
      EntriesStep(lines, validPath);
    }
  }

  /** When every line parses, entry `j` is the parse of line `j`. */
  lemma {:induction false} EntryAt(lines: seq<seq<byte>>, validPath: seq<byte> -> bool, j: nat)
    requires AllLinesParse(lines, validPath) && j < FirstBlank(lines)
    ensures j < |Entries(lines, validPath)| && Entries(lines, validPath)[j] == ParseLine(lines[j], validPath).value
    decreases j
  {
    AllLinesParseStep(lines, validPath);
    EntriesStep(lines, validPath);
    if j > 0 {
      assert FirstBlank(lines) == 1 + FirstBlank(lines[1..]);
      EntryAt(lines[1..], validPath, j - 1);
      ShiftedLine(lines, j);
    }
  }

  /** A parsed first line contributes its entry ahead of the rest. */
  lemma EntriesStep(lines: seq<seq<byte>>, validPath: seq<byte> -> bool)
    requires lines != [] && lines[0] != [] && ParseLine(lines[0], validPath).Success?
    ensures Entries(lines, validPath) == [ParseLine(lines[0], validPath).value] + Entries(lines[1..], validPath)
  {
  }

  lemma ShiftedLine(lines: seq<seq<byte>>, j: nat)
    requires 0 < j < |lines|
    ensures lines[1..][j - 1] == lines[j]
  {
  }

  /** A successful parse has inserted the parsed entries in order. */
  lemma {:induction false} SuccessIsInsertAll(lines: seq<seq<byte>>, validPath: seq<byte> -> bool, acc: map<seq<byte>, EntryId>)
    requires ParseLines(lines, validPath, acc).Success?
    ensures ParseLines(lines, validPath, acc).value == InsertAll(acc, Entries(lines, validPath))
    decreases |lines|
  {
    if lines != [] && lines[0] != [] {
      var entry := ParseLine(lines[0], validPath).value;
      SuccessIsInsertAll(lines[1..], validPath, acc[entry.0 := entry.1]);
    }
  }

  /** The keys after the inserts: the old keys and every inserted name. */
  lemma {:induction false} InsertAllKeys(acc: map<seq<byte>, EntryId>, pairs: seq<(seq<byte>, EntryId)>)
    ensures InsertAll(acc, pairs).Keys == acc.Keys + (set i | 0 <= i < |pairs| :: pairs[i].0)
    decreases |pairs|
  {
    if pairs != [] {
      InsertAllKeys(acc[pairs[0].0 := pairs[0].1], pairs[1..]);
      var tail := set i | 0 <= i < |pairs[1..]| :: pairs[1..][i].0;
      var all := set i | 0 <= i < |pairs| :: pairs[i].0;
      assert all == {pairs[0].0} + tail by {
        forall x | x in all ensures x in {pairs[0].0} + tail {
          var i :| 0 <= i < |pairs| && pairs[i].0 == x;
          if i > 0 { assert pairs[1..][i - 1].0 == x; }
        }
        forall x | x in tail ensures x in all {
          var i :| 0 <= i < |pairs[1..]| && pairs[1..][i].0 == x;
          assert pairs[i + 1].0 == x;
        }
      }
    }
  }

  /** A name no pair carries keeps its old presence and value. */
  lemma {:induction false} InsertAllUntouched(acc: map<seq<byte>, EntryId>, pairs: seq<(seq<byte>, EntryId)>, name: seq<byte>)
    requires forall i :: 0 <= i < |pairs| ==> pairs[i].0 != name
    ensures name in InsertAll(acc, pairs) <==> name in acc
    ensures name in acc ==> InsertAll(acc, pairs)[name] == acc[name]
    decreases |pairs|
  {
    if pairs != [] {
      assert pairs[0].0 != name;
      forall i | 0 <= i < |pairs[1..]| ensures pairs[1..][i].0 != name {
        assert pairs[1..][i] == pairs[i + 1];
      }
      InsertAllUntouched(acc[pairs[0].0 := pairs[0].1], pairs[1..], name);
    }
  }

  /** A name holds the entry of the last pair that carries it. */
  lemma {:induction false} InsertAllLastWins(acc: map<seq<byte>, EntryId>, pairs: seq<(seq<byte>, EntryId)>, i: nat)
    requires i < |pairs|
    requires forall j :: i < j < |pairs| ==> pairs[j].0 != pairs[i].0
    ensures pairs[i].0 in InsertAll(acc, pairs) && InsertAll(acc, pairs)[pairs[i].0] == pairs[i].1
    decreases |pairs|
  {
    var acc', rest := acc[pairs[0].0 := pairs[0].1], pairs[1..];
    forall j | i <= j < |rest| ensures rest[j] == pairs[j + 1] { }
    if i == 0 {
      InsertAllUntouched(acc', rest, pairs[0].0);
    } else {
      assert rest[i - 1] == pairs[i];
      InsertAllLastWins(acc', rest, i - 1);
    }
  }

  /** No line after line `j`, up to the first blank line, carries the same name. */
  ghost predicate LastWithName(lines: seq<seq<byte>>, validPath: seq<byte> -> bool, j: nat)
    requires j < FirstBlank(lines)
    requires forall i :: 0 <= i < FirstBlank(lines) ==> ParseLine(lines[i], validPath).Success?
  {
    forall j' :: j < j' < FirstBlank(lines) ==>
      ParseLine(lines[j'], validPath).value.0 != ParseLine(lines[j], validPath).value.0
  }

  /** On success, the keys of the map are exactly the names on the lines before the first blank line. */
  lemma SuccessKeys(data: seq<byte>, validPath: seq<byte> -> bool)
    requires ManifestParse(data, validPath).Success?
    ensures var lines, m := SplitLines(data), ManifestParse(data, validPath).value;
      && (forall j :: 0 <= j < FirstBlank(lines) ==> ParseLine(lines[j], validPath).Success?)
      && m.Keys == (set j | 0 <= j < FirstBlank(lines) :: ParseLine(lines[j], validPath).value.0)
  {
    ParsedKeys(SplitLines(data), validPath);
  }

  /** `SuccessKeys` over the split lines. */
  lemma ParsedKeys(lines: seq<seq<byte>>, validPath: seq<byte> -> bool)
    requires ParseLines(lines, validPath, map[]).Success?
    ensures forall j :: 0 <= j < FirstBlank(lines) ==> ParseLine(lines[j], validPath).Success?
    ensures ParseLines(lines, validPath, map[]).value.Keys
         == set j | 0 <= j < FirstBlank(lines) :: ParseLine(lines[j], validPath).value.0
  {
    SuccessIffAllLinesParse(lines, validPath, map[]);
    EntriesOfParsedLines(lines, validPath);
    SuccessIsInsertAll(lines, validPath, map[]);
    InsertAllKeys(map[], Entries(lines, validPath));
    NamesOfEntries(Entries(lines, validPath), lines, validPath, FirstBlank(lines));
  }

  /** The names of `es` are the names parsed from the first `n` lines, when `es` lists those parses. */
  lemma NamesOfEntries(es: seq<(seq<byte>, EntryId)>, lines: seq<seq<byte>>, validPath: seq<byte> -> bool, n: nat)
    requires |es| == n <= |lines|
    requires forall j :: 0 <= j < n ==> ParseLine(lines[j], validPath).Success? && es[j] == ParseLine(lines[j], validPath).value
    ensures (set i | 0 <= i < |es| :: es[i].0) == set j | 0 <= j < n :: ParseLine(lines[j], validPath).value.0
  {
    var names := set i | 0 <= i < |es| :: es[i].0;
    var parsed := set j | 0 <= j < n :: ParseLine(lines[j], validPath).value.0;
    forall x | x in names ensures x in parsed {
      var i :| 0 <= i < |es| && es[i].0 == x;
      assert ParseLine(lines[i], validPath).value.0 == x;
    }
  }

  /** On success, each name holds the entry of the last line before the first blank line that carries it. */
  lemma SuccessValues(data: seq<byte>, validPath: seq<byte> -> bool)
    requires ManifestParse(data, validPath).Success?
    ensures var lines, m := SplitLines(data), ManifestParse(data, validPath).value;
      && (forall j :: 0 <= j < FirstBlank(lines) ==> ParseLine(lines[j], validPath).Success?)
      && forall j :: 0 <= j < FirstBlank(lines) && LastWithName(lines, validPath, j)
           ==> (ParseLine(lines[j], validPath).value.0 in m
             && m[ParseLine(lines[j], validPath).value.0] == ParseLine(lines[j], validPath).value.1)
  {
    var lines := SplitLines(data);
    SuccessIffAllLinesParse(lines, validPath, map[]);
    EntriesOfParsedLines(lines, validPath);
    SuccessIsInsertAll(lines, validPath, map[]);
    var es := Entries(lines, validPath);
    forall j | 0 <= j < FirstBlank(lines) && LastWithName(lines, validPath, j)
      ensures es[j].0 in InsertAll(map[], es) && InsertAll(map[], es)[es[j].0] == es[j].1
    {
      forall j' | j < j' < |es| ensures es[j'].0 != es[j].0 {
        assert es[j'] == ParseLine(lines[j'], validPath).value;
      }
      InsertAllLastWins(map[], es, j);
    }
  }

  // ---- writing a manifest and reading it back

  function FormatLine(entry: (seq<byte>, EntryId)): seq<byte> {
    entry.0 + [NUL] + FormatHgEntry(entry.1)
  }

  /** The manifest text for a list of entries, one line each, every line ending in a newline. */
  function FormatManifest(entries: seq<(seq<byte>, EntryId)>): seq<byte>
    decreases |entries|
  {
    if entries == [] then [] else FormatLine(entries[0]) + [NEWLINE] + FormatManifest(entries[1..])
  }

  predicate WellFormedName(name: seq<byte>, validPath: seq<byte> -> bool) {
    NUL !in name && NEWLINE !in name && validPath(name)
  }

  lemma LineRoundTrip(entry: (seq<byte>, EntryId), validPath: seq<byte> -> bool)
    requires WellFormedName(entry.0, validPath)
    ensures NEWLINE !in FormatLine(entry)
    ensures ParseLine(FormatLine(entry), validPath) == Success(entry)
  {
    var line := FormatLine(entry);
    assert line[..|entry.0|] == entry.0;
    FindIsFirst(line, NUL, |entry.0|);
    assert line[|entry.0| + 1..] == FormatHgEntry(entry.1);
    EntryRoundTrip(entry.1);
  }

  /** Writing entries and parsing the text yields the map that inserting them in order builds. */
  lemma {:induction false} ManifestRoundTrip(
    entries: seq<(seq<byte>, EntryId)>, validPath: seq<byte> -> bool, acc: map<seq<byte>, EntryId>)
    requires forall i :: 0 <= i < |entries| ==> WellFormedName(entries[i].0, validPath)
    ensures ParseLines(SplitLines(FormatManifest(entries)), validPath, acc) == Success(InsertAll(acc, entries))
    decreases |entries|
  {
    if entries == [] {
      assert SplitLines([]) == [[]];
    } else {
      var e, rest := entries[0], FormatManifest(entries[1..]);
      assert FormatManifest(entries) == FormatLine(e) + [NEWLINE] + rest;
      ParseFormattedLine(e, rest, validPath, acc);
      ManifestRoundTrip(entries[1..], validPath, acc[e.0 := e.1]);
    }
  }

  /** The loop reads a written line back as its entry and goes on with the text after it. */
  lemma ParseFormattedLine(e: (seq<byte>, EntryId), rest: seq<byte>, validPath: seq<byte> -> bool, acc: map<seq<byte>, EntryId>)
    requires WellFormedName(e.0, validPath)
    ensures ParseLines(SplitLines(FormatLine(e) + [NEWLINE] + rest), validPath, acc)
         == ParseLines(SplitLines(rest), validPath, acc[e.0 := e.1])
  {
    var line := FormatLine(e);
    LineRoundTrip(e, validPath);
    SplitLinesCons(line, rest);
    var lines := SplitLines(line + [NEWLINE] + rest);
    assert lines[0] == line && lines[1..] == SplitLines(rest);
    assert line != [] by { assert line[|e.0|] == NUL; }
    ParseLinesStep(lines, validPath, acc);
  }

  /** One iteration of the loop over a non-empty line that parses. */
  lemma ParseLinesStep(lines: seq<seq<byte>>, validPath: seq<byte> -> bool, acc: map<seq<byte>, EntryId>)
    requires lines != [] && lines[0] != [] && ParseLine(lines[0], validPath).Success?
    ensures var entry := ParseLine(lines[0], validPath).value;
      ParseLines(lines, validPath, acc) == ParseLines(lines[1..], validPath, acc[entry.0 := entry.1])
  {
  }

  // ---------------------------------------------------------------------------
  // `BlobManifest::load`: the null manifest id never reaches the blobstore

  /** The manifest the null id stands for: no entries, no parents. */
  function NullManifest(): (m: BlobManifest)
    ensures m.content.files == map[] && m.p1.None? && m.p2.None?
    ensures m.nodeId == NULL_HASH && m.computedNodeId == NULL_HASH
  {
    BlobManifest(NULL_HASH, None, None, NULL_HASH, ManifestContent(map[]))
  }

  /**
   * `fetched` stands for what fetching and parsing the envelope from the
   * blobstore would give; for the null id it is not used at all.
   */
  function Load<E>(manifestId: NodeHash, fetched: Result<Option<BlobManifest>, E>): (r: Result<Option<BlobManifest>, E>)
    ensures manifestId == NULL_HASH ==> r == Success(Some(NullManifest()))
    ensures manifestId != NULL_HASH ==> r == fetched
  {
    if manifestId == NULL_HASH then Success(Some(NullManifest())) else fetched
  }
}

/**
 * A piece of source-control data on the wire (file content or a tree entry),
 * together with the key and parents needed to check its node hash.
 *
 * SHA-1 is not modelled: it is the parameter `sha1`, a function from the
 * concatenated input bytes to a 20-byte node.  Feeding a hasher three inputs
 * in turn is the hash of their concatenation.
 */
module DataEntry {
  import opened Wrappers
  import opened Bytes

  /** A 20-byte node hash. */
  type Node = s: seq<byte> | |s| == 20 witness [0, 0, 0, 0, 0, 0, 0, 0, 0, 0, 0, 0, 0, 0, 0, 0, 0, 0, 0, 0]

  datatype Key = Key(path: seq<byte>, node: Node)

  /** The two parent nodes, as `Parents::into_nodes` yields them (a missing parent is the null node). */
  datatype Parents = Parents(p1: Node, p2: Node)

  datatype DataEntry = DataEntry(key: Key, data: seq<byte>, parents: Parents)

  /** "Content hash validation failed. Expected: ..; Computed: .." */
  datatype ValidationError = HashMismatch(expected: Node, computed: Node)

  /** Node order: the derived `Ord` of a byte array, which is lexicographic. */
  predicate NodeGreater(a: Node, b: Node) {
    LexLess(b, a)
  }

  function New(key: Key, data: seq<byte>, parents: Parents): (e: DataEntry)
    ensures KeyOf(e) == key
    ensures e.data == data && e.parents == parents
  {
    DataEntry(key, data, parents)
  }

  /** `key()`: together with the data and the parents, the key is the whole entry. */
  function KeyOf(e: DataEntry): (k: Key)
    ensures DataEntry(k, e.data, e.parents) == e
  {
    e.key
  }

  /** The parents in the order Mercurial hashes them: the smaller one first. */
  function SortedParents(p: Parents): (r: (Node, Node))
    ensures multiset{r.0, r.1} == multiset{p.p1, p.p2}
    ensures !NodeGreater(r.0, r.1)
  {
    if NodeGreater(p.p1, p.p2) then
      LexLessAsymmetric(p.p1, p.p2);
      (p.p2, p.p1)
    else (p.p1, p.p2)
  }

  /** The bytes fed to the hasher: smaller parent, larger parent, then the data. */
  function HashInput(e: DataEntry): seq<byte> {
    var (lo, hi) := SortedParents(e.parents);
    lo + hi + e.data
  }

  /** Recompute the node hash and compare it with the node in the key. */
  function Validate(e: DataEntry, sha1: seq<byte> -> Node): (r: Outcome<ValidationError>)
    ensures r.Pass? <==> sha1(HashInput(e)) == e.key.node
    ensures r.Fail? ==> r.error == HashMismatch(e.key.node, sha1(HashInput(e)))
  {
    var computed := sha1(HashInput(e));
    if computed == e.key.node then Pass else Fail(HashMismatch(e.key.node, computed))
  }

  /** The entry's data, checked against its node hash first when `validate` is set. */
  function Data(e: DataEntry, validate: bool, sha1: seq<byte> -> Node): (r: Result<seq<byte>, ValidationError>)
    ensures !validate ==> r == Success(e.data)
    ensures validate ==> (r.Success? <==> Validate(e, sha1).Pass?)
    ensures validate && r.Failure? ==> r.error == Validate(e, sha1).error
    ensures r.Success? ==> r == Data(e, false, sha1)
  {
    if validate then
      match Validate(e, sha1)
      case Fail(err) => Failure(err)
      case Pass => Success(e.data)
    else Success(e.data)
  }

  /** `new` keeps what it is given, and unvalidated data is the stored data. */
  lemma NewThenRead(key: Key, data: seq<byte>, parents: Parents, sha1: seq<byte> -> Node)
    ensures KeyOf(New(key, data, parents)) == key
    ensures Data(New(key, data, parents), false, sha1) == Success(data)
  {
  }

  /** The two halves of a sorted pair are the smaller and the larger parent, whatever their order. */
  lemma {:induction false} SortedParentsIsMinMax(a: Node, b: Node)
    ensures SortedParents(Parents(a, b)) == SortedParents(Parents(b, a))
  {
    if a != b {
      LexLessTotal(a, b);
      LexLessAsymmetric(a, b);
    }
  }

  /** A pair ordered smaller-first with the same two parents is the sorted pair. */
  lemma {:induction false} SortedParentsUnique(p: Parents, lo: Node, hi: Node)
    requires multiset{lo, hi} == multiset{p.p1, p.p2}
    requires !NodeGreater(lo, hi)
    ensures SortedParents(p) == (lo, hi)
  {
    var r := SortedParents(p);
    if lo != hi {
      assert lo in multiset{r.0, r.1} && hi in multiset{r.0, r.1};
      LexLessTotal(lo, hi);
      LexLessAsymmetric(lo, hi);
    } else {
      assert multiset{r.0, r.1} == multiset{lo, lo};
      assert r.0 in multiset{lo, lo} && r.1 in multiset{lo, lo};
    }
  }

  /** Swapping the two parents never changes the outcome of validation. */
  lemma SwapParentsKeepsValidation(e: DataEntry, sha1: seq<byte> -> Node)
    ensures Validate(e.(parents := Parents(e.parents.p2, e.parents.p1)), sha1) == Validate(e, sha1)
  {
    SortedParentsIsMinMax(e.parents.p1, e.parents.p2);
  }
}

/**
 * `calculate_hash`: read a file in chunks and feed them to a streaming hash.
 * The hash algorithm is a parameter: any function of the bytes it was fed.
 */
module Hashing {
  import opened Types
  import opened FileSystem

  /** A hash algorithm, as `hashlib.new(name)` selects one: a function of the whole input. */
  type HashFunction = seq<byte> -> Digest

  /** The concatenation of a sequence of chunks. */
  function Flatten(chunks: seq<seq<byte>>): seq<byte> {
    if chunks == [] then [] else chunks[0] + Flatten(chunks[1..])
  }

  lemma {:induction false} FlattenAppend(chunks: seq<seq<byte>>, last: seq<byte>)
    ensures Flatten(chunks + [last]) == Flatten(chunks) + last
  {
    if chunks == [] {
      assert [] + [last] == [last];
    } else {
      assert (chunks + [last])[1..] == chunks[1..] + [last];
      FlattenAppend(chunks[1..], last);
    }
  }

  /** A streaming hash object: `update` appends input, `digest` hashes all input so far. */
  class Hasher {
    const algorithm: HashFunction
    var fed: seq<byte>

    constructor (algorithm: HashFunction)
      ensures this.algorithm == algorithm && fed == []
    {
      this.algorithm := algorithm;
      fed := [];
    }

    method Update(chunk: seq<byte>)
      modifies this
      ensures fed == old(fed) + chunk
    {
      fed := fed + chunk;
    }

    function Digest(): Digest
      reads this
    {
      algorithm(fed)
    }
  }

  /**
   * The bytes the `while chunk := file.read(size)` loop feeds to the hash
   * from `offset` on: one `read` after another until one comes back empty.
   * Any non-zero size feeds the rest of the file; size 0 feeds nothing.
   */
  function Fed(content: seq<byte>, offset: nat, size: int): (fed: seq<byte>)
    requires offset <= |content|
    ensures size != 0 ==> fed == content[offset..]
    ensures size == 0 ==> fed == []
    decreases |content| - offset
  {
    var n := ReadCount(|content| - offset, size);
    if n == 0 then [] else content[offset..offset + n] + Fed(content, offset + n, size)
  }

  /**
   * The digest `calculate_hash` returns for a file with these bytes: the
   * algorithm over what the reads feed it, which is the whole file for any
   * non-zero chunk size and nothing for size 0.
   */
  function DigestOf(content: seq<byte>, algorithm: HashFunction, chunkSize: int): (d: Digest)
    ensures chunkSize != 0 ==> d == algorithm(content)
    ensures chunkSize == 0 ==> d == algorithm([])
  {
    assert content[0..] == content;
    algorithm(Fed(content, 0, chunkSize))
  }

  /** The chunks are what `read(size)` may return before the end: non-empty, and at most `size` bytes for a positive size. */
  ghost predicate ReadSized(chunks: seq<seq<byte>>, size: int) {
    forall i :: 0 <= i < |chunks| ==> 0 < |chunks[i]| && (size > 0 ==> |chunks[i]| <= size)
  }

  /**
   * `calculate_hash(path, hash_algorithm, chunk_size)` on a file holding
   * `content`. `updates` lists the chunks handed to `update`, in order.
   */
  method CalculateHash(content: seq<byte>, algorithm: HashFunction, chunkSize: int)
    returns (digest: Digest, ghost updates: seq<seq<byte>>)
    ensures Flatten(updates) == (if chunkSize == 0 then [] else content)
    ensures ReadSized(updates, chunkSize)
    ensures digest == algorithm(Flatten(updates))
    ensures digest == DigestOf(content, algorithm, chunkSize)
  {
    var hasher := new Hasher(algorithm);
    var file := new FileReader.Open(content);
    updates := [];
    ghost var fedUpTo: nat := 0;
    var chunk := file.Read(chunkSize);
    while chunk != []
      invariant file.Valid() && file.content == content && hasher.algorithm == algorithm
      invariant file.position == fedUpTo + |chunk|
      invariant hasher.fed == content[..fedUpTo]
      invariant Flatten(updates) == content[..fedUpTo]
      invariant chunk == content[fedUpTo..file.position]
      invariant chunkSize == 0 ==> file.position == 0
      invariant chunkSize > 0 ==> |chunk| <= chunkSize
      invariant chunk == [] ==> chunkSize == 0 || file.position == |content|
      invariant ReadSized(updates, chunkSize)
      decreases |content| - fedUpTo
    {
      FlattenAppend(updates, chunk);
      assert content[..fedUpTo] + chunk == content[..file.position];
      hasher.Update(chunk);
      updates := updates + [chunk];
      fedUpTo := file.position;
      chunk := file.Read(chunkSize);
    }
    assert content[..|content|] == content;
    digest := hasher.Digest();
  }
}

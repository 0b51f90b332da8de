/**
 * The directory tree under the scan root, seen as a map from relative path
 * to what is there, and the open file object that `calculate_hash` reads.
 */
module FileSystem {
  import opened Types

  /** What a path names: a regular file with its bytes and mtime, or anything else. */
  datatype Node = File(content: seq<byte>, mtime: Timestamp) | Directory

  /** Every entry `rglob("*")` would yield, keyed by its path relative to the root. */
  type Tree = map<Path, Node>

  /** The ledger's own file, `root / ".bitrot.db"`, relative to the root. */
  const LedgerFileName: Path := ".bitrot.db"

  /** `(root / path).is_file()` */
  predicate IsRegular(tree: Tree, path: Path) {
    path in tree && tree[path].File?
  }

  /** How many bytes `read(size)` returns when `remaining` bytes are left: a negative size reads to the end. */
  function ReadCount(remaining: nat, size: int): (n: nat)
    ensures n <= remaining
    ensures size >= 0 ==> n <= size
    ensures n == 0 <==> remaining == 0 || size == 0
    ensures size < 0 ==> n == remaining
    ensures size >= 0 && n < size ==> n == remaining
  {
    if size < 0 || remaining <= size then remaining else size
  }

  /** A file opened with mode "rb": its bytes and the current offset. */
  class FileReader {
    const content: seq<byte>
    var position: nat

    ghost predicate Valid()
      reads this
    {
      position <= |content|
    }

    constructor Open(content: seq<byte>)
      ensures Valid() && this.content == content && position == 0
    {
      this.content := content;
      position := 0;
    }

    /** `file.read(size)`: the next bytes from the offset, at most `size` of them unless `size` is negative. */
    method Read(size: int) returns (chunk: seq<byte>)
      requires Valid()
      modifies this
      ensures Valid()
      ensures chunk == content[old(position)..old(position) + ReadCount(|content| - old(position), size)]
      ensures position == old(position) + |chunk|
    {
      var n := ReadCount(|content| - position, size);
      chunk := content[position..position + n];
      position := position + n;
    }
  }
}

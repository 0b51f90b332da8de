/**
 * Shared value types of the model: bytes, relative paths, timestamps and
 * digests, and an Option for lookups that may fail.
 */
module Types {

  /** One element of a Python `bytes` value. */
  type byte = x: int | 0 <= x < 256

  /** A path relative to the scan root, as stored in the ledger's `path` column. */
  type Path = string

  /**
   * A modification time. The source only ever compares timestamps for
   * equality, so an integer stands in for the `st_mtime` float.
   */
  type Timestamp = int

  /** The output of a hash algorithm. */
  type Digest = seq<byte>

  datatype Option<+T> = None | Some(value: T)

  /** Removing a key of a map leaves one entry fewer. */
  lemma MapRemoveSize<K, V>(m: map<K, V>, k: K)
    requires k in m
    ensures |m - {k}| == |m| - 1
  {
    assert (m - {k}).Keys == m.Keys - {k};
    assert |(m - {k}).Keys| == |m.Keys| - 1;
  }
}

/** Cutting a payload into pieces: full pieces of `chunk` bytes as long as more than
    `limit` bytes are left, and a final one with the rest. */
module Chunks {
  import opened Bytes

  predicate Final(n: nat, limit: nat, chunk: nat, k: nat) {
    n - k * chunk <= limit
  }

  function Piece(p: seq<byte>, limit: nat, chunk: nat, k: nat): (r: seq<byte>)
    requires k * chunk <= |p| && chunk <= limit + 1
    ensures |r| <= if Final(|p|, limit, chunk, k) then limit else chunk
  {
    if Final(|p|, limit, chunk, k) then p[k * chunk..] else p[k * chunk..k * chunk + chunk]
  }

  /** How many pieces there are. */
  function Count(n: nat, limit: nat, chunk: nat): (c: nat)
    requires 0 < chunk <= limit + 1
    ensures c >= 1
    decreases n
  {
    if n > limit then 1 + Count(n - chunk, limit, chunk) else 1
  }

  /** The final piece is the last one, and every piece before it is full. */
  lemma {:induction false} FinalIsLast(n: nat, limit: nat, chunk: nat, k: nat)
    requires 0 < chunk <= limit + 1 && k < Count(n, limit, chunk)
    ensures k * chunk <= n && (Final(n, limit, chunk, k) <==> Count(n, limit, chunk) == k + 1)
    decreases k
  {
    if k > 0 {
      FinalIsLast(n - chunk, limit, chunk, k - 1);
      assert k * chunk == chunk + (k - 1) * chunk;
    }
  }

  /** The k-th piece, by its offset. */
  lemma PieceAt(p: seq<byte>, limit: nat, chunk: nat, k: nat, at: nat)
    requires 0 < chunk <= limit + 1 && at == k * chunk <= |p|
    ensures Final(|p|, limit, chunk, k) <==> |p| - at <= limit
    ensures Final(|p|, limit, chunk, k) ==> Piece(p, limit, chunk, k) == p[at..]
    ensures !Final(|p|, limit, chunk, k) ==> Piece(p, limit, chunk, k) == p[at..at + chunk]
    ensures !Final(|p|, limit, chunk, k) ==> (k + 1) * chunk == at + chunk <= |p|
  {
  }
}

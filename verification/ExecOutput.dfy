/** The capped output buffer of a command (exec_run.go). */
module ExecOutput {
  type Byte = b: nat | b < 256

  /** What is kept of a stream: its first `limit` bytes. */
  function Kept(stream: seq<Byte>, limit: int): (r: seq<Byte>)
    ensures r <= stream
    ensures |r| == if limit <= 0 then 0 else if limit < |stream| then limit else |stream|
  {
    if limit <= 0 then [] else if limit < |stream| then stream[..limit] else stream
  }

  /** Bytes that arrive once the limit is reached are counted but not kept. */
  lemma KeptOfMore(stream: seq<Byte>, p: seq<Byte>, limit: int)
    ensures Kept(stream + p, limit)
         == if limit <= |stream| then Kept(stream, limit)
            else if |stream| + |p| <= limit then Kept(stream, limit) + p
            else Kept(stream, limit) + p[..limit - |stream|]
  {}

  class CappedOutput {
    const limit: int
    var buf: seq<Byte>
    var total: nat
    /** The bytes given to the hash. */
    var hashed: seq<Byte>

    /** The buffer after `stream` was written to it, in whatever pieces. */
    ghost predicate Holds(stream: seq<Byte>)
      reads this
    {
      buf == Kept(stream, limit) && total == |stream| && hashed == stream
    }

    constructor (limit: int)
      ensures this.limit == limit && Holds([])
    {
      this.limit := limit;
      buf := [];
      total := 0;
      hashed := [];
    }

    method Write(p: seq<Byte>, ghost stream: seq<Byte>) returns (n: nat)
      requires Holds(stream)
      modifies this
      ensures n == |p| && Holds(stream + p)
    {
      KeptOfMore(stream, p, limit);
      hashed := hashed + p;
      total := total + |p|;
      var room := limit - |buf|;
      if 0 < room {
        if room < |p| {
          buf := buf + p[..room];
        } else {
          buf := buf + p;
        }
      }
      n := |p|;
    }

    /** More was written than was kept. */
    method Truncated(ghost stream: seq<Byte>) returns (t: bool)
      requires Holds(stream)
      ensures t <==> buf != stream
      ensures !t ==> buf == stream
    {
      t := |buf| < total;
    }
  }
}

/** The decompressed stream as the codec sees it: a byte string with a cursor. Seeking and reading
    follow gzip.GzipFile in read mode: a seek past the end stops at the end, and a read near the
    end returns only the bytes that are left. */
module Streams {

  datatype Stream = Stream(data: seq<bv8>, pos: nat) {
    predicate Valid() {
      pos <= |data|
    }
  }

  function Tell(s: Stream): nat {
    s.pos
  }

  function Seek(s: Stream, p: nat): (r: Stream)
    ensures r.Valid() && r.data == s.data
    ensures p <= |s.data| ==> r.pos == p
    ensures p > |s.data| ==> r.pos == |s.data|
  {
    Stream(s.data, if p <= |s.data| then p else |s.data|)
  }

  /** Reads up to `n` bytes at the cursor and advances the cursor past them. */
  function Read(s: Stream, n: nat): (r: (seq<bv8>, Stream))
    requires s.Valid()
    ensures r.1.Valid() && r.1.data == s.data
    ensures s.pos <= r.1.pos
    ensures |r.0| <= n
    ensures s.pos + n <= |s.data| ==> |r.0| == n
    ensures r.0 == s.data[s.pos..r.1.pos]
    ensures r.1.pos == if s.pos + n <= |s.data| then s.pos + n else |s.data|
  {
    var end := if s.pos + n <= |s.data| then s.pos + n else |s.data|;
    (s.data[s.pos..end], Stream(s.data, end))
  }

  /** `seek(p)` followed by `read(n)` on a stream over `data`. */
  function ReadAt(data: seq<bv8>, p: nat, n: nat): (r: seq<bv8>)
    ensures p + n <= |data| ==> r == data[p..p + n]
    ensures |r| == n ==> n == 0 || p + n <= |data|
    ensures |r| <= n
    ensures p <= |data| < p + n ==> r == data[p..]
    ensures |data| <= p ==> r == []
  {
    Read(Seek(Stream(data, 0), p), n).0
  }
}

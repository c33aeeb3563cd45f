/** The lazy `content` property of a loaded file entry: it reads the entry's bytes from the
    shared stream and puts the cursor back where the caller had it. */
module ContentAccess {
  import opened Errors
  import opened Streams
  import opened EntryRecord
  import opened GroupTree

  /** The bytes of leaf `e` and the stream after the read: `tell`, `seek` to the content
      position, `read(size)`, then `seek` back. Fewer than `size` bytes fail the "<{size}s"
      unpack before the cursor is restored. */
  function ReadContent(s: Stream, e: Entry): (r: Result<(seq<bv8>, Stream)>)
    requires s.Valid()
    requires e.Leaf?
    ensures e.contentPos.None? ==> r == Err(InvalidContentPosition)
    ensures e.contentPos.Some? ==>
      (r.Ok? <==> e.record.size == 0 || e.contentPos.value + e.record.size <= |s.data|)
    ensures r.Err? && e.contentPos.Some? ==> r.error == ShortContent
    ensures r.Ok? ==> r.value.1 == s
    ensures r.Ok? ==> |r.value.0| == e.record.size
    ensures r.Ok? && e.record.size > 0 ==>
      r.value.0 == s.data[e.contentPos.value..e.contentPos.value + e.record.size]
  {
    match e.contentPos
    case None => Err(InvalidContentPosition)
    case Some(p) =>
      var here := Tell(s);
      var (bytes, after) := Read(Seek(s, p), e.record.size);
      if |bytes| != e.record.size then Err(ShortContent)
      else Ok((bytes, Seek(after, here)))
  }

  /** Reading the same leaf twice gives the same bytes: the first read leaves nothing behind
      that the second could notice. */
  lemma ReadContentRepeatable(s: Stream, e: Entry)
    requires s.Valid() && e.Leaf?
    requires ReadContent(s, e).Ok?
    ensures ReadContent(ReadContent(s, e).value.1, e) == ReadContent(s, e)
  {
  }

  /** For a file entry loaded from record `j`, `content` yields the `size` bytes that start
      `offsetToFile` bytes past the end of the owning directory's entry table. */
  lemma LoadedLeafContent(s: Stream, off: nat, count: nat, j: nat, e: Entry)
    requires s.Valid()
    requires ChildPlaced(s.data, off, count, j, e) && e.Leaf?
    requires ContentBase(off, count) + e.record.offsetToFile + e.record.size <= |s.data|
    ensures ReadContent(s, e).Ok?
    ensures ReadContent(s, e).value.0 ==
      s.data[ContentBase(off, count) + e.record.offsetToFile ..
             ContentBase(off, count) + e.record.offsetToFile + e.record.size]
  {
  }
}

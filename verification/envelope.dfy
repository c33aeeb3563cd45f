/** The envelope patch done when a group file is opened: the first two bytes on disk are
    overwritten with the gzip magic 0x1F 0x8B (section 2.3.1 of RFC 1952) so that a standard
    gzip reader accepts the stream. */
module Envelope {
  import opened Errors

  const GzipMagic: seq<bv8> := [0x1F, 0x8B]

  /** The magic a group file carries on disk in place of the gzip magic. */
  const GroupMagic: seq<bv8> := [0x1E, 0x8C]

  /** The file bytes with the gzip magic in place; a file of fewer than two bytes makes the
      index assignment fail. */
  function RestoreMagic(raw: seq<bv8>): (r: Result<seq<bv8>>)
    ensures r.Ok? <==> |raw| >= 2
    ensures r.Err? ==> r.error == FileTooShort
    ensures r.Ok? ==> |r.value| == |raw|
    ensures r.Ok? ==> r.value[..2] == GzipMagic
    ensures r.Ok? ==> r.value[2..] == raw[2..]
  {
    if |raw| < 2 then Err(FileTooShort)
    else Ok(raw[0 := 0x1F][1 := 0x8B])
  }

  /** Patching is idempotent: a stream that already carries the gzip magic is unchanged. */
  lemma RestoreMagicIdempotent(raw: seq<bv8>)
    requires |raw| >= 2
    ensures RestoreMagic(RestoreMagic(raw).value) == RestoreMagic(raw)
  {
    var r := RestoreMagic(raw).value;
    assert r[0] == r[..2][0] == 0x1F && r[1] == r[..2][1] == 0x8B;
    assert r[0 := 0x1F][1 := 0x8B] == r;
  }

  /** Two files give the same gzip stream exactly when they agree after the first two bytes,
      so a file carrying the group magic 0x1E 0x8C opens like its gzip twin. */
  lemma RestoreMagicOnlyTouchesMagic(a: seq<bv8>, b: seq<bv8>)
    requires |a| >= 2 && |b| >= 2
    ensures RestoreMagic(a) == RestoreMagic(b) <==> a[2..] == b[2..]
  {
    var ra := RestoreMagic(a).value;
    var rb := RestoreMagic(b).value;
    if a[2..] == b[2..] {
      assert ra == ra[..2] + ra[2..];
      assert rb == rb[..2] + rb[2..];
    }
  }

  /** A group file as it lies on disk opens as the gzip stream with the same body. */
  lemma GroupFileOpens(body: seq<bv8>)
    ensures RestoreMagic(GroupMagic + body) == Ok(GzipMagic + body)
  {
    var raw := GroupMagic + body;
    assert raw[0 := 0x1F][1 := 0x8B] == GzipMagic + body;
  }
}

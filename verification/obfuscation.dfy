/** The header obfuscation of a group: within every byte triple the first and last byte trade
    places, then every byte is XORed with 0xED. The same routine scrambles and unscrambles. */
module Obfuscation {
  import opened Errors

  const HeaderSize: nat := 204
  const HeaderKey: bv8 := 0xED

  /** The input position whose byte lands at position `k` after the swap pass. */
  function SwapPartner(k: nat): nat {
    if k % 3 == 0 then k + 2 else if k % 3 == 2 then k - 2 else k
  }

  lemma SwapPartnerInRange(k: nat)
    requires k < HeaderSize
    ensures SwapPartner(k) < HeaderSize
    ensures SwapPartner(SwapPartner(k)) == k
  {
  }

  /** Reference definition of the transform on a 204-byte header, position by position. */
  function Unscramble(h: seq<bv8>): (r: seq<bv8>)
    requires |h| == HeaderSize
    ensures |r| == HeaderSize
  {
    seq(HeaderSize, k requires 0 <= k < HeaderSize =>
      SwapPartnerInRange(k); h[SwapPartner(k)] ^ HeaderKey)
  }

  /** Applying the transform twice restores every header. */
  lemma Involution(h: seq<bv8>)
    requires |h| == HeaderSize
    ensures Unscramble(Unscramble(h)) == h
  {
    var once := Unscramble(h);
    forall k | 0 <= k < HeaderSize
      ensures Unscramble(once)[k] == h[k]
    {
      SwapPartnerInRange(k);
      SwapPartnerInRange(SwapPartner(k));
    }
  }

  /** The transform is injective on headers: distinct headers stay distinct. */
  lemma UnscrambleInjective(a: seq<bv8>, b: seq<bv8>)
    requires |a| == HeaderSize && |b| == HeaderSize
    requires Unscramble(a) == Unscramble(b)
    ensures a == b
  {
    Involution(a);
    Involution(b);
  }

  /** Position by position, for every triple 3t, 3t+1, 3t+2 of the header: the outer bytes
      trade places and every byte is XORed with the key. Since 204 = 3 * 68, every byte belongs
      to a full triple. */
  lemma UnscrambleTriples(h: seq<bv8>, k: nat)
    requires |h| == HeaderSize && k < HeaderSize
    ensures k % 3 == 0 ==> k + 2 < HeaderSize && Unscramble(h)[k] == h[k + 2] ^ HeaderKey
    ensures k % 3 == 1 ==> Unscramble(h)[k] == h[k] ^ HeaderKey
    ensures k % 3 == 2 ==> Unscramble(h)[k] == h[k - 2] ^ HeaderKey
  {
  }

  /** The decryption routine as the codec runs it: a length check, the swap loop over triples,
      then the XOR loop over every byte. */
  method DecryptHeader(header: seq<bv8>) returns (r: Result<seq<bv8>>)
    ensures r.Err? <==> |header| != HeaderSize
    ensures r.Err? ==> r.error == InvalidGroupHeader
    ensures r.Ok? ==> r.value == Unscramble(header)
  {
    if |header| != HeaderSize {
      return Err(InvalidGroupHeader);
    }
    var swapped := SwapTriples(header);
    var h := XorAll(swapped);
    assert forall k :: 0 <= k < HeaderSize ==> h[k] == Unscramble(header)[k];
    return Ok(h);
  }

  /** The first loop: bytes i and i + 2 trade places for i = 0, 3, 6, ... while i + 2 < 204. */
  method SwapTriples(header: seq<bv8>) returns (h: seq<bv8>)
    requires |header| == HeaderSize
    ensures |h| == HeaderSize
    ensures forall k :: 0 <= k < HeaderSize ==> h[k] == header[SwapPartner(k)]
  {
    h := header;
    var i := 0;
    while i + 2 < |h|
      invariant |h| == HeaderSize
      invariant i % 3 == 0 && i <= HeaderSize
      invariant forall k :: 0 <= k < i ==> h[k] == header[SwapPartner(k)]
      invariant forall k :: i <= k < HeaderSize ==> h[k] == header[k]
    {
      TripleStart(i);
      var next := h[i := h[i + 2]][i + 2 := h[i]];
      assert forall k :: i <= k < i + 3 ==> next[k] == header[SwapPartner(k)];
      h := next;
      i := i + 3;
    }
  }

  /** The partners inside the triple that starts at `i`. */
  lemma TripleStart(i: nat)
    requires i % 3 == 0
    ensures SwapPartner(i) == i + 2 && SwapPartner(i + 1) == i + 1 && SwapPartner(i + 2) == i
    ensures (i + 3) % 3 == 0
  {
  }

  method XorAll(swapped: seq<bv8>) returns (h: seq<bv8>)
    ensures |h| == |swapped|
    ensures forall k :: 0 <= k < |h| ==> h[k] == swapped[k] ^ HeaderKey
  {
    h := swapped;
    var j := 0;
    while j < |h|
      invariant |h| == |swapped| && j <= |h|
      invariant forall k :: 0 <= k < j ==> h[k] == swapped[k] ^ HeaderKey
      invariant forall k :: j <= k < |h| ==> h[k] == swapped[k]
    {
      h := h[j := h[j] ^ HeaderKey];
      j := j + 1;
    }
  }
}

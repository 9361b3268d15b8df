/** The layout of an encrypted file: the IV, then the encryptor's output, nothing else. */
module Framing {
  import opened Octets
  import opened Failures

  /** The bytes of an encrypted file, from its IV and the encryptor's output. */
  function Frame(iv: seq<byte>, body: seq<byte>): (f: seq<byte>)
    ensures |f| == |iv| + |body| && f[..|iv|] == iv && f[|iv|..] == body
  {
    iv + body
  }

  /** An encrypted file taken apart: the first `n` bytes as the IV and the rest as the input
      of the decryptor; None when the file holds fewer than `n` bytes. */
  function SplitIv(file: seq<byte>, n: nat): (r: Option<(seq<byte>, seq<byte>)>)
    ensures r.Some? <==> n <= |file|
    ensures r.Some? ==> |r.value.0| == n && Frame(r.value.0, r.value.1) == file
  {
    if |file| < n then None else Some((file[..n], file[n..]))
  }

  /** Taking a file apart at the length of its IV gives back the IV and the body. */
  lemma SplitFrame(iv: seq<byte>, body: seq<byte>)
    ensures SplitIv(Frame(iv, body), |iv|) == Some((iv, body))
  {
  }
}

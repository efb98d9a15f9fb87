/** Bytes, as the processors and the file formats see them. */
module Bytes {
  newtype byte = x: int | 0 <= x < 256

  /** The position of the first `b` in `bs`, or the length of `bs` when there is none. */
  function IndexOf(b: byte, bs: seq<byte>): (n: nat)
    ensures n <= |bs| && b !in bs[..n]
    ensures n < |bs| ==> bs[n] == b
  {
    if bs == [] || bs[0] == b then 0 else
      var n := IndexOf(b, bs[1..]) + 1;
      assert bs[..n] == [bs[0]] + bs[1..][..n - 1];
      n
  }

  lemma {:induction false} IndexOfIs(b: byte, bs: seq<byte>, n: nat)
    requires n <= |bs| && b !in bs[..n] && (n < |bs| ==> bs[n] == b)
    ensures IndexOf(b, bs) == n
  {
    if bs != [] {
      assert n > 0 ==> bs[..n][0] == bs[0];
      if n > 0 {
        assert bs[..n] == [bs[0]] + bs[1..][..n - 1];
        IndexOfIs(b, bs[1..], n - 1);
      }
    }
  }
}

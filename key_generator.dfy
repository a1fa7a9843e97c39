/** `key_generator.py`: the three-share prototype split. Two random 16-byte
    shares (`secrets.token_bytes(16)`, inputs here) are followed by their
    xor; "recovery" xors shares 1 and 2. The separately drawn `master` is
    printed but takes no part in the shares. */
module KeyGenerator {
  import opened Bytes

  const ShareLen: nat := 16

  /** The script's body: builds `shares` as a two-element list, appends the
      xor of its first two entries in place, then recovers from those two.
      `master` is accepted, and ignored exactly as the script ignores it:
      every output is fixed by `t0` and `t1` alone, so the recovered value is
      the third share and bears no relation to the master. */
  method GenerateShares(master: Bytes, t0: Bytes, t1: Bytes) returns (shares: seq<Bytes>, recovered: Bytes)
    requires |master| == ShareLen && |t0| == ShareLen && |t1| == ShareLen
    ensures |shares| == 3
    ensures forall i :: 0 <= i < |shares| ==> |shares[i]| == ShareLen
    ensures shares[0] == t0 && shares[1] == t1
    ensures shares[2] == Xor(shares[0], shares[1])
    ensures recovered == shares[2]
    ensures Xor(shares[0], shares[2]) == shares[1] && Xor(shares[1], shares[2]) == shares[0]
  {
    shares := [t0, t1];
    shares := shares + [Xor(shares[0], shares[1])];
    recovered := Xor(shares[0], shares[1]);
    XorCancels(t1, t0);
    XorCommutes(t0, t1);
    XorCancels(t0, t1);
  }
}

/** The Java and the C implementation give one public key for every private key. */
module KeyAgreement {
  import opened Bits
  import opened Field25519
  import opened Options
  import opened JavaLimbs
  import JavaCurve25519
  import EmbeddableCurve

  method BothPublicKeys(privateKey: seq<sbyte>) returns (java: seq<sbyte>, c: seq<byte>)
    requires |privateKey| == 32
    ensures |java| == |c| == 32
    ensures var key := EncodeU(X25519(DecodeScalar(Unsigned(privateKey)), 9));
      forall i :: 0 <= i < 32 ==> (java[i] as int) % 256 == c[i] == key[i]
  {
    hide EncodeU, X25519, DecodeScalar;
    var j := new sbyte[32];
    JavaCurve25519.Curve25519.Eval(j, 0, privateKey, None);
    var p := new byte[32];
    EmbeddableCurve.GeneratePublicKey(p, Unsigned(privateKey));
    java, c := j[..], p[..];
    assert forall i :: 0 <= i < 32 ==> (java[0 + i] as int) % 256 == PublicKey(Unsigned(privateKey))[i];
  }
}

/** src/shake_mac.rs: the envelope construction and the constant-time comparison. */
module ShakeMac {
  import opened Machine
  import opened Primitives

  function Envelope(key: Bytes, message: Bytes): Bytes {
    key + message + key
  }

  function Mac(shake: Xof, key: Bytes, message: Bytes, outLen: nat): Bytes {
    shake(Envelope(key, message), outLen)
  }

  /** The OR of the byte-wise XORs is zero exactly on equal strings. */
  method VerifyMac(expected: Bytes, computed: Bytes) returns (same: bool)
    ensures same <==> expected == computed
  {
    if |expected| != |computed| {
      return false;
    }
    var diff: Byte := 0;
    for i := 0 to |expected|
      invariant diff == 0 <==> expected[..i] == computed[..i]
    {
      diff := diff | (expected[i] ^ computed[i]);
      assert expected[..i + 1] == expected[..i] + [expected[i]];
      assert computed[..i + 1] == computed[..i] + [computed[i]];
    }
    assert expected[..|expected|] == expected && computed[..|expected|] == computed;
    return diff == 0;
  }

  /** Two inputs with one envelope are the same input exactly when their parts split at the
      same place: the keys have one length, or the messages have. */
  lemma EnvelopeInjectiveIff(key1: Bytes, message1: Bytes, key2: Bytes, message2: Bytes)
    requires Envelope(key1, message1) == Envelope(key2, message2)
    ensures key1 == key2 && message1 == message2 <==> |key1| == |key2|
    ensures |key1| == |key2| <==> |message1| == |message2|
  {
    var e1, e2, n := Envelope(key1, message1), Envelope(key2, message2), |key1|;
    assert |e1| == 2 * |key1| + |message1| && |e2| == 2 * |key2| + |message2|;
    if |key1| == |key2| {
      assert key1 == e1[..n] == e2[..n] == key2;
      assert message1 == e1[n..n + |message1|] == e2[n..n + |message1|] == message2;
    }
  }

  /** They need not: the envelope alone is ambiguous. */
  lemma EnvelopeAmbiguous()
    ensures Envelope([], [0, 0]) == Envelope([0], [])
  {
    assert Envelope([], [0, 0]) == [0, 0] == Envelope([0], []);
  }
}

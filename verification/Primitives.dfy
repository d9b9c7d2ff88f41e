/** The cryptographic and encoding libraries the system calls. They are values, so every
    theorem holds for all of them; what a theorem needs from them is a named law. Random
    choices made inside a library call are an explicit argument. */
module Primitives {
  import opened Machine

  const KYBER_CIPHERTEXT := 1088
  const KYBER_SHARED_SECRET := 32
  const DILITHIUM_PUBLIC_KEY := 1952

  datatype Keypair = Keypair(publicKey: Bytes, secretKey: Bytes)

  datatype Encapsulated = Encapsulated(ciphertext: Bytes, sharedSecret: Bytes)

  datatype KyberError = InvalidPublicKey | InvalidSecretKey | InvalidCiphertext | DecapsulationFailed

  datatype DilithiumError = VerificationFailed | InvalidPublicKey | InvalidSecretKey | InvalidSignature

  /** An extendable-output function: the second argument is the output length. */
  type Xof = f: (Bytes, nat) -> Bytes | forall m, n :: |f(m, n)| == n
    witness (m: Bytes, n: nat) => seq(n, _ => 0 as Byte)

  datatype Library = Library(
    shake: Xof,
    hexEncode: Bytes -> Bytes,
    hexDecode: Bytes -> Option<Bytes>,
    kyberKeypair: Bytes -> Keypair,
    encapsulate: (Bytes, Bytes) -> Result<Encapsulated, KyberError>,
    decapsulate: (Bytes, Bytes) -> Result<Bytes, KyberError>,
    dilithiumKeypair: Bytes -> Keypair,
    sign: (Bytes, Bytes, Bytes) -> Result<Bytes, DilithiumError>,
    verifySignature: (Bytes, Bytes, Bytes) -> Result<(), DilithiumError>)
  {
    ghost predicate HexLaw() {
      forall b :: hexDecode(hexEncode(b)) == Some(b)
    }

    /** What an encapsulation against a generated key hides, that key recovers. */
    ghost predicate KemLaw() {
      forall seed, coins ::
        var kp := kyberKeypair(seed);
        var e := encapsulate(kp.publicKey, coins);
        && e.Ok?
        && |e.value.ciphertext| == KYBER_CIPHERTEXT
        && |e.value.sharedSecret| == KYBER_SHARED_SECRET
        && decapsulate(kp.secretKey, e.value.ciphertext) == Ok(e.value.sharedSecret)
    }

    /** A signature made with a generated key verifies under it. */
    ghost predicate SignatureLaw() {
      forall seed, message, coins ::
        var kp := dilithiumKeypair(seed);
        var s := sign(kp.secretKey, message, coins);
        && |kp.publicKey| == DILITHIUM_PUBLIC_KEY
        && s.Ok?
        && verifySignature(kp.publicKey, message, s.value) == Ok(())
    }

    ghost predicate Lawful() {
      HexLaw() && KemLaw() && SignatureLaw()
    }
  }

  /** The laws are satisfiable, so no theorem that assumes them is vacuous. */
  lemma LawfulLibraryExists() returns (lib: Library)
    ensures lib.Lawful()
  {
    var zeros := (n: nat) => seq(n, _ => 0 as Byte);
    lib := Library(
      (m: Bytes, n: nat) => seq(n, _ => 0 as Byte),
      (b: Bytes) => b,
      (b: Bytes) => Some(b),
      (seed: Bytes) => Keypair(zeros(1184), zeros(2400)),
      (pk: Bytes, coins: Bytes) => Ok(Encapsulated(zeros(KYBER_CIPHERTEXT), zeros(KYBER_SHARED_SECRET))),
      (sk: Bytes, ct: Bytes) => Ok(zeros(KYBER_SHARED_SECRET)),
      (seed: Bytes) => Keypair(zeros(DILITHIUM_PUBLIC_KEY), zeros(4032)),
      (sk: Bytes, m: Bytes, coins: Bytes) => Ok([]),
      (pk: Bytes, m: Bytes, sig: Bytes) => Ok(()));
  }

  /** A hash that tells one input from all others, in the fourth byte. Nothing about a hash
      function is assumed elsewhere, so what is accepted under this one is accepted for no
      other reason than that the right bytes were hashed. */
  function TellApart(special: Bytes): (shake: Xof)
    ensures forall m, n, i :: 0 <= i < n ==> shake(m, n)[i] == if m != special && i == 3 then 1 else 0
  {
    (m: Bytes, n: nat) => seq(n, i => if m != special && i == 3 then 1 else 0 as Byte)
  }
}

/** `p_SHA256`, `PRF` and the key block of `_init_cipher_spec` in lnst/Common/SecureSocket.py. */
module KeyExpansion {
  import opened Sequences
  import opened Decimal
  import opened CipherState

  const AES_KEYSIZE := 32
  const MAC_KEYSIZE := 64
  const MASTER_SIZE := 48

  type Mac = (Bytes, Bytes) -> Bytes

  /** HMAC digests have a fixed, positive length. */
  ghost predicate FixedSize(mac: Mac, size: nat) {
    size > 0 && forall k, m :: |mac(k, m)| == size
  }

  // ---- P_hash of section 5 of RFC 5246 ----

  /** A(0) = seed, A(i) = HMAC(secret, A(i-1)). */
  function A(mac: Mac, secret: Bytes, seed: Bytes, i: nat): Bytes {
    if i == 0 then seed else mac(secret, A(mac, secret, seed, i - 1))
  }

  /** HMAC(secret, A(1) + seed) + ... + HMAC(secret, A(n) + seed). */
  function PHash(mac: Mac, secret: Bytes, seed: Bytes, n: nat): Bytes {
    if n == 0 then [] else PHash(mac, secret, seed, n - 1) + mac(secret, A(mac, secret, seed, n) + seed)
  }

  lemma {:induction false} PHashLength(mac: Mac, size: nat, secret: Bytes, seed: Bytes, n: nat)
    requires FixedSize(mac, size)
    ensures |PHash(mac, secret, seed, n)| == n * size
  {
    if n > 0 {
      PHashLength(mac, size, secret, seed, n - 1);
    }
  }

  lemma {:induction false} PHashPrefix(mac: Mac, secret: Bytes, seed: Bytes, m: nat, n: nat)
    requires m <= n
    ensures PHash(mac, secret, seed, m) <= PHash(mac, secret, seed, n)
    decreases n - m
  {
    if m < n {
      PHashPrefix(mac, secret, seed, m, n - 1);
    }
  }

  /** `r` is the first `length` bytes of the infinite P_hash output. */
  ghost predicate IsPHash(mac: Mac, secret: Bytes, seed: Bytes, length: nat, r: Bytes) {
    |r| == length && forall n: nat :: |PHash(mac, secret, seed, n)| >= length ==> r == PHash(mac, secret, seed, n)[..length]
  }

  lemma PHashTruncated(mac: Mac, secret: Bytes, seed: Bytes, n: nat, length: nat)
    requires length <= |PHash(mac, secret, seed, n)|
    ensures IsPHash(mac, secret, seed, length, PHash(mac, secret, seed, n)[..length])
  {
    forall m: nat | |PHash(mac, secret, seed, m)| >= length
      ensures PHash(mac, secret, seed, n)[..length] == PHash(mac, secret, seed, m)[..length]
    {
      if m <= n { PHashPrefix(mac, secret, seed, m, n); } else { PHashPrefix(mac, secret, seed, n, m); }
    }
  }

  /** The loop of `p_SHA256`. */
  method PSha256(mac: Mac, ghost size: nat, secret: Bytes, seed: Bytes, length: nat) returns (r: Bytes)
    requires FixedSize(mac, size)
    ensures IsPHash(mac, secret, seed, length, r)
  {
    var prevA, result := seed, [];
    ghost var n := 0;
    while |result| < length
      invariant prevA == A(mac, secret, seed, n) && result == PHash(mac, secret, seed, n)
      decreases length - |result|
    {
      prevA := mac(secret, prevA);
      result := result + mac(secret, prevA + seed);
      n := n + 1;
    }
    r := result[..length];
    PHashTruncated(mac, secret, seed, n, length);
  }

  lemma EnoughBlocks(mac: Mac, size: nat, secret: Bytes, seed: Bytes, length: nat) returns (n: nat)
    requires FixedSize(mac, size)
    ensures |PHash(mac, secret, seed, n)| >= length
  {
    n := length;
    PHashLength(mac, size, secret, seed, n);
    assert n * size >= n by { assert n * (size - 1) >= 0; }
  }

  /** The output is determined by its inputs, and a longer output only continues a shorter one. */
  lemma PrefixStable(mac: Mac, size: nat, secret: Bytes, seed: Bytes, l1: nat, r1: Bytes, l2: nat, r2: Bytes)
    requires FixedSize(mac, size) && l1 <= l2
    requires IsPHash(mac, secret, seed, l1, r1) && IsPHash(mac, secret, seed, l2, r2)
    ensures r1 <= r2
  {
    var n := EnoughBlocks(mac, size, secret, seed, l2);
    assert r2 == PHash(mac, secret, seed, n)[..l2] && r1 == PHash(mac, secret, seed, n)[..l1];
  }

  /** No two texts have the same digest, nor have two keys of one length. */
  ghost predicate Injective(mac: Mac) {
    forall k, m, k', m' :: |k| == |k'| && mac(k, m) == mac(k', m') ==> k == k' && m == m'
  }

  lemma FirstBlock(mac: Mac, size: nat, secret: Bytes, seed: Bytes, length: nat, r: Bytes)
    requires FixedSize(mac, size) && size <= length && IsPHash(mac, secret, seed, length, r)
    ensures r[..size] == mac(secret, mac(secret, seed) + seed)
  {
    var first := PHash(mac, secret, seed, 1);
    assert A(mac, secret, seed, 1) == mac(secret, A(mac, secret, seed, 0)) == mac(secret, seed);
    assert PHash(mac, secret, seed, 0) == [];
    assert first == [] + mac(secret, mac(secret, seed) + seed) == mac(secret, mac(secret, seed) + seed);
    PHashTruncated(mac, secret, seed, 1, size);
    assert first[..size] == first;
    PrefixStable(mac, size, secret, seed, size, first, length, r);
  }

  /** An output of at least one digest tells its inputs apart. */
  lemma PHashIff(mac: Mac, size: nat, secret: Bytes, seed: Bytes, secret': Bytes, seed': Bytes, length: nat, r: Bytes, r': Bytes)
    requires FixedSize(mac, size) && Injective(mac) && |secret| == |secret'| && size <= length
    requires IsPHash(mac, secret, seed, length, r) && IsPHash(mac, secret', seed', length, r')
    ensures r == r' <==> secret == secret' && seed == seed'
  {
    if r == r' {
      hide IsPHash;
      FirstBlock(mac, size, secret, seed, length, r);
      FirstBlock(mac, size, secret', seed', length, r');
      assert mac(secret, seed) + seed == mac(secret', seed') + seed';
      assert (mac(secret, seed) + seed)[size..] == seed && (mac(secret', seed') + seed')[size..] == seed';
    } else if secret == secret' && seed == seed' {
      PrefixStable(mac, size, secret, seed, length, r, length, r');
    }
  }

  // ---- The key block ----

  datatype Role = Client | Server

  /** The four keys cut from the key block, in the order they are cut. */
  datatype Keys = Keys(clientEnc: Bytes, serverEnc: Bytes, clientMac: Bytes, serverMac: Bytes)

  function KeysOf(block: Bytes): Keys
    requires |block| == 2 * AES_KEYSIZE + 2 * MAC_KEYSIZE
  {
    Keys(block[..AES_KEYSIZE], block[AES_KEYSIZE..2 * AES_KEYSIZE],
         block[2 * AES_KEYSIZE..2 * AES_KEYSIZE + MAC_KEYSIZE], block[2 * AES_KEYSIZE + MAC_KEYSIZE..])
  }

  /** The keys are the block, cut without gap or overlap, each of its right size. */
  lemma KeysCoverBlock(block: Bytes)
    requires |block| == 2 * AES_KEYSIZE + 2 * MAC_KEYSIZE
    ensures var k := KeysOf(block);
            && k.clientEnc + k.serverEnc + k.clientMac + k.serverMac == block
            && |k.clientEnc| == |k.serverEnc| == AES_KEYSIZE && |k.clientMac| == |k.serverMac| == MAC_KEYSIZE
  {
  }

  function InstallWrite(role: Role, k: Keys, s: Spec): Spec {
    if role == Client then s.(encKey := k.clientEnc, macKey := k.clientMac)
    else s.(encKey := k.serverEnc, macKey := k.serverMac)
  }

  function InstallRead(role: Role, k: Keys, s: Spec): Spec {
    InstallWrite(if role == Client then Server else Client, k, s)
  }
}

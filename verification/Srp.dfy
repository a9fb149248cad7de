/** The shared secret of both `_passwd_handshake` methods (section 2.6 of RFC 5054). */
module Srp {
  import opened ModularPower

  /** A prime modulus and a generator; nothing but `p` being positive is needed for agreement. */
  datatype Group = Group(p: int, g: int)

  /** The password verifier `v`. */
  function Verifier(grp: Group, x: nat): int
    requires grp.p > 0
  {
    PowMod(grp.g, x, grp.p)
  }

  /** The client's public value `A`. */
  function ClientPublic(grp: Group, a: nat): int
    requires grp.p > 0
  {
    PowMod(grp.g, a, grp.p)
  }

  /** The server's public value `B`. */
  function ServerPublic(grp: Group, k: int, v: int, b: nat): int
    requires grp.p > 0
  {
    (PowMod(grp.g, b, grp.p) + k * v) % grp.p
  }

  /** The client's secret: `(B - k * g^x) ^ (a + u * x)`. */
  function ClientSecret(grp: Group, k: int, x: nat, a: nat, u: nat, B: int): int
    requires grp.p > 0
  {
    PowMod(B - k * PowMod(grp.g, x, grp.p), a + u * x, grp.p)
  }

  /** The server's secret: `(A * v^u) ^ b`. */
  function ServerSecret(grp: Group, v: int, b: nat, u: nat, A: int): int
    requires grp.p > 0
  {
    PowMod(PowMod(v, u, grp.p) * A, b, grp.p)
  }

  lemma ClientSide(grp: Group, k: int, x: nat, a: nat, b: nat, u: nat)
    requires grp.p > 0
    ensures Cong(ClientSecret(grp, k, x, a, u, ServerPublic(grp, k, Verifier(grp, x), b)), Pow(grp.g, b * (a + u * x)), grp.p)
  {
    hide Pow;
    var v := Verifier(grp, x);
    var gb := PowMod(grp.g, b, grp.p);
    CongReduce(gb + k * v, grp.p);
    CongAdd((gb + k * v) % grp.p, gb + k * v, -(k * v), grp.p);
    CongReduce(Pow(grp.g, b), grp.p);
    var base := ServerPublic(grp, k, v, b) - k * v;
    assert Cong(base, Pow(grp.g, b), grp.p);
    CongPow(base, Pow(grp.g, b), a + u * x, grp.p);
    PowPow(grp.g, b, a + u * x);
    CongReduce(Pow(base, a + u * x), grp.p);
  }

  lemma ServerBase(grp: Group, x: nat, a: nat, u: nat)
    requires grp.p > 0
    ensures Cong(PowMod(Verifier(grp, x), u, grp.p) * ClientPublic(grp, a), Pow(grp.g, x * u + a), grp.p)
  {
    var gx, ga := Pow(grp.g, x), Pow(grp.g, a);
    var v := Verifier(grp, x);
    CongReduce(gx, grp.p);
    CongPow(v, gx, u, grp.p);
    CongReduce(Pow(v, u), grp.p);
    CongReduce(ga, grp.p);
    CongMulBoth(PowMod(v, u, grp.p), Pow(gx, u), ClientPublic(grp, a), ga, grp.p);
    PowPow(grp.g, x, u);
    PowAdd(grp.g, x * u, a);
  }

  lemma ServerSide(grp: Group, x: nat, a: nat, b: nat, u: nat)
    requires grp.p > 0
    ensures Cong(ServerSecret(grp, Verifier(grp, x), b, u, ClientPublic(grp, a)), Pow(grp.g, (x * u + a) * b), grp.p)
  {
    var base := PowMod(Verifier(grp, x), u, grp.p) * ClientPublic(grp, a);
    ServerBase(grp, x, a, u);
    CongPow(base, Pow(grp.g, x * u + a), b, grp.p);
    PowPow(grp.g, x * u + a, b);
    CongReduce(Pow(base, b), grp.p);
  }

  lemma SameExponent(a: nat, b: nat, u: nat, x: nat)
    ensures b * (a + u * x) == (x * u + a) * b
  {
  }

  /** Agreement: for all private values and all hash outputs, both ends compute the same secret. */
  lemma SecretsAgree(grp: Group, k: int, x: nat, a: nat, b: nat, u: nat)
    requires grp.p > 0
    ensures ClientSecret(grp, k, x, a, u, ServerPublic(grp, k, Verifier(grp, x), b)) ==
            ServerSecret(grp, Verifier(grp, x), b, u, ClientPublic(grp, a))
  {
    ClientSide(grp, k, x, a, b, u);
    ServerSide(grp, x, a, b, u);
    SameExponent(a, b, u, x);
    CongReduced(ClientSecret(grp, k, x, a, u, ServerPublic(grp, k, Verifier(grp, x), b)),
                ServerSecret(grp, Verifier(grp, x), b, u, ClientPublic(grp, a)), Pow(grp.g, b * (a + u * x)), grp.p);
  }
}

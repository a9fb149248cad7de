/**
  Both ends of the password handshake: `_passwd_handshake` of lnst/Controller/CtlSecSocket.py (the
  client) and of lnst/Agent/AgentSecSocket.py (the server), cut at the points where they wait for
  the peer.
 */
module PasswordHandshake {
  import opened Sequences
  import opened Decimal
  import opened Base256
  import opened ModularPower
  import opened Srp
  import opened CipherState
  import opened KeyExpansion
  import Framing
  import opened SecureSocket

  datatype HandshakeMsg =
    | ClientBegin(username: Bytes)
    | ServerSalt(salt: Bytes)
    | ClientPub(ctlPubkey: Bytes)
    | ServerPub(srvPubkey: Bytes)
    | ClientM1(m1: Bytes)
    | ServerM2(m2: Bytes)

  /** The group with its sizes in bytes, and SHA-256. */
  datatype Setting = Setting(group: Group, pSize: nat, hash: Bytes -> Bytes)

  ghost predicate ValidSetting(st: Setting) {
    1 < st.group.p <= Power(st.pSize)
  }

  /** The ASCII bytes of "lnst_user". */
  const USERNAME: Bytes := [108, 110, 115, 116, 95, 117, 115, 101, 114]

  /** A number as `p_size` bytes. */
  function Wide(st: Setting, n: int): Bytes {
    if n < 0 then [] else ToBytes(n, st.pSize)
  }

  /** The multiplier `k`: the generator is hashed as a single byte. */
  function Multiplier(st: Setting): nat {
    Value(st.hash(Wide(st, st.group.p) + [if 0 <= st.group.g < 256 then st.group.g else 0]))
  }

  function PasswordHash(st: Setting, salt: Bytes, username: Bytes, password: Bytes): nat {
    Value(st.hash(salt + username + password))
  }

  function Scrambler(st: Setting, ctlPubkey: Bytes, srvPubkey: Bytes): nat {
    Value(st.hash(ctlPubkey + srvPubkey))
  }

  function Proof1(st: Setting, ctlPubkey: Bytes, srvPubkey: Bytes, secret: Bytes): Bytes {
    st.hash(ctlPubkey + srvPubkey + secret)
  }

  function Proof2(st: Setting, ctlPubkey: Bytes, m1: Bytes, secret: Bytes): Bytes {
    st.hash(ctlPubkey + m1 + secret)
  }

  // ---- What the hashes tell apart ----

  /** Different texts have different hashes, all of one length. */
  ghost predicate CollisionFree(st: Setting) {
    && (forall a, b :: st.hash(a) == st.hash(b) ==> a == b)
    && (forall a, b :: |st.hash(a)| == |st.hash(b)|)
  }

  /** Three texts behind each other, the first two of known lengths. */
  lemma ThreeParts(a: Bytes, b: Bytes, c: Bytes, a': Bytes, b': Bytes, c': Bytes)
    requires a + b + c == a' + b' + c' && |a| == |a'| && |b| == |b'|
    ensures a == a' && b == b' && c == c'
  {
    var t, t' := a + b + c, a' + b' + c';
    assert t[..|a|] == a && t'[..|a|] == a';
    assert t[|a|..|a| + |b|] == b && t'[|a|..|a| + |b|] == b';
    assert t[|a| + |b|..] == c && t'[|a| + |b|..] == c';
  }

  /** The first proof is good for the two public values and the secret it was made from only. */
  lemma Proof1Iff(st: Setting, ctlPubkey: Bytes, srvPubkey: Bytes, secret: Bytes, ctlPubkey': Bytes, srvPubkey': Bytes, secret': Bytes)
    requires CollisionFree(st) && |ctlPubkey| == |ctlPubkey'| && |srvPubkey| == |srvPubkey'|
    ensures Proof1(st, ctlPubkey, srvPubkey, secret) == Proof1(st, ctlPubkey', srvPubkey', secret') <==>
            ctlPubkey == ctlPubkey' && srvPubkey == srvPubkey' && secret == secret'
  {
    if Proof1(st, ctlPubkey, srvPubkey, secret) == Proof1(st, ctlPubkey', srvPubkey', secret') {
      ThreeParts(ctlPubkey, srvPubkey, secret, ctlPubkey', srvPubkey', secret');
    }
  }

  /** The second proof is good for the client's public value, the first proof and the secret only. */
  lemma Proof2Iff(st: Setting, ctlPubkey: Bytes, m1: Bytes, secret: Bytes, ctlPubkey': Bytes, m1': Bytes, secret': Bytes)
    requires CollisionFree(st) && |ctlPubkey| == |ctlPubkey'| && |m1| == |m1'|
    ensures Proof2(st, ctlPubkey, m1, secret) == Proof2(st, ctlPubkey', m1', secret') <==>
            ctlPubkey == ctlPubkey' && m1 == m1' && secret == secret'
  {
    if Proof2(st, ctlPubkey, m1, secret) == Proof2(st, ctlPubkey', m1', secret') {
      ThreeParts(ctlPubkey, m1, secret, ctlPubkey', m1', secret');
    }
  }

  lemma SameValue(a: Bytes, b: Bytes)
    requires |a| == |b| && Value(a) == Value(b)
    ensures a == b
  {
    ToBytesValue(a);
    ToBytesValue(b);
  }

  /** Under salts of one length the password hash tells salts and passwords apart. */
  lemma PasswordHashIff(st: Setting, salt: Bytes, password: Bytes, salt': Bytes, password': Bytes)
    requires CollisionFree(st) && |salt| == |salt'|
    ensures PasswordHash(st, salt, USERNAME, password) == PasswordHash(st, salt', USERNAME, password') <==>
            salt == salt' && password == password'
  {
    if PasswordHash(st, salt, USERNAME, password) == PasswordHash(st, salt', USERNAME, password') {
      SameValue(st.hash(salt + USERNAME + password), st.hash(salt' + USERNAME + password'));
      ThreeParts(salt, USERNAME, password, salt', USERNAME, password');
    }
  }

  /** The scrambling parameter tells the public values of two exchanges apart. */
  lemma ScramblerIff(st: Setting, ctlPubkey: Bytes, srvPubkey: Bytes, ctlPubkey': Bytes, srvPubkey': Bytes)
    requires CollisionFree(st) && |ctlPubkey| == |ctlPubkey'|
    ensures Scrambler(st, ctlPubkey, srvPubkey) == Scrambler(st, ctlPubkey', srvPubkey') <==>
            ctlPubkey == ctlPubkey' && srvPubkey == srvPubkey'
  {
    if Scrambler(st, ctlPubkey, srvPubkey) == Scrambler(st, ctlPubkey', srvPubkey') {
      SameValue(st.hash(ctlPubkey + srvPubkey), st.hash(ctlPubkey' + srvPubkey'));
      assert ctlPubkey + srvPubkey == ctlPubkey + srvPubkey + [] && ctlPubkey' + srvPubkey' == ctlPubkey' + srvPubkey' + [];
      ThreeParts(ctlPubkey, srvPubkey, [], ctlPubkey', srvPubkey', []);
    }
  }

  /** The multiplier tells groups of one size apart. */
  lemma MultiplierIff(st: Setting, st': Setting)
    requires ValidSetting(st) && ValidSetting(st') && CollisionFree(st) && st.hash == st'.hash && st.pSize == st'.pSize
    requires 0 <= st.group.g < 256 && 0 <= st'.group.g < 256 && st.group.p < Power(st.pSize) && st'.group.p < Power(st.pSize)
    ensures Multiplier(st) == Multiplier(st') <==> st.group == st'.group
  {
    if Multiplier(st) == Multiplier(st') {
      var p, p' := Wide(st, st.group.p), Wide(st', st'.group.p);
      SameValue(st.hash(p + [st.group.g]), st.hash(p' + [st'.group.g]));
      assert p + [st.group.g] == [] + p + [st.group.g] && p' + [st'.group.g] == [] + p' + [st'.group.g];
      ThreeParts([], p, [st.group.g], [], p', [st'.group.g]);
      ModulusBytes(st);
      ModulusBytes(st');
    }
  }

  lemma ModulusBytes(st: Setting)
    requires ValidSetting(st) && st.group.p < Power(st.pSize)
    ensures Value(Wide(st, st.group.p)) == st.group.p
  {
    ValueToBytes(st.group.p, st.pSize);
  }

  /** What an end sends to announce its new keys. */
  function SwitchFrame(c: Crypto, before: Spec, iv: Bytes): Bytes {
    Framing.Encode(Protect(c, before, c.switchMsg, iv))
  }

  /** Sets the master secret from the shared secret, derives the keys and switches the writing state. */
  method Finish(sock: Socket, st: Setting, secret: Bytes, ctlRandom: Bytes, agentRandom: Bytes, iv: Bytes, ghost size: nat)
    returns (ghost block: Bytes)
    requires FixedSize(sock.crypto.mac, size)
    modifies sock
    ensures IsPHash(sock.crypto.mac, st.hash(secret), MASTER_SECRET + (ctlRandom + agentRandom), MASTER_SIZE, sock.masterSecret)
    ensures |block| == 2 * AES_KEYSIZE + 2 * MAC_KEYSIZE
    ensures IsPHash(sock.crypto.mac, sock.masterSecret, KEY_EXPANSION + (agentRandom + ctlRandom), |block|, block)
    ensures sock.Writer() == End(InstallWrite(sock.role, KeysOf(block), old(sock.nextWriteSpec)), BLANK)
    ensures sock.Reader() == End(old(sock.currentReadSpec), InstallRead(sock.role, KeysOf(block), old(sock.nextReadSpec)))
    ensures sock.outgoing == old(sock.outgoing) + SwitchFrame(sock.crypto, old(sock.currentWriteSpec), iv)
  {
    sock.masterSecret := PSha256(sock.crypto.mac, size, st.hash(secret), MASTER_SECRET + (ctlRandom + agentRandom), MASTER_SIZE);
    block := sock.InitCipherSpec(ctlRandom, agentRandom, size);
    sock.SendChangeCipherSpec(iv);
  }

  class CtlSecSocket {
    const sock: Socket
    const setting: Setting
    const password: Bytes
    const ctlRandom: Bytes
    const agentRandom: Bytes
    var xInt: nat
    var ctlPrivkeyInt: nat
    var ctlPubkey: Bytes
    var m1: Bytes
    var secret: Bytes

    constructor (sock: Socket, setting: Setting, password: Bytes, ctlRandom: Bytes, agentRandom: Bytes)
      ensures this.sock == sock && this.setting == setting && this.password == password
      ensures this.ctlRandom == ctlRandom && this.agentRandom == agentRandom
    {
      this.sock, this.setting, this.password, this.ctlRandom, this.agentRandom := sock, setting, password, ctlRandom, agentRandom;
      xInt, ctlPrivkeyInt, ctlPubkey, m1, secret := 0, 0, [], [], [];
    }

    /** Answers the salt with the public value for the private value drawn by the caller. */
    method OnSalt(reply: HandshakeMsg, privkey: nat) returns (r: Option<HandshakeMsg>)
      requires ValidSetting(setting)
      modifies this
      ensures r.Some? <==> reply.ServerSalt?
      ensures r.Some? ==>
        && xInt == PasswordHash(setting, reply.salt, USERNAME, password)
        && ctlPrivkeyInt == privkey
        && ctlPubkey == Wide(setting, ClientPublic(setting.group, privkey))
        && r == Some(ClientPub(ctlPubkey))
    {
      if !reply.ServerSalt? { return None; }
      var x := setting.hash(reply.salt + USERNAME + password);
      xInt := Value(x);
      ctlPrivkeyInt := privkey;
      var ctlPubkeyInt := PowMod(setting.group.g, ctlPrivkeyInt, setting.group.p);
      ctlPubkey := Wide(setting, ctlPubkeyInt);
      r := Some(ClientPub(ctlPubkey));
    }

    /** Computes the secret from the server's public value and answers with the first proof. */
    method OnServerPub(reply: HandshakeMsg) returns (r: Option<HandshakeMsg>)
      requires ValidSetting(setting)
      modifies this`m1, this`secret
      ensures r.Some? <==> reply.ServerPub? && Value(reply.srvPubkey) % setting.group.p != 0
      ensures r.Some? ==>
        && secret == Wide(setting, ClientSecret(setting.group, Multiplier(setting), xInt, ctlPrivkeyInt,
                                                Scrambler(setting, ctlPubkey, reply.srvPubkey), Value(reply.srvPubkey)))
        && m1 == Proof1(setting, ctlPubkey, reply.srvPubkey, secret)
        && r == Some(ClientM1(m1))
    {
      if !reply.ServerPub? { return None; }
      var srvPubkeyInt := Value(reply.srvPubkey);
      if srvPubkeyInt % setting.group.p == 0 { return None; }
      var uInt := Value(setting.hash(ctlPubkey + reply.srvPubkey));
      var sInt := srvPubkeyInt - Multiplier(setting) * PowMod(setting.group.g, xInt, setting.group.p);
      sInt := PowMod(sInt, ctlPrivkeyInt + uInt * xInt, setting.group.p);
      secret := Wide(setting, sInt);
      m1 := setting.hash(ctlPubkey + reply.srvPubkey + secret);
      r := Some(ClientM1(m1));
    }

    /** Checks the second proof and switches to the agreed keys. */
    method OnM2(reply: HandshakeMsg, iv: Bytes, ghost size: nat) returns (ok: bool, ghost block: Bytes)
      requires FixedSize(sock.crypto.mac, size)
      modifies sock
      ensures ok <==> reply == ServerM2(Proof2(setting, ctlPubkey, m1, secret))
      ensures ok ==> Agreed(sock, old(sock.nextWriteSpec), old(sock.nextReadSpec), setting, secret, ctlRandom, agentRandom, block)
      ensures ok ==> sock.outgoing == old(sock.outgoing) + SwitchFrame(sock.crypto, old(sock.currentWriteSpec), iv)
      ensures sock.currentReadSpec == old(sock.currentReadSpec)
      ensures !ok ==> unchanged(sock)
    {
      block := [];
      if !reply.ServerM2? { return false, []; }
      var clientM2 := setting.hash(ctlPubkey + m1 + secret);
      if reply.m2 != clientM2 { return false, []; }
      block := Finish(sock, setting, secret, ctlRandom, agentRandom, iv, size);
      ok := true;
    }
  }

  class AgentSecSocket {
    const sock: Socket
    const setting: Setting
    const password: Bytes
    const ctlRandom: Bytes
    const agentRandom: Bytes
    var xInt: nat
    var v: int
    var ctlPubkey: Bytes
    var srvPubkey: Bytes
    var secret: Bytes

    constructor (sock: Socket, setting: Setting, password: Bytes, ctlRandom: Bytes, agentRandom: Bytes)
      ensures this.sock == sock && this.setting == setting && this.password == password
      ensures this.ctlRandom == ctlRandom && this.agentRandom == agentRandom
    {
      this.sock, this.setting, this.password, this.ctlRandom, this.agentRandom := sock, setting, password, ctlRandom, agentRandom;
      xInt, v, ctlPubkey, srvPubkey, secret := 0, 0, [], [], [];
    }

    /** Computes the password verifier for a salt drawn by the caller. */
    method OnBegin(msg: HandshakeMsg, salt: Bytes) returns (r: Option<HandshakeMsg>)
      requires ValidSetting(setting)
      modifies this
      ensures r.Some? <==> msg == ClientBegin(USERNAME)
      ensures r.Some? ==>
        && xInt == PasswordHash(setting, salt, USERNAME, password)
        && v == Verifier(setting.group, xInt)
        && r == Some(ServerSalt(salt))
    {
      if !msg.ClientBegin? { return None; }
      if msg.username != USERNAME { return None; }
      var x := setting.hash(salt + msg.username + password);
      xInt := Value(x);
      v := PowMod(setting.group.g, xInt, setting.group.p);
      r := Some(ServerSalt(salt));
    }

    /** Computes the secret from the client's public value and a private value, and answers with the server's. */
    method OnClientPub(reply: HandshakeMsg, privkey: nat) returns (r: Option<HandshakeMsg>)
      requires ValidSetting(setting)
      modifies this`ctlPubkey, this`srvPubkey, this`secret
      ensures r.Some? <==> reply.ClientPub? && Value(reply.ctlPubkey) % setting.group.p != 0
      ensures r.Some? ==>
        && ctlPubkey == reply.ctlPubkey
        && srvPubkey == Wide(setting, ServerPublic(setting.group, Multiplier(setting), v, privkey))
        && secret == Wide(setting, ServerSecret(setting.group, v, privkey, Scrambler(setting, ctlPubkey, srvPubkey), Value(ctlPubkey)))
        && r == Some(ServerPub(srvPubkey))
    {
      if !reply.ClientPub? { return None; }
      ctlPubkey := reply.ctlPubkey;
      var ctlPubkeyInt := Value(ctlPubkey);
      if ctlPubkeyInt % setting.group.p == 0 { return None; }
      var srvPubkeyInt := PowMod(setting.group.g, privkey, setting.group.p);
      srvPubkeyInt := (srvPubkeyInt + Multiplier(setting) * v) % setting.group.p;
      srvPubkey := Wide(setting, srvPubkeyInt);
      var uInt := Value(setting.hash(ctlPubkey + srvPubkey));
      var sInt := PowMod(v, uInt, setting.group.p) * ctlPubkeyInt;
      sInt := PowMod(sInt, privkey, setting.group.p);
      secret := Wide(setting, sInt);
      r := Some(ServerPub(srvPubkey));
    }

    /** Checks the first proof, answers with the second and switches to the agreed keys. */
    method OnM1(msg: HandshakeMsg, iv: Bytes, ghost size: nat) returns (r: Option<HandshakeMsg>, ghost block: Bytes)
      requires FixedSize(sock.crypto.mac, size)
      modifies sock
      ensures r.Some? <==> msg == ClientM1(Proof1(setting, ctlPubkey, srvPubkey, secret))
      ensures r.Some? ==> r == Some(ServerM2(Proof2(setting, ctlPubkey, msg.m1, secret)))
      ensures r.Some? ==> Agreed(sock, old(sock.nextWriteSpec), old(sock.nextReadSpec), setting, secret, ctlRandom, agentRandom, block)
      ensures r.Some? ==> sock.outgoing == old(sock.outgoing) + SwitchFrame(sock.crypto, old(sock.currentWriteSpec), iv)
      ensures sock.currentReadSpec == old(sock.currentReadSpec)
      ensures r.None? ==> unchanged(sock)
    {
      block := [];
      if !msg.ClientM1? { return None, []; }
      var srvM1 := setting.hash(ctlPubkey + srvPubkey + secret);
      if msg.m1 != srvM1 { return None, []; }
      var srvM2 := setting.hash(ctlPubkey + srvM1 + secret);
      block := Finish(sock, setting, secret, ctlRandom, agentRandom, iv, size);
      r := Some(ServerM2(srvM2));
    }
  }

  /** The end has derived the keys of `block` from the secret and writes with its own half of them. */
  ghost predicate Agreed(sock: Socket, nextWrite: Spec, nextRead: Spec, st: Setting, secret: Bytes,
                         ctlRandom: Bytes, agentRandom: Bytes, block: Bytes)
    reads sock
  {
    && IsPHash(sock.crypto.mac, st.hash(secret), MASTER_SECRET + (ctlRandom + agentRandom), MASTER_SIZE, sock.masterSecret)
    && |block| == 2 * AES_KEYSIZE + 2 * MAC_KEYSIZE
    && IsPHash(sock.crypto.mac, sock.masterSecret, KEY_EXPANSION + (agentRandom + ctlRandom), |block|, block)
    && sock.Writer() == End(InstallWrite(sock.role, KeysOf(block), nextWrite), BLANK)
    && sock.nextReadSpec == InstallRead(sock.role, KeysOf(block), nextRead)
  }

  /** Two byte strings of one length that are P_hash outputs of the same inputs are equal. */
  lemma SamePHash(mac: Mac, size: nat, secret: Bytes, seed: Bytes, length: nat, r1: Bytes, r2: Bytes)
    requires FixedSize(mac, size)
    requires IsPHash(mac, secret, seed, length, r1) && IsPHash(mac, secret, seed, length, r2)
    ensures r1 == r2
  {
    PrefixStable(mac, size, secret, seed, length, r1, length, r2);
  }

  /** A number below the modulus survives the trip as bytes. */
  lemma WideRoundTrip(st: Setting, n: int)
    requires ValidSetting(st) && 0 <= n < st.group.p
    ensures |Wide(st, n)| == st.pSize && Value(Wide(st, n)) == n && n % st.group.p == n
  {
    ValueToBytes(n, st.pSize);
    QuotientUnique(n, 0, n, st.group.p);
  }

  /** Both ends' public values, for a password both know. */
  ghost function PublicA(st: Setting, a: nat): int
    requires ValidSetting(st)
  {
    ClientPublic(st.group, a)
  }

  ghost function PublicB(st: Setting, salt: Bytes, password: Bytes, b: nat): int
    requires ValidSetting(st)
  {
    ServerPublic(st.group, Multiplier(st), Verifier(st.group, PasswordHash(st, salt, USERNAME, password)), b)
  }

  /** The secrets that the two ends derive from each other's public bytes are the same. */
  lemma SecretBytesAgree(st: Setting, x: nat, a: nat, b: nat, ctlPubkey: Bytes, srvPubkey: Bytes)
    requires ValidSetting(st)
    requires ctlPubkey == Wide(st, ClientPublic(st.group, a))
    requires srvPubkey == Wide(st, ServerPublic(st.group, Multiplier(st), Verifier(st.group, x), b))
    ensures Value(ctlPubkey) == ClientPublic(st.group, a)
    ensures Value(srvPubkey) == ServerPublic(st.group, Multiplier(st), Verifier(st.group, x), b)
    ensures var u := Scrambler(st, ctlPubkey, srvPubkey);
            Wide(st, ClientSecret(st.group, Multiplier(st), x, a, u, Value(srvPubkey))) ==
            Wide(st, ServerSecret(st.group, Verifier(st.group, x), b, u, Value(ctlPubkey)))
  {
    WideRoundTrip(st, ClientPublic(st.group, a));
    WideRoundTrip(st, ServerPublic(st.group, Multiplier(st), Verifier(st.group, x), b));
    SecretsAgree(st.group, Multiplier(st), x, a, b, Scrambler(st, ctlPubkey, srvPubkey));
  }

  /** Ends that agreed on one secret have one master secret, and what one writes with the other will read with. */
  ghost predicate Mirrored(ctl: Socket, agent: Socket)
    reads ctl, agent
  {
    && ctl.masterSecret == agent.masterSecret
    && ctl.currentWriteSpec == agent.nextReadSpec
    && agent.currentWriteSpec == ctl.nextReadSpec
  }

  /**
    Two ends have the same master secret exactly if they have the same secret and the same random values,
    and the same keys exactly then.
   */
  lemma KeysIff(one: Socket, two: Socket, st: Setting, secret: Bytes, secret': Bytes,
                ctlRandom: Bytes, agentRandom: Bytes, ctlRandom': Bytes, agentRandom': Bytes,
                block: Bytes, block': Bytes, next: Spec, next': Spec, size: nat)
    requires one.crypto == two.crypto && CollisionFree(st) && |ctlRandom| == |ctlRandom'| && |agentRandom| == |agentRandom'|
    requires FixedSize(one.crypto.mac, size) && Injective(one.crypto.mac) && size <= MASTER_SIZE
    requires Agreed(one, next, next, st, secret, ctlRandom, agentRandom, block)
    requires Agreed(two, next', next', st, secret', ctlRandom', agentRandom', block')
    ensures one.masterSecret == two.masterSecret <==> secret == secret' && ctlRandom == ctlRandom' && agentRandom == agentRandom'
    ensures block == block' <==> one.masterSecret == two.masterSecret
  {
    var mac := one.crypto.mac;
    var (seed, seed') := (MASTER_SECRET + (ctlRandom + agentRandom), MASTER_SECRET + (ctlRandom' + agentRandom'));
    var (keySeed, keySeed') := (KEY_EXPANSION + (agentRandom + ctlRandom), KEY_EXPANSION + (agentRandom' + ctlRandom'));
    assert |one.masterSecret| == |two.masterSecret| == MASTER_SIZE;
    PHashIff(mac, size, st.hash(secret), seed, st.hash(secret'), seed', MASTER_SIZE, one.masterSecret, two.masterSecret);
    PHashIff(mac, size, one.masterSecret, keySeed, two.masterSecret, keySeed', |block|, block, block');
    hide IsPHash, Injective, FixedSize;
    SameSeeds(MASTER_SECRET, ctlRandom, agentRandom, ctlRandom', agentRandom');
    SameSeeds(KEY_EXPANSION, agentRandom, ctlRandom, agentRandom', ctlRandom');
  }

  lemma SameSeeds(prefix: Bytes, a: Bytes, b: Bytes, a': Bytes, b': Bytes)
    requires |a| == |a'| && |b| == |b'|
    ensures prefix + (a + b) == prefix + (a' + b') <==> a == a' && b == b'
  {
    if prefix + (a + b) == prefix + (a' + b') {
      assert prefix + (a + b) == prefix + a + b && prefix + (a' + b') == prefix + a' + b';
      ThreeParts(prefix, a, b, prefix, a', b');
    }
  }

  lemma AgreedMirrors(ctl: Socket, agent: Socket, st: Setting, secret: Bytes, ctlRandom: Bytes, agentRandom: Bytes,
                      ctlBlock: Bytes, agentBlock: Bytes, size: nat)
    requires ctl.crypto == agent.crypto && ctl.role == Client && agent.role == Server
    requires FixedSize(ctl.crypto.mac, size)
    requires Agreed(ctl, BLANK, BLANK, st, secret, ctlRandom, agentRandom, ctlBlock)
    requires Agreed(agent, BLANK, BLANK, st, secret, ctlRandom, agentRandom, agentBlock)
    ensures Mirrored(ctl, agent) && ctlBlock == agentBlock
  {
    hide IsPHash;
    SamePHash(ctl.crypto.mac, size, st.hash(secret), MASTER_SECRET + (ctlRandom + agentRandom), MASTER_SIZE,
              ctl.masterSecret, agent.masterSecret);
    SamePHash(ctl.crypto.mac, size, ctl.masterSecret, KEY_EXPANSION + (agentRandom + ctlRandom), |ctlBlock|, ctlBlock, agentBlock);
  }

  /** The secret that a client with `password` derives against a server that knows `known`. */
  ghost function CtlSecret(st: Setting, salt: Bytes, password: Bytes, known: Bytes, a: nat, b: nat): Bytes
    requires ValidSetting(st)
  {
    var B := PublicB(st, salt, known, b);
    var u := Scrambler(st, Wide(st, PublicA(st, a)), Wide(st, B));
    Wide(st, ClientSecret(st.group, Multiplier(st), PasswordHash(st, salt, USERNAME, password), a, u, B))
  }

  /** The secret that the server derives. */
  ghost function AgentSecret(st: Setting, salt: Bytes, known: Bytes, a: nat, b: nat): Bytes
    requires ValidSetting(st)
  {
    var A := PublicA(st, a);
    var u := Scrambler(st, Wide(st, A), Wide(st, PublicB(st, salt, known, b)));
    Wide(st, ServerSecret(st.group, Verifier(st.group, PasswordHash(st, salt, USERNAME, known)), b, u, A))
  }

  /** Equal passwords lead to equal secrets. */
  lemma SamePasswordSameSecret(st: Setting, salt: Bytes, password: Bytes, a: nat, b: nat)
    requires ValidSetting(st)
    ensures CtlSecret(st, salt, password, password, a, b) == AgentSecret(st, salt, password, a, b)
  {
    hide ClientPublic, ServerPublic, Verifier, ClientSecret, ServerSecret, Wide;
    SecretBytesAgree(st, PasswordHash(st, salt, USERNAME, password), a, b,
                     Wide(st, PublicA(st, a)), Wide(st, PublicB(st, salt, password, b)));
  }

  /** The messages up to the first proof, whatever passwords the ends have: whether they were all exchanged, and the secrets then. */
  method ExchangePublics(ctl: CtlSecSocket, agent: AgentSecSocket, salt: Bytes, a: nat, b: nat) returns (m1: Option<HandshakeMsg>)
    requires ctl.setting == agent.setting && ValidSetting(ctl.setting)
    modifies ctl, agent
    ensures m1.Some? <==> PublicA(ctl.setting, a) != 0 && PublicB(ctl.setting, salt, agent.password, b) != 0
    ensures m1.Some? ==> ctl.ctlPubkey == agent.ctlPubkey && m1 == Some(ClientM1(ctl.m1))
    ensures m1.Some? ==> ctl.m1 == Proof1(agent.setting, agent.ctlPubkey, agent.srvPubkey, ctl.secret)
    ensures m1.Some? ==> ctl.secret == CtlSecret(ctl.setting, salt, ctl.password, agent.password, a, b)
    ensures m1.Some? ==> agent.secret == AgentSecret(ctl.setting, salt, agent.password, a, b)
  {
    hide Pow, ClientSecret, ServerSecret, Wide;
    var st := ctl.setting;
    var r1 := agent.OnBegin(ClientBegin(USERNAME), salt);
    var r2 := ctl.OnSalt(r1.value, a);
    WideRoundTrip(st, PublicA(st, a));
    var r3 := agent.OnClientPub(r2.value, b);
    if r3.None? { return None; }
    WideRoundTrip(st, PublicB(st, salt, agent.password, b));
    m1 := ctl.OnServerPub(r3.value);
  }

  /**
    The proofs prove something: whatever passwords the ends have, the agent accepts exactly when both
    derive the same secret. If it does not, neither end switches to new keys or sends anything, and if it
    does, so does the controller.
   */
  method Attempt(ctl: CtlSecSocket, agent: AgentSecSocket, salt: Bytes, a: nat, b: nat, iv1: Bytes, iv2: Bytes, ghost size: nat)
    returns (accepted: bool, done: bool)
    requires ctl.setting == agent.setting && ValidSetting(ctl.setting) && CollisionFree(ctl.setting)
    requires ctl.sock != agent.sock && FixedSize(ctl.sock.crypto.mac, size) && FixedSize(agent.sock.crypto.mac, size)
    modifies ctl, agent, ctl.sock, agent.sock
    ensures accepted <==>
              && PublicA(ctl.setting, a) != 0 && PublicB(ctl.setting, salt, agent.password, b) != 0
              && CtlSecret(ctl.setting, salt, ctl.password, agent.password, a, b) == AgentSecret(ctl.setting, salt, agent.password, a, b)
    ensures done == accepted
    ensures !accepted ==> unchanged(ctl.sock) && unchanged(agent.sock)
  {
    hide FixedSize, IsPHash, Wide, ClientSecret, ServerSecret, CollisionFree, Agreed, CtlSecret, AgentSecret;
    var m1 := ExchangePublics(ctl, agent, salt, a, b);
    if m1.None? { return false, false; }
    Proof1Iff(ctl.setting, agent.ctlPubkey, agent.srvPubkey, ctl.secret, agent.ctlPubkey, agent.srvPubkey, agent.secret);
    var m2, agentBlock := agent.OnM1(m1.value, iv2, size);
    if m2.None? { return false, false; }
    ghost var ctlBlock;
    done, ctlBlock := ctl.OnM2(m2.value, iv1, size);
    accepted := true;
  }

  /**
    The whole handshake between ends that know the same password. It succeeds unless a public value
    is zero modulo the group's modulus, and then the ends share the master secret and mirror each
    other's keys.
   */
  method Handshake(ctl: CtlSecSocket, agent: AgentSecSocket, salt: Bytes, a: nat, b: nat, iv1: Bytes, iv2: Bytes, ghost size: nat)
    returns (ok: bool)
    requires ctl.setting == agent.setting && ValidSetting(ctl.setting) && ctl.password == agent.password
    requires ctl.ctlRandom == agent.ctlRandom && ctl.agentRandom == agent.agentRandom
    requires ctl.sock != agent.sock && ctl.sock.crypto == agent.sock.crypto && FixedSize(ctl.sock.crypto.mac, size)
    requires ctl.sock.role == Client && agent.sock.role == Server
    requires ctl.sock.nextWriteSpec == ctl.sock.nextReadSpec == agent.sock.nextWriteSpec == agent.sock.nextReadSpec == BLANK
    modifies ctl, agent, ctl.sock, agent.sock
    ensures ok <==> PublicA(ctl.setting, a) != 0 && PublicB(ctl.setting, salt, ctl.password, b) != 0
    ensures ok ==> Mirrored(ctl.sock, agent.sock)
    ensures ctl.sock.currentReadSpec == old(ctl.sock.currentReadSpec) && agent.sock.currentReadSpec == old(agent.sock.currentReadSpec)
  {
    hide FixedSize, IsPHash, CtlSecret, AgentSecret;
    SamePasswordSameSecret(ctl.setting, salt, ctl.password, a, b);
    var m1 := ExchangePublics(ctl, agent, salt, a, b);
    if m1.None? { return false; }
    var m2, agentBlock := agent.OnM1(m1.value, iv2, size);
    var done, ctlBlock := ctl.OnM2(m2.value, iv1, size);
    AgreedMirrors(ctl.sock, agent.sock, ctl.setting, ctl.secret, ctl.ctlRandom, ctl.agentRandom, ctlBlock, agentBlock, size);
    ok := done;
  }

  /** With the generator two and an odd modulus the client's public value is never zero. */
  lemma ClientPublicNotZero(st: Setting, a: nat)
    requires ValidSetting(st) && st.group.g == 2 && st.group.p % 2 == 1
    ensures PublicA(st, a) != 0
  {
    PowTwoNotZero(a, st.group.p);
  }

  /** Reading the peer's switch frame after the handshake brings the reader to the writer's new keys. */
  lemma SwitchFrameCompletes(c: Crypto, reader: End, before: Spec, writerCur: Spec, iv: Bytes, rest: Bytes)
    requires Honest(c) && reader.cur == before && reader.next == writerCur
    ensures ReadMessage(c, reader, SwitchFrame(c, before, iv) + rest) ==
            ReadMessage(c, End(writerCur, BLANK), rest)
  {
    ReadNextFrame(c, reader, Item(Protect(c, before, c.switchMsg, iv), c.switchMsg, iv, before, writerCur), rest);
  }
}

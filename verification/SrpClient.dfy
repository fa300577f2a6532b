/**
 The client of Cognito's SRP exchange (section 2.6 of RFC 5054, with Cognito's key derivation and signature), written on
 bytes from the server's challenge and the user's password, and its meeting with the server of internal/cognito/srp.go.
 */
module SrpClient {
  import opened Modular
  import opened Srp
  import opened Wrappers

  // ---------------------------------------------------------------- numbers as bytes

  /** The big-endian bytes of a number, without leading zeros. */
  function ToBytes(n: nat): (b: Bytes)
    ensures BytesVal(b) == n && (b != [] ==> b[0] != 0)
  {
    if n == 0 then [] else
      var rest := ToBytes(n / 256);
      assert (rest + [n % 256])[..|rest|] == rest;
      assert rest == [] ==> n / 256 == 0;
      rest + [n % 256]
  }

  /** The bytes of a number as a non-negative two's complement integer: at least one byte, the top bit clear. */
  function Padded(n: nat): Bytes {
    var b := ToBytes(n);
    if b == [] || b[0] >= 128 then [0] + b else b
  }

  lemma {:induction false} ToBytesUnique(b: Bytes)
    requires b != [] ==> b[0] != 0
    ensures ToBytes(BytesVal(b)) == b
  {
    if b != [] {
      var m := |b| - 1;
      ToBytesUnique(b[..m]);
      NotZero(b);
      assert BytesVal(b) / 256 == BytesVal(b[..m]) && BytesVal(b) % 256 == b[m];
      assert b == b[..m] + [b[m]];
    }
  }

  lemma {:induction false} NotZero(b: Bytes)
    requires b != [] && b[0] != 0
    ensures BytesVal(b) > 0
  {
    if |b| > 1 {
      NotZero(b[..|b| - 1]);
    }
  }

  lemma {:induction false} LeadingZero(b: Bytes)
    ensures BytesVal([0] + b) == BytesVal(b)
  {
    var z: Bytes := [0] + b;
    if b == [] {
      assert z[..0] == [];
    } else {
      LeadingZero(b[..|b| - 1]);
      assert z[..|z| - 1] == [0] + b[..|b| - 1];
    }
  }

  lemma PaddedValue(n: nat)
    ensures BytesVal(Padded(n)) == n
  {
    LeadingZero(ToBytes(n));
  }

  /** The server's hexadecimal encoding decodes to these bytes. */
  lemma PadHexIsPadded(n: nat)
    ensures Decode(PadHex(n)) == Some(Padded(n))
  {
    hide PadHex, Decode, BytesVal, ToBytes;
    PadHexDecodes(n);
    PadHexShortest(n);
    var b := Decode(PadHex(n)).value;
    if b[0] == 0 {
      var rest := b[1..];
      assert b == [0] + rest && (rest != [] ==> rest[0] == b[1]);
      LeadingZero(rest);
      ToBytesUnique(rest);
    } else {
      ToBytesUnique(b);
    }
  }

  // ---------------------------------------------------------------- the client

  /** What the client puts together: the pool's name, the user, the secret block it was sent and the time. */
  function Message(poolName: Bytes, userID: Bytes, block: Bytes, timestamp: Bytes): Bytes {
    poolName + userID + block + timestamp
  }

  function ClientScrambler(c: Crypto, a: nat, b: nat): nat { BytesVal(c.sha256(Padded(a) + Padded(b))) }

  /** The private key, from the salt it was sent and its own password. */
  function ClientX(c: Crypto, poolName: Bytes, userID: Bytes, password: Bytes, salt: nat): nat {
    BytesVal(c.sha256(Padded(salt) + c.sha256(poolName + userID + [':' as int] + password)))
  }

  /** The signing key, from the shared secret and u. */
  function SigningKey(c: Crypto, secret: nat, u: nat): Bytes { c.hkdf(Padded(secret), Padded(u)) }

  /** The client's private value, and what it knows of pool and user. */
  datatype Client = Client(poolName: Bytes, userID: Bytes, password: Bytes, a: nat)

  /** The A it sends. */
  function PublicA(p: Params, c: Client): nat
    requires ValidParams(p)
  {
    Exp(p.g, c.a, p.n)
  }

  /** The signature it answers a challenge of salt, B and secret block with. */
  function Respond(p: Params, c: Client, salt: nat, serverB: nat, block: Bytes, timestamp: Bytes): Bytes
    requires ValidParams(p)
  {
    var u := ClientScrambler(p.crypto, PublicA(p, c), serverB);
    var x := ClientX(p.crypto, c.poolName, c.userID, c.password, salt);
    p.crypto.hmac(SigningKey(p.crypto, ClientSecret(p, serverB, c.a, u, x), u),
                  Message(c.poolName, c.userID, block, timestamp))
  }

  // ---------------------------------------------------------------- the two sides meet

  lemma {:induction false} PoolNameIs(region: Bytes, name: Bytes)
    requires '_' as int !in region
    ensures PoolName(region + ['_' as int] + name) == name
  {
    var id := region + ['_' as int] + name;
    if region == [] {
      assert id[1..] == name;
    } else {
      assert id[0] == region[0] && id[1..] == region[1..] + ['_' as int] + name;
      PoolNameIs(region[1..], name);
    }
  }

  lemma ScramblersAgree(p: Params, a: nat, b: nat)
    ensures Scrambler(p, a, b) == ClientScrambler(p.crypto, a, b)
  {
    hide PadHex, Decode, Padded, BytesVal;
    PadHexIsPadded(a);
    PadHexIsPadded(b);
    HexHashOfPair(p.crypto, a, b);
  }

  lemma PrivateKeysAgree(p: Params, poolID: Bytes, userID: Bytes, password: Bytes, salt: nat)
    ensures SrpX(p, poolID, userID, password, salt) == ClientX(p.crypto, PoolName(poolID), userID, password, salt)
  {
    hide PadHex, Decode, Padded, BytesVal, PoolName, SrpX;
    PadHexIsPadded(salt);
    SrpXInput(p, poolID, userID, password, salt);
  }

  lemma SignatureIs(p: Params, s: nat, u: nat, poolID: Bytes, userID: Bytes, block: Bytes, timestamp: Bytes)
    ensures Signature(p, s, u, poolID, userID, block, timestamp) ==
            p.crypto.hmac(SigningKey(p.crypto, s, u), Message(PoolName(poolID), userID, block, timestamp))
  {
    hide PadHex, Decode, DecodedPrefix, Padded, PoolName;
    PadHexIsPadded(s);
    PadHexIsPadded(u);
    DecodesExactly(PadHex(s));
    DecodesExactly(PadHex(u));
  }

  /** The server's half after a client's A, for the verifier stored for a password. */
  function Exchange(p: Params, c: Client, poolID: Bytes, password: Bytes, salt: nat, b: nat, block: Bytes): Option<ServerState>
    requires ValidParams(p)
  {
    var (saltHex, verifierHex) := NewVerifier(p, poolID, c.userID, password, salt);
    StartSRP(p, Text(PublicA(p, c)), saltHex, verifierHex, b, block)
  }

  lemma ExchangeState(p: Params, c: Client, poolID: Bytes, password: Bytes, salt: nat, b: nat, block: Bytes)
    requires ValidParams(p) && Exchange(p, c, poolID, password, salt, b, block).Some?
    ensures var st := Exchange(p, c, poolID, password, salt, b, block).value;
      var v := Exp(p.g, SrpX(p, poolID, c.userID, password, salt), p.n);
      st == ServerState(PublicA(p, c), (Exp(p.g, b, p.n) + p.k * v) % p.n, b, salt, v, block)
  {
    hide Text, Parse, Exp, SrpX;
    TextParses(PublicA(p, c));
    TextParses(salt);
    TextParses(Exp(p.g, SrpX(p, poolID, c.userID, password, salt), p.n));
  }

  /** A client that knows the password and answers the challenge it was sent is accepted, unless u is zero. */
  lemma HonestResponsePasses(
    p: Params, c: Client, region: Bytes, salt: nat, b: nat, block: Bytes, timestamp: Bytes)
    requires ValidParams(p) && '_' as int !in region
    requires Exchange(p, c, region + ['_' as int] + c.poolName, c.password, salt, b, block).Some?
    ensures var poolID := region + ['_' as int] + c.poolName;
      var st := Exchange(p, c, poolID, c.password, salt, b, block).value;
      Verify(p, st, poolID, c.userID, block, timestamp, Respond(p, c, salt, st.b, block, timestamp)) <==>
      ClientScrambler(p.crypto, PublicA(p, c), st.b) != 0
  {
    hide Exp, Pow, Scrambler, ClientScrambler, SrpX, ClientX, Signature, SigningKey, ClientSecret, PoolName, Message, Exchange;
    var poolID := region + ['_' as int] + c.poolName;
    PoolNameIs(region, c.poolName);
    ExchangeState(p, c, poolID, c.password, salt, b, block);
    var st := Exchange(p, c, poolID, c.password, salt, b, block).value;
    var u, x := ClientScrambler(p.crypto, st.a, st.b), SrpX(p, poolID, c.userID, c.password, salt);
    ScramblersAgree(p, st.a, st.b);
    PrivateKeysAgree(p, poolID, c.userID, c.password, salt);
    SecretsAgree(p, x, c.a, b, u);
    SignatureIs(p, ServerSecret(p, st, u), u, poolID, c.userID, block, timestamp);
  }

  // ---------------------------------------------------------------- what a signature binds

  /** HKDF gives keys of 16 bytes, under which HMAC has no collisions. */
  ghost predicate Binding(c: Crypto) {
    (forall secret, salt :: |c.hkdf(secret, salt)| == 16) &&
    forall k, m, k', m' :: |k| == |k'| == 16 && c.hmac(k, m) == c.hmac(k', m') ==> k == k' && m == m'
  }

  /** Different secrets of the group give different keys. */
  ghost predicate KeysBind(p: Params) {
    forall a: nat, b: nat, u: nat ::
      a < p.n && b < p.n && SigningKey(p.crypto, a, u) == SigningKey(p.crypto, b, u) ==> a == b
  }

  /** A signature over another message than the server's own is refused, whatever secret and u it was made with. */
  lemma OtherMessageRefused(
    p: Params, st: ServerState, poolID: Bytes, userID: Bytes, block: Bytes, timestamp: Bytes,
    secret: nat, u: nat, message: Bytes)
    requires ValidParams(p) && Binding(p.crypto) && message != PoolName(poolID) + userID + block + timestamp
    ensures !Verify(p, st, poolID, userID, block, timestamp, p.crypto.hmac(SigningKey(p.crypto, secret, u), message))
  {
    hide Scrambler, Signature, ServerSecret, PoolName, Padded;
    var w := Scrambler(p, st.a, st.b);
    SignatureIs(p, ServerSecret(p, st, w), w, poolID, userID, block, timestamp);
  }

  /**
   Of the signatures made with the exchange's u, exactly those over the server's secret and message are accepted, if the
   block is the one it sent and u is not zero.
   */
  lemma SignatureBinds(
    p: Params, st: ServerState, poolID: Bytes, userID: Bytes, block: Bytes, timestamp: Bytes, secret: nat, message: Bytes)
    requires ValidParams(p) && st.a >= 0 && Binding(p.crypto) && KeysBind(p) && secret < p.n
    ensures var u := ClientScrambler(p.crypto, st.a, st.b);
      Verify(p, st, poolID, userID, block, timestamp, p.crypto.hmac(SigningKey(p.crypto, secret, u), message)) <==>
      block == st.block && u != 0 && secret == ServerSecret(p, st, u) &&
      message == PoolName(poolID) + userID + block + timestamp
  {
    hide Scrambler, ClientScrambler, Signature, ServerSecret, PoolName, Padded;
    ScramblersAgree(p, st.a, st.b);
    var w := Scrambler(p, st.a, st.b);
    SignatureIs(p, ServerSecret(p, st, w), w, poolID, userID, block, timestamp);
    SecretInGroup(p, st, w);
  }

  lemma SecretInGroup(p: Params, st: ServerState, u: nat)
    requires ValidParams(p)
    ensures ServerSecret(p, st, u) < p.n
  {
    hide Pow;
  }

  /** A client's response for another pool, user, block or time is refused. */
  lemma OtherResponseRefused(
    p: Params, st: ServerState, poolID: Bytes, userID: Bytes, block: Bytes, timestamp: Bytes,
    c: Client, salt: nat, otherBlock: Bytes, otherTime: Bytes)
    requires ValidParams(p) && Binding(p.crypto)
    requires c.poolName + c.userID + otherBlock + otherTime != PoolName(poolID) + userID + block + timestamp
    ensures !Verify(p, st, poolID, userID, block, timestamp, Respond(p, c, salt, st.b, otherBlock, otherTime))
  {
    hide Verify, ClientScrambler, ClientX, ClientSecret, PoolName, SigningKey;
    var u := ClientScrambler(p.crypto, PublicA(p, c), st.b);
    var x := ClientX(p.crypto, c.poolName, c.userID, c.password, salt);
    OtherMessageRefused(p, st, poolID, userID, block, timestamp, ClientSecret(p, st.b, c.a, u, x), u,
                        Message(c.poolName, c.userID, otherBlock, otherTime));
  }
}

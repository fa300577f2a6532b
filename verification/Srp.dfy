/**
 Cognito's SRP-6a exchange (internal/cognito/srp.go), section 2.6 of RFC 5054: the hexadecimal
 encoding that is hashed, and the agreement of server and client on one secret.

 SHA-256, HKDF and HMAC are arbitrary functions; random numbers are parameters.
 */
module Srp {
  import opened Wrappers
  import opened Modular

  type Byte = x: int | 0 <= x < 256

  type Bytes = seq<Byte>

  // ---------------------------------------------------------------- hexadecimal

  function HexChar(d: nat): char
    requires d < 16
  {
    if d < 10 then ('0' as int + d) as char else ('a' as int + d - 10) as char
  }

  predicate IsHex(c: char) { '0' <= c <= '9' || 'a' <= c <= 'f' || 'A' <= c <= 'F' }

  function HexDigit(c: char): (d: nat)
    requires IsHex(c)
    ensures d < 16
  {
    if '0' <= c <= '9' then c as int - '0' as int
    else if 'a' <= c <= 'f' then c as int - 'a' as int + 10
    else c as int - 'A' as int + 10
  }

  predicate AllHex(s: string) { forall i :: 0 <= i < |s| ==> IsHex(s[i]) }

  /** The number a run of hexadecimal digits denotes. */
  function HexVal(s: string): nat
    requires AllHex(s)
  {
    if s == "" then 0 else 16 * HexVal(s[..|s| - 1]) + HexDigit(s[|s| - 1])
  }

  function HexText(n: nat): (s: string)
    ensures AllHex(s) && HexVal(s) == n && (s != "" ==> s[0] != '0') && (n == 0 <==> s == "")
    ensures forall i :: 0 <= i < |s| ==> !('A' <= s[i] <= 'F')
  {
    if n == 0 then "" else
      assert HexDigit(HexChar(n % 16)) == n % 16;
      HexText(n / 16) + [HexChar(n % 16)]
  }

  /** big.Int.Text(16). */
  function Text(n: int): string {
    if n == 0 then "0" else if n < 0 then "-" + HexText(-n) else HexText(n)
  }

  /** big.Int.SetString(s, 16). */
  function Parse(s: string): Option<int> {
    var digits := if s != "" && (s[0] == '-' || s[0] == '+') then s[1..] else s;
    if digits == "" || !AllHex(digits) then None
    else
      var v: int := HexVal(digits);
      if s[0] == '-' then Some(-v) else Some(v)
  }

  /** What is stored as text is read back as the same number. */
  lemma TextParses(n: int)
    ensures Parse(Text(n)) == Some(n)
  {
    hide HexText, HexVal, AllHex, Parse;
    if n == 0 {
      ParsesZero();
    } else {
      ParsesDigits(HexText(if n < 0 then -n else n));
    }
  }

  lemma ParsesZero()
    ensures Parse("0") == Some(0)
  {
    assert "0"[..0] == "";
  }

  lemma ParsesDigits(digits: string)
    requires digits != "" && AllHex(digits)
    ensures var v: int := HexVal(digits); Parse(digits) == Some(v) && Parse("-" + digits) == Some(-v)
  {
    hide HexVal;
    assert IsHex(digits[0]);
    assert ("-" + digits)[1..] == digits;
  }

  predicate TopBit(c: char) {
    c == '8' || c == '9' || c == 'a' || c == 'b' || c == 'c' || c == 'd' || c == 'e' || c == 'f'
  }

  /** padHex. */
  function PadHex(n: int): string {
    var s := Text(n);
    var even := if |s| % 2 == 1 then "0" + s else s;
    if TopBit(even[0]) then "00" + even else even
  }

  function ByteOf(hi: char, lo: char): Byte
    requires IsHex(hi) && IsHex(lo)
  {
    16 * HexDigit(hi) + HexDigit(lo)
  }

  /** hex.DecodeString: None for an odd length or a character that is not a digit. */
  function Decode(s: string): Option<Bytes> {
    if s == "" then Some([])
    else if |s| == 1 || !IsHex(s[0]) || !IsHex(s[1]) then None
    else
      var rest := Decode(s[2..]);
      if rest.None? then None else Some([ByteOf(s[0], s[1])] + rest.value)
  }

  /** The bytes hex.DecodeString returns, up to the first character it cannot read. */
  function DecodedPrefix(s: string): Bytes {
    if |s| < 2 || !IsHex(s[0]) || !IsHex(s[1]) then [] else [ByteOf(s[0], s[1])] + DecodedPrefix(s[2..])
  }

  /** big.Int.SetBytes. */
  function BytesVal(b: Bytes): nat {
    if b == [] then 0 else 256 * BytesVal(b[..|b| - 1]) + b[|b| - 1]
  }

  lemma {:induction false} DecodesExactly(s: string)
    ensures Decode(s).Some? <==> |s| % 2 == 0 && AllHex(s)
    ensures Decode(s).Some? ==> DecodedPrefix(s) == Decode(s).value && |Decode(s).value| == |s| / 2
  {
    if |s| >= 2 {
      DecodesExactly(s[2..]);
      assert forall i :: 0 <= i < |s[2..]| ==> s[2..][i] == s[i + 2];
      if Decode(s).Some? {
        assert forall i :: 2 <= i < |s| ==> s[2..][i - 2] == s[i];
      }
    }
  }

  lemma {:induction false} DecodeConcat(a: string, b: string)
    requires Decode(a).Some?
    ensures Decode(a + b) == if Decode(b).None? then None else Some(Decode(a).value + Decode(b).value)
  {
    hide IsHex, ByteOf;
    if a == "" {
      assert a + b == b;
      assert Decode(b).Some? ==> [] + Decode(b).value == Decode(b).value;
    } else {
      DecodeConcat(a[2..], b);
      assert (a + b)[2..] == a[2..] + b;
      assert (a + b)[0] == a[0] && (a + b)[1] == a[1];
      var x := ByteOf(a[0], a[1]);
      assert Decode(b).Some? ==> [x] + (Decode(a[2..]).value + Decode(b).value) == Decode(a).value + Decode(b).value;
    }
  }

  lemma {:induction false} DecodeLast(s: string)
    requires Decode(s).Some? && s != ""
    ensures |s| >= 2 && IsHex(s[|s| - 2]) && IsHex(s[|s| - 1]) && Decode(s[..|s| - 2]).Some?
    ensures Decode(s).value == Decode(s[..|s| - 2]).value + [ByteOf(s[|s| - 2], s[|s| - 1])]
  {
    DecodesExactly(s);
    var a, b := s[..|s| - 2], s[|s| - 2..];
    DecodesExactly(a);
    DecodesExactly(b);
    DecodeConcat(a, b);
    assert a + b == s;
    assert b[2..] == "" && Decode("") == Some([]);
    assert [ByteOf(b[0], b[1])] + [] == [ByteOf(b[0], b[1])];
  }

  /** Decoding pairs of digits keeps the number. */
  lemma {:induction false} DecodeValue(s: string)
    requires Decode(s).Some?
    ensures AllHex(s) && BytesVal(Decode(s).value) == HexVal(s)
  {
    DecodesExactly(s);
    if s != "" {
      DecodeLast(s);
      var m := |s| - 1;
      DecodeValue(s[..|s| - 2]);
      assert s[..m][..m - 1] == s[..|s| - 2];
      assert HexVal(s) == 16 * HexVal(s[..m]) + HexDigit(s[m]);
      assert HexVal(s[..m]) == 16 * HexVal(s[..|s| - 2]) + HexDigit(s[m - 1]);
      var b := Decode(s).value;
      assert b[..|b| - 1] == Decode(s[..|s| - 2]).value;
    }
  }

  lemma {:induction false} LeadingZeros(k: nat, s: string)
    requires AllHex(s)
    ensures AllHex(Zeros(k) + s) && HexVal(Zeros(k) + s) == HexVal(s)
  {
    var z := Zeros(k) + s;
    if s == "" {
      if k > 0 {
        LeadingZeros(k - 1, "");
        assert z[..|z| - 1] == Zeros(k - 1) + "";
      }
    } else {
      LeadingZeros(k, s[..|s| - 1]);
      assert z[..|z| - 1] == Zeros(k) + s[..|s| - 1];
    }
  }

  function Zeros(k: nat): (r: string)
    ensures |r| == k && forall i :: 0 <= i < k ==> r[i] == '0'
  {
    seq(k, _ => '0')
  }

  // -- The padded encoding.

  lemma TextOfNat(n: nat)
    ensures Text(n) != "" && AllHex(Text(n)) && HexVal(Text(n)) == n
    ensures forall i :: 0 <= i < |Text(n)| ==> !('A' <= Text(n)[i] <= 'F')
    ensures n > 0 ==> Text(n)[0] != '0'
  {
    if n == 0 {
      assert "0"[..0] == "";
    }
  }

  /** For a natural number the padding is at most two zeros before the digits. */
  lemma PadShape(n: nat) returns (k: nat)
    ensures k <= 2 && PadHex(n) == Zeros(k) + Text(n) && (k + |Text(n)|) % 2 == 0
    ensures PadHex(n) != "" && AllHex(Text(n)) && HexVal(Text(n)) == n && '0' <= PadHex(n)[0] <= '7'
  {
    hide Text, HexVal;
    TextOfNat(n);
    var s := Text(n);
    assert IsHex(s[0]);
    if |s| % 2 == 1 {
      k := 1;
      assert Zeros(1) == "0";
    } else if TopBit(s[0]) {
      k := 2;
      assert Zeros(2) == "00";
    } else {
      k := 0;
      assert Zeros(0) + s == s;
    }
  }

  /** padHex of a natural number decodes, to bytes that denote it as a non-negative two's complement number. */
  lemma PadHexDecodes(n: nat)
    ensures Decode(PadHex(n)).Some? && BytesVal(Decode(PadHex(n)).value) == n
    ensures Decode(PadHex(n)).value != [] && Decode(PadHex(n)).value[0] < 128
  {
    hide Text, PadHex, HexText, HexVal, Zeros;
    var k := PadShape(n);
    LeadingZeros(k, Text(n));
    DecodesExactly(PadHex(n));
    DecodeValue(PadHex(n));
    FirstByte(PadHex(n));
  }

  lemma FirstByte(s: string)
    requires Decode(s).Some? && s != "" && '0' <= s[0] <= '7'
    ensures Decode(s).value != [] && Decode(s).value[0] < 128
  {
  }

  /** The hashed encoding decodes exactly for the numbers that are not negative. */
  lemma PadHexDecodesExactly(n: int)
    ensures Decode(PadHex(n)).Some? <==> n >= 0
  {
    if n >= 0 {
      PadHexDecodes(n);
    } else {
      var s := Text(n);
      assert s[0] == '-' && !IsHex('-');
      DecodesExactly(PadHex(n));
      assert |s| % 2 == 1 ==> PadHex(n)[1] == '-';
    }
  }

  /** Different numbers have different encodings. */
  lemma PadHexInjective(m: nat, n: nat)
    requires PadHex(m) == PadHex(n)
    ensures m == n
  {
    PadHexDecodes(m);
    PadHexDecodes(n);
  }

  /** The encoding is the shortest one: no byte can be dropped from the front. */
  lemma PadHexShortest(n: nat)
    ensures Decode(PadHex(n)).Some?
    ensures var b := Decode(PadHex(n)).value; |b| > 1 && b[0] == 0 ==> b[1] >= 128
  {
    hide HexText, HexVal, BytesVal;
    PadHexDecodes(n);
    TextOfNat(n);
  }

  // ---------------------------------------------------------------- hashing

  /** The cryptographic primitives. */
  datatype Crypto = Crypto(sha256: Bytes -> Bytes, hkdf: (Bytes, Bytes) -> Bytes, hmac: (Bytes, Bytes) -> Bytes)

  /** hexHash. */
  function HexHash(c: Crypto, h: string): Bytes { c.sha256(DecodedPrefix(h)) }

  /** Two padded naturals are hashed as their encodings one after the other, none of it lost. */
  lemma HexHashOfPair(c: Crypto, m: nat, n: nat)
    ensures Decode(PadHex(m)).Some? && Decode(PadHex(n)).Some?
    ensures HexHash(c, PadHex(m) + PadHex(n)) == c.sha256(Decode(PadHex(m)).value + Decode(PadHex(n)).value)
  {
    hide PadHex, Decode, DecodedPrefix;
    PadHexDecodes(m);
    PadHexDecodes(n);
    DecodeConcat(PadHex(m), PadHex(n));
    DecodesExactly(PadHex(m) + PadHex(n));
  }

  /** The pair that gives u is hashed whole exactly when the client's A is not negative. */
  lemma PairDecodesExactly(a: int, b: nat)
    ensures Decode(PadHex(a) + PadHex(b)).Some? <==> a >= 0
  {
    hide PadHex, Decode;
    PadHexDecodesExactly(a);
    PadHexDecodes(b);
    DecodesExactly(PadHex(a));
    DecodesExactly(PadHex(b));
    DecodesExactly(PadHex(a) + PadHex(b));
    var s := PadHex(a) + PadHex(b);
    if a >= 0 {
      DecodeConcat(PadHex(a), PadHex(b));
    } else {
      NegativeText(a);
      var i :| 0 <= i < |PadHex(a)| && PadHex(a)[i] == '-';
      assert s[i] == '-' && !IsHex('-');
    }
  }

  /** A negative number keeps its sign in the encoding. */
  lemma NegativeText(n: int)
    requires n < 0
    ensures PadHex(n) != "" && exists i :: 0 <= i < |PadHex(n)| && PadHex(n)[i] == '-'
  {
    hide HexText;
    var s := Text(n);
    assert s[0] == '-';
    assert PadHex(n)[if |s| % 2 == 1 then 1 else 0] == '-';
  }

  // ---------------------------------------------------------------- the exchange

  /** The group, the multiplier k and the primitives of a pool's exchanges. */
  datatype Params = Params(n: nat, g: nat, k: nat, crypto: Crypto)

  ghost predicate ValidParams(p: Params) { p.n > 0 }

  /** poolName: the part of the pool ID after the first underscore. */
  function PoolName(poolID: Bytes): Bytes {
    if poolID == [] then [] else if poolID[0] == 95 then poolID[1..] else PoolName(poolID[1..])
  }

  /** hex.EncodeToString. */
  function Encode(b: Bytes): (s: string)
    ensures |s| == 2 * |b| && AllHex(s)
  {
    if b == [] then [] else
      var rest := Encode(b[1..]);
      [HexChar(b[0] / 16), HexChar(b[0] % 16)] + rest
  }

  /** srpX. */
  function SrpX(p: Params, poolID: Bytes, userID: Bytes, password: Bytes, salt: nat): nat {
    var inner := p.crypto.sha256(PoolName(poolID) + userID + [58] + password);
    BytesVal(HexHash(p.crypto, PadHex(salt) + Encode(inner)))
  }

  lemma {:induction false} EncodeDecodes(b: Bytes)
    ensures Decode(Encode(b)) == Some(b)
  {
    if b != [] {
      EncodeDecodes(b[1..]);
      var s := Encode(b);
      assert s[2..] == Encode(b[1..]);
      assert HexDigit(HexChar(b[0] / 16)) == b[0] / 16 && HexDigit(HexChar(b[0] % 16)) == b[0] % 16;
      assert ByteOf(s[0], s[1]) == b[0];
      assert [b[0]] + b[1..] == b;
    }
  }

  /** x is derived from the whole salt and the whole inner digest. */
  lemma SrpXInput(p: Params, poolID: Bytes, userID: Bytes, password: Bytes, salt: nat)
    ensures Decode(PadHex(salt)).Some?
    ensures var inner := p.crypto.sha256(PoolName(poolID) + userID + [58] + password);
      SrpX(p, poolID, userID, password, salt) == BytesVal(p.crypto.sha256(Decode(PadHex(salt)).value + inner))
  {
    hide PadHex, Decode, DecodedPrefix, Encode, BytesVal, PoolName;
    var inner := p.crypto.sha256(PoolName(poolID) + userID + [58] + password);
    PadHexDecodes(salt);
    EncodeDecodes(inner);
    DecodeConcat(PadHex(salt), Encode(inner));
    DecodesExactly(PadHex(salt) + Encode(inner));
  }

  /** newSRPVerifier: salt and verifier as stored text. */
  function NewVerifier(p: Params, poolID: Bytes, userID: Bytes, password: Bytes, salt: nat): (string, string)
    requires ValidParams(p)
  {
    (Text(salt), Text(Exp(p.g, SrpX(p, poolID, userID, password, salt), p.n)))
  }

  /** srpServerState. */
  datatype ServerState = ServerState(a: int, b: nat, secret: nat, salt: int, v: int, block: Bytes)

  /** startSRP: reject an A that is zero modulo the group, answer B = kv + g^b. */
  function StartSRP(p: Params, aHex: string, saltHex: string, verifierHex: string, b: nat, block: Bytes): Option<ServerState>
    requires ValidParams(p)
  {
    var a, salt, v := Parse(aHex), Parse(saltHex), Parse(verifierHex);
    if a.None? || a.value % p.n == 0 || salt.None? || v.None? then None
    else Some(ServerState(a.value, (Exp(p.g, b, p.n) + p.k * v.value) % p.n, b, salt.value, v.value, block))
  }

  /** u, which both sides derive from A and B. */
  function Scrambler(p: Params, a: int, b: nat): nat { BytesVal(HexHash(p.crypto, PadHex(a) + PadHex(b))) }

  /** srpKey and the signature over pool, user, secret block and time. */
  function Signature(p: Params, s: nat, u: nat, poolID: Bytes, userID: Bytes, block: Bytes, timestamp: Bytes): Bytes {
    var key := p.crypto.hkdf(DecodedPrefix(PadHex(s)), DecodedPrefix(PadHex(u)));
    p.crypto.hmac(key, PoolName(poolID) + userID + block + timestamp)
  }

  /** The server's secret, (A * v^u)^b mod N. */
  function ServerSecret(p: Params, st: ServerState, u: nat): nat
    requires ValidParams(p)
  {
    Exp(Exp(st.v, u, p.n) * st.a % p.n, st.secret, p.n)
  }

  /** verify. */
  predicate Verify(p: Params, st: ServerState, poolID: Bytes, userID: Bytes, block: Bytes, timestamp: Bytes, signature: Bytes)
    requires ValidParams(p)
  {
    var u := Scrambler(p, st.a, st.b);
    block == st.block && u != 0 &&
    signature == Signature(p, ServerSecret(p, st, u), u, poolID, userID, block, timestamp)
  }

  /** The client's secret, (B - k * g^x)^(a + u * x) mod N (section 2.6 of RFC 5054). */
  function ClientSecret(p: Params, serverB: nat, a: nat, u: nat, x: nat): nat
    requires ValidParams(p)
  {
    Exp((serverB - p.k * Exp(p.g, x, p.n)) % p.n, a + u * x, p.n)
  }

  // ---------------------------------------------------------------- agreement

  /** Both sides' bases are powers of g: (A * v^u) is congruent to g^(a + u * x). */
  lemma ServerBase(p: Params, x: nat, a: nat, u: nat)
    requires ValidParams(p)
    ensures u * x >= 0
    ensures Congruent(Exp(Exp(p.g, x, p.n), u, p.n) * Exp(p.g, a, p.n), Pow(p.g, a + u * x), p.n)
  {
    hide Pow;
    var g, n := p.g, p.n;
    var v := Exp(g, x, n);
    Reduce(Pow(g, x), n);
    CongruentPow(v, Pow(g, x), u, n);
    PowPow(g, x, u);
    Reduce(Pow(v, u), n);
    assert x * u == u * x;
    CongruentMul(Exp(v, u, n), Pow(g, u * x), Exp(g, a, n), n);
    Reduce(Pow(g, a), n);
    CongruentMul(Exp(g, a, n), Pow(g, a), Pow(g, u * x), n);
    PowAdd(g, a, u * x);
    Commute(Pow(g, u * x), Exp(g, a, n));
  }

  lemma Commute(a: int, b: int)
    ensures a * b == b * a
  {
  }

  /** B - k * g^x is congruent to g^b. */
  lemma ClientBase(p: Params, v: nat, b: nat)
    requires ValidParams(p)
    ensures Congruent((Exp(p.g, b, p.n) + p.k * v) % p.n - p.k * v, Pow(p.g, b), p.n)
  {
    hide Pow;
    var n, kv := p.n, p.k * v;
    Reduce(Exp(p.g, b, n) + kv, n);
    CongruentAdd((Exp(p.g, b, n) + kv) % n, Exp(p.g, b, n) + kv, -kv, n);
    Reduce(Pow(p.g, b), n);
  }

  /**
   For every modulus, generator, multiplier, private values and u, the server's secret is the
   client's (section 2.6 of RFC 5054).
   */
  lemma SecretsAgree(p: Params, x: nat, a: nat, b: nat, u: nat)
    requires ValidParams(p)
    ensures u * x >= 0
    ensures var v := Exp(p.g, x, p.n);
      var serverB := (Exp(p.g, b, p.n) + p.k * v) % p.n;
      Exp(Exp(v, u, p.n) * Exp(p.g, a, p.n) % p.n, b, p.n) == ClientSecret(p, serverB, a, u, x)
  {
    hide Pow;
    var n, g := p.n, p.g;
    var v := Exp(g, x, n);
    var e := a + u * x;
    assert u * x >= 0 by { ServerBase(p, x, a, u); }
    var base := Exp(v, u, n) * Exp(g, a, n);
    ServerBase(p, x, a, u);
    Reduce(base, n);
    CongruentPow(base % n, Pow(g, e), b, n);
    PowPow(g, e, b);
    var serverB := (Exp(g, b, n) + p.k * v) % n;
    ClientBase(p, v, b);
    Reduce(serverB - p.k * v, n);
    CongruentPow((serverB - p.k * v) % n, Pow(g, b), e, n);
    PowPow(g, b, e);
    Commute(e, b);
  }

  /** The exchange starts exactly when the client's A is not zero modulo the group. */
  lemma StartRejectsZero(p: Params, aHex: string, salt: nat, v: nat, b: nat, block: Bytes)
    requires ValidParams(p)
    ensures StartSRP(p, aHex, Text(salt), Text(v), b, block).Some? <==>
            Parse(aHex).Some? && !Congruent(Parse(aHex).value, 0, p.n)
  {
    hide Text, Parse;
    TextParses(salt);
    TextParses(v);
  }
}

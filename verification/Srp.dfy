/** The SRP client of Apple's GrandSlam variant, and its agreement with the server's equations (section 2.6 of
    RFC 5054). Hash and key derivation are parameters. */
module Srp {
  import opened Machine
  import opened Modular
  import opened Wire
  import opened Wrappers

  type Digest = d: Bytes | |d| == 32 witness seq(32, _ => 0)

  datatype Protocol = S2k | S2kFo | OtherProtocol

  /** SHA-256, PBKDF2 with HMAC-SHA-256, and the group. */
  datatype Crypto = Crypto(sha: Bytes -> Digest, pbkdf2: (Bytes, Bytes, nat) -> Digest, N: nat, g: nat)

  // ---- Encodings ----

  /** Group integers are hashed in 256 bytes, most significant first. */
  function Pad(n: nat): Bytes { Be(n, 256) }

  /** Padding a group integer loses nothing. */
  lemma PaddedNumber(n: nat)
    requires n < Pow256(256)
    ensures FromBe(Pad(n)) == n && |Pad(n)| == 256
  {
    BeInverse(n, 256);
  }

  function HexDigit(n: nat): U8
    requires n < 16
  {
    if n < 10 then 48 + n else 87 + n
  }

  function Hex(b: Bytes): Bytes {
    if b == [] then [] else [HexDigit(b[0] / 16), HexDigit(b[0] % 16)] + Hex(b[1..])
  }

  function Mix(a: Digest, b: Digest): Digest {
    seq(32, i requires 0 <= i < 32 => ((a[i] as bv8) ^ (b[i] as bv8)) as int)
  }

  // ---- What both sides compute ----

  datatype Request = Request(
    user: Bytes, password: Bytes, protocol: Protocol, salt: Bytes, iterations: nat, server: Bytes)

  predicate Acceptable(r: Request) {
    && 0 < |r.salt| <= 1024 && 0 < |r.server| <= 256 && 0 < r.iterations <= 1_000_000
    && |r.password| <= 1_048_576 && r.protocol != OtherProtocol
  }

  /** The exponent derived from the password. */
  function PrivateKey(c: Crypto, r: Request): nat {
    var digest := c.sha(r.password);
    var derived := c.pbkdf2(if r.protocol == S2kFo then Hex(digest) else digest, r.salt, r.iterations);
    FromBe(c.sha(r.salt + c.sha([58] + derived)))
  }

  function Multiplier(c: Crypto): nat { FromBe(c.sha(Pad(c.N) + Pad(c.g))) }

  function Scramble(c: Crypto, A: nat, B: nat): nat { FromBe(c.sha(Pad(A) + Pad(B))) }

  function ClientProof(c: Crypto, r: Request, A: nat, B: nat, key: Bytes): Digest {
    c.sha(Mix(c.sha(Pad(c.N)), c.sha(Pad(c.g))) + c.sha(r.user) + r.salt + Pad(A) + Pad(B) + key)
  }

  function ServerProof(c: Crypto, A: nat, proof: Bytes, key: Bytes): Digest {
    c.sha(Pad(A) + proof + key)
  }

  function Verifier(c: Crypto, r: Request): nat
    requires c.N > 0
  {
    PowMod(c.g, PrivateKey(c, r), c.N)
  }

  // ---- The client ----

  /** The client's shared secret. */
  function ClientSecret(c: Crypto, r: Request, a: nat, A: nat, B: nat): nat
    requires c.N > 0
  {
    var x, u := PrivateKey(c, r), Scramble(c, A, B);
    PowMod(ClientBase(c, r, B), Exponent(u, x, a), c.N)
  }

  function Exponent(u: nat, x: nat, a: nat): nat { u * x + a }

  function ClientBase(c: Crypto, r: Request, B: nat): nat
    requires c.N > 0
  {
    (B - (Multiplier(c) * Verifier(c, r)) % c.N) % c.N
  }

  /** The state of a client context: 0 fresh, 1 waiting for the server's proof, -1 used up. */
  datatype State = State(a: nat, A: nat, key: Bytes, expected: Bytes, challenged: int)

  /** The server's value is refused, or a value that would give the secret away is zero. */
  predicate Rejects(c: Crypto, s: State, r: Request)
    requires c.N > 0
  {
    var B := FromBe(r.server);
    || B == 0 || B >= c.N || Scramble(c, s.A, B) == 0
    || ClientBase(c, r, B) == 0 || ClientSecret(c, r, s.a, s.A, B) == 0
  }

  /** The effect of a challenge: the new state, and the proof if there is one. */
  function Challenged(c: Crypto, s: State, r: Request): (State, Option<Digest>)
    requires c.N > 0
  {
    if s.challenged != 0 || !Acceptable(r) then (s, None)
    else if Rejects(c, s, r) then (s.(challenged := -1), None)
    else
      var B := FromBe(r.server);
      var key := c.sha(Pad(ClientSecret(c, r, s.a, s.A, B)));
      var proof := ClientProof(c, r, s.A, B, key);
      (s.(challenged := 1, key := key, expected := ServerProof(c, s.A, proof, key)), Some(proof))
  }

  function Zeros(n: nat): Bytes { seq(n, _ => 0) }

  /** The effect of the server's proof: the new state, and the key if it is released. */
  function Verified(s: State, proof: Option<Bytes>): (State, Option<Bytes>) {
    if s.challenged != 1 then (s, None)
    else if proof.None? || |proof.value| != 32 || proof.value != s.expected then (s.(challenged := -1), None)
    else (s.(challenged := -1, key := Zeros(|s.key|)), Some(s.key))
  }

  /** `struct aq_srp` and its operations. */
  class Context {
    const c: Crypto
    const a: nat
    const A: nat
    var key: Bytes
    var expected: Bytes
    var challenged: int

    function Value(): State
      reads this
    {
      State(a, A, key, expected, challenged)
    }

    constructor (c: Crypto, a: nat)
      requires c.N > 0
      ensures this.c == c && Value() == State(a, PowMod(c.g, a, c.N), Zeros(32), Zeros(32), 0)
    {
      this.c, this.a := c, a;
      this.A := PowMod(c.g, a, c.N);
      key, expected, challenged := Zeros(32), Zeros(32), 0;
    }

    method Challenge(r: Request) returns (proof: Option<Digest>)
      requires c.N > 0
      modifies this
      ensures (Value(), proof) == Challenged(c, old(Value()), r)
    {
      hide Pad, Be, FromBe, Hex, Mix, Pow, PowMod;
      if challenged != 0 || |r.salt| == 0 || |r.salt| > 1024 || |r.server| == 0 || |r.server| > 256
         || r.iterations == 0 || r.iterations > 1_000_000 || |r.password| > 1_048_576 || r.protocol == OtherProtocol {
        return None;
      }
      challenged := -1;
      var B := FromBe(r.server);
      if B == 0 || B >= c.N {
        return None;
      }
      var digest: Bytes := c.sha(r.password);
      var derived := c.pbkdf2(if r.protocol == S2kFo then Hex(digest) else digest, r.salt, r.iterations);
      digest := c.sha([58] + derived);
      digest := c.sha(r.salt + digest);
      var x := FromBe(digest);
      var u := FromBe(c.sha(Pad(A) + Pad(B)));
      if u == 0 {
        return None;
      }
      var k := FromBe(c.sha(Pad(c.N) + Pad(c.g)));
      var v := PowMod(c.g, x, c.N);
      var base := (k * v) % c.N;
      base := (B - base) % c.N;
      if base == 0 {
        return None;
      }
      var secret := PowMod(base, u * x + a, c.N);
      if secret == 0 {
        return None;
      }
      key := c.sha(Pad(secret));
      var mix := Mix(c.sha(Pad(c.N)), c.sha(Pad(c.g)));
      var m1 := c.sha(mix + c.sha(r.user) + r.salt + Pad(A) + Pad(B) + key);
      expected := c.sha(Pad(A) + m1 + key);
      challenged := 1;
      return Some(m1);
    }

    method Verify(proof: Option<Bytes>) returns (released: Option<Bytes>)
      modifies this
      ensures (Value(), released) == Verified(old(Value()), proof)
    {
      if challenged != 1 {
        return None;
      }
      challenged := -1;
      if proof.None? || |proof.value| != 32 || proof.value != expected {
        return None;
      }
      released := Some(key);
      key := Zeros(|key|);
    }
  }

  // ---- The server ----

  /** A digest as a number, read from its first byte on. */
  function Number(b: Bytes, read: nat := 0): nat {
    if b == [] then read else Number(b[1..], 256 * read + b[0])
  }

  /** A number written with 256 bytes. */
  predicate Padded(p: Bytes, n: nat) { |p| == 256 && Number(p) == n }

  /** The value of a hexadecimal digit in lower case. */
  function Nibble(c: U8): int {
    if 48 <= c <= 57 then c - 48 else if 97 <= c <= 102 then c - 87 else -1
  }

  predicate TwoDigits(c: U8, d: U8, n: U8) { Nibble(c) >= 0 && Nibble(d) >= 0 && 16 * Nibble(c) + Nibble(d) == n }

  /** Two digits for every byte. */
  predicate HexOf(h: Bytes, b: Bytes) {
    |h| == 2 * |b| && forall i | 0 <= i < |b| :: TwoDigits(h[2 * i], h[2 * i + 1], b[i])
  }

  predicate XorOf(x: Bytes, a: Digest, b: Digest) {
    |x| == 32 && forall i | 0 <= i < 32 :: x[i] == ((a[i] as bv8) ^ (b[i] as bv8)) as int
  }

  /** The values of a session at the server, and the padded ones. */
  datatype Session = Session(
    password: Bytes, x: nat, v: nat, k: nat, B: nat, u: nat, S: nat, K: Bytes, M1: Digest, M2: Bytes,
    N256: Bytes, g256: Bytes, A256: Bytes, B256: Bytes, S256: Bytes, xor: Bytes)

  /** What the server takes for the password: its digest, in hexadecimal digits if the protocol is s2k_fo. */
  predicate Prepared(c: Crypto, r: Request, password: Bytes) {
    match r.protocol
    case S2k => password == c.sha(r.password)
    case S2kFo => HexOf(password, c.sha(r.password))
    case OtherProtocol => false
  }

  /** What the server has before it hears from a client: verifier, multiplier, and its value for the exponent `b`. */
  predicate Enrolled(c: Crypto, r: Request, b: nat, s: Session)
    requires c.N > 0
  {
    && Padded(s.N256, c.N) && Padded(s.g256, c.g) && Padded(s.B256, s.B)
    && Prepared(c, r, s.password)
    && s.x == Number(c.sha(r.salt + c.sha([58] + c.pbkdf2(s.password, r.salt, r.iterations))))
    && s.v == Pow(c.g, s.x) % c.N
    && s.k == Number(c.sha(s.N256 + s.g256))
    && s.B == (s.k * s.v + Pow(c.g, b) % c.N) % c.N
  }

  /** And what it makes of the client's value `A`: the secret, the key, and both proofs. */
  predicate Serves(c: Crypto, r: Request, A: nat, b: nat, s: Session)
    requires c.N > 0
  {
    && Enrolled(c, r, b, s)
    && Padded(s.A256, A) && Padded(s.S256, s.S)
    && s.u == Number(c.sha(s.A256 + s.B256))
    && s.S == Pow((A * (Pow(s.v, s.u) % c.N)) % c.N, b) % c.N
    && s.K == c.sha(s.S256)
    && XorOf(s.xor, c.sha(s.N256), c.sha(s.g256))
    && s.M1 == c.sha(s.xor + c.sha(r.user) + r.salt + s.A256 + s.B256 + s.K)
    && s.M2 == c.sha(s.A256 + s.M1 + s.K)
  }

  // ---- The same values at the client ----

  lemma {:induction false} NumberMore(b: Bytes, x: U8, read: nat)
    ensures Number(b + [x], read) == 256 * Number(b, read) + x
    decreases |b|
  {
    if b == [] {
      assert [] + [x] == [x];
      assert Number([x][1..], 256 * read + x) == 256 * read + x;
    } else {
      assert (b + [x])[1..] == b[1..] + [x];
      NumberMore(b[1..], x, 256 * read + b[0]);
    }
  }

  lemma {:induction false} NumberIs(b: Bytes)
    ensures Number(b) == FromBe(b)
    decreases |b|
  {
    if b != [] {
      var front, x := b[..|b| - 1], b[|b| - 1];
      NumberIs(front);
      NumberMore(front, x, 0);
      assert b == front + [x];
    }
  }

  lemma {:induction false} BytesOfNumber(b: Bytes)
    ensures Be(FromBe(b), |b|) == b
    decreases |b|
  {
    if b != [] {
      var front, x := b[..|b| - 1], b[|b| - 1];
      BytesOfNumber(front);
      assert FromBe(b) / 256 == FromBe(front) && FromBe(b) % 256 == x;
      assert b == front + [x];
    }
  }

  lemma PaddedIs(p: Bytes, n: nat)
    requires Padded(p, n)
    ensures p == Pad(n)
  {
    NumberIs(p);
    BytesOfNumber(p);
  }

  lemma {:induction false} HexIs(h: Bytes, b: Bytes)
    requires HexOf(h, b)
    ensures h == Hex(b)
    decreases |b|
  {
    if b == [] {
    } else {
      forall i | 0 <= i < |b[1..]|
        ensures TwoDigits(h[2..][2 * i], h[2..][2 * i + 1], b[1..][i])
      {
        assert TwoDigits(h[2 * (i + 1)], h[2 * (i + 1) + 1], b[i + 1]);
      }
      HexIs(h[2..], b[1..]);
      assert TwoDigits(h[2 * 0], h[2 * 0 + 1], b[0]);
      FirstDigits(h[0], h[1], b[0]);
      assert h == [h[0], h[1]] + h[2..];
    }
  }

  lemma FirstDigits(c: U8, d: U8, n: U8)
    requires TwoDigits(c, d, n)
    ensures c == HexDigit(n / 16) && d == HexDigit(n % 16)
  {
  }

  lemma XorIs(x: Bytes, a: Digest, b: Digest)
    requires XorOf(x, a, b)
    ensures x == Mix(a, b)
  {
  }

  /** The client derives the server's exponent, verifier and multiplier. */
  lemma SameEnrolment(c: Crypto, r: Request, b: nat, s: Session)
    requires c.N > 0 && Enrolled(c, r, b, s)
    ensures PrivateKey(c, r) == s.x && Verifier(c, r) == s.v && Multiplier(c) == s.k
  {
    hide Pad, Hex, FromBe, Number, Padded, HexOf, Pow;
    PaddedIs(s.N256, c.N);
    PaddedIs(s.g256, c.g);
    NumberIs(c.sha(Pad(c.N) + Pad(c.g)));
    if r.protocol == S2kFo { HexIs(s.password, c.sha(r.password)); }
    NumberIs(c.sha(r.salt + c.sha([58] + c.pbkdf2(s.password, r.salt, r.iterations))));
  }

  lemma SameScramble(c: Crypto, r: Request, A: nat, b: nat, s: Session)
    requires c.N > 0 && Serves(c, r, A, b, s)
    ensures Scramble(c, A, s.B) == s.u
  {
    hide Pad, FromBe, Number, Padded, HexOf, Pow, XorOf;
    PaddedIs(s.A256, A);
    PaddedIs(s.B256, s.B);
    NumberIs(c.sha(Pad(A) + Pad(s.B)));
  }

  lemma SameProofs(c: Crypto, r: Request, A: nat, b: nat, s: Session)
    requires c.N > 0 && Serves(c, r, A, b, s)
    ensures s.K == c.sha(Pad(s.S)) && ClientProof(c, r, A, s.B, s.K) == s.M1 && ServerProof(c, A, s.M1, s.K) == s.M2
  {
    hide Pad, Number, Padded, HexOf, Pow, XorOf, Mix;
    PaddedIs(s.N256, c.N);
    PaddedIs(s.g256, c.g);
    PaddedIs(s.A256, A);
    PaddedIs(s.B256, s.B);
    PaddedIs(s.S256, s.S);
    XorIs(s.xor, c.sha(Pad(c.N)), c.sha(Pad(c.g)));
  }

  // ---- Agreement ----

  /** Without k v, what the server sent is the power of its exponent. */
  lemma BaseIsServerPower(c: Crypto, r: Request, b: nat, s: Session)
    requires c.N > 0 && Enrolled(c, r, b, s)
    ensures ClientBase(c, r, s.B) == Pow(c.g, b) % c.N
  {
    hide Padded, Prepared, Number, Pow, PrivateKey, Verifier, Multiplier;
    SameEnrolment(c, r, b, s);
    var kv, y := s.k * s.v, Pow(c.g, b) % c.N;
    SubtractAdded(kv, y, c.N);
    Remainder(y, 0, y, c.N);
  }

  /** (g^b)^(a + u x) and ((g^a)(g^x)^u)^b are the same modulo N. */
  lemma SecretsAgree(g: nat, n: nat, a: nat, b: nat, u: nat, x: nat)
    requires n > 0
    ensures PowMod(PowMod(g, b, n), u * x + a, n) == PowMod((PowMod(g, a, n) * PowMod(PowMod(g, x, n), u, n)) % n, b, n)
  {
    var e := u * x + a;
    calc {
      PowMod(PowMod(g, b, n), e, n);
      { PowModBase(Pow(g, b), e, n); }
      Pow(Pow(g, b), e) % n;
      { PowTimes(g, b, e); PowTimes(g, e, b); assert b * e == e * b; }
      Pow(Pow(g, e), b) % n;
    }
    var inner := PowMod(g, a, n) * PowMod(PowMod(g, x, n), u, n);
    calc {
      inner % n;
      { PowModBase(Pow(g, x), u, n); }
      ((Pow(g, a) % n) * (Pow(Pow(g, x), u) % n)) % n;
      { MulModBoth(Pow(g, a), Pow(Pow(g, x), u), n); }
      (Pow(g, a) * Pow(Pow(g, x), u)) % n;
      { PowTimes(g, x, u); PowAdd(g, a, x * u); assert a + x * u == e; }
      Pow(g, e) % n;
    }
    PowModBase(Pow(g, e), b, n);
  }

  /** Both sides derive the same secret. */
  lemma ClientMatchesServer(c: Crypto, r: Request, a: nat, b: nat, s: Session)
    requires c.N > 0 && Serves(c, r, Pow(c.g, a) % c.N, b, s)
    ensures ClientSecret(c, r, a, Pow(c.g, a) % c.N, s.B) == s.S
  {
    hide Padded, Enrolled, Number, Pow, XorOf, Scramble, PrivateKey, ClientBase, Verifier, Multiplier;
    BaseIsServerPower(c, r, b, s);
    SameEnrolment(c, r, b, s);
    VerifierIs(c, r, b, s);
    SameScramble(c, r, Pow(c.g, a) % c.N, b, s);
    SecretsAgree(c.g, c.N, a, b, s.u, s.x);
  }

  lemma VerifierIs(c: Crypto, r: Request, b: nat, s: Session)
    requires c.N > 0 && Enrolled(c, r, b, s)
    ensures s.v == PowMod(c.g, s.x, c.N)
  {
  }

  /** What a client takes from anybody: both strings there, and none of them, nor the count, too large. */
  predicate InBounds(r: Request) {
    && 1 <= |r.salt| <= 1024 && 1 <= |r.server| <= 256 && 1 <= r.iterations <= 1_000_000
    && |r.password| <= 1024 * 1024
  }

  /** A fresh client facing an honest server. Its proof is the server's M1 unless the request is out of bounds or one
      of the values it must refuse is zero; then M2, and nothing else, releases the server's key. */
  lemma Agreement(c: Crypto, r: Request, a: nat, b: nat, s: Session, shown: Option<Bytes>)
    requires c.N > 0 && Serves(c, r, Pow(c.g, a) % c.N, b, s) && Number(r.server) == s.B
    ensures var (t, proof) := Challenged(c, State(a, Pow(c.g, a) % c.N, Zeros(32), Zeros(32), 0), r);
            var released := Verified(t, shown).1;
            if !InBounds(r) || s.B == 0 || s.u == 0 || Pow(c.g, b) % c.N == 0 || s.S == 0
            then proof == None && released == None
            else proof == Some(s.M1) && released == if shown == Some(s.M2) then Some(s.K) else None
  {
    hide Padded, Number, Pow, XorOf, Pad, Mix, ClientBase, ClientSecret, Scramble, ClientProof, ServerProof, FromBe,
         HexOf;
    var A := Pow(c.g, a) % c.N;
    NumberIs(r.server);
    ClientMatchesServer(c, r, a, b, s);
    BaseIsServerPower(c, r, b, s);
    SameScramble(c, r, A, b, s);
    SameProofs(c, r, A, b, s);
  }

  /** A challenge that comes again, is out of bounds or names another protocol changes nothing; one whose value is zero
      or not below N spoils the context; neither is answered. */
  lemma Refused(c: Crypto, s: State, r: Request)
    requires c.N > 0
    ensures var after := Challenged(c, s, r);
            if s.challenged != 0 || !InBounds(r) || r.protocol == OtherProtocol then after == (s, None)
            else Number(r.server) == 0 || Number(r.server) >= c.N ==> after == (s.(challenged := -1), None)
  {
    NumberIs(r.server);
    hide Number, FromBe, ClientBase, ClientSecret, Scramble;
  }

  /** One log-in with the client's own methods: a fresh context is challenged and shown a proof. */
  method LogIn(c: Crypto, r: Request, a: nat, ghost b: nat, ghost s: Session, shown: Option<Bytes>)
      returns (proof: Option<Digest>, released: Option<Bytes>)
    requires c.N > 0 && Serves(c, r, Pow(c.g, a) % c.N, b, s) && Number(r.server) == s.B
    ensures if !InBounds(r) || s.B == 0 || s.u == 0 || Pow(c.g, b) % c.N == 0 || s.S == 0
            then proof == None && released == None
            else proof == Some(s.M1) && released == if shown == Some(s.M2) then Some(s.K) else None
  {
    hide Serves, Number, Pow, Challenged, Verified, Zeros;
    Agreement(c, r, a, b, s, shown);
    var context := new Context(c, a);
    proof := context.Challenge(r);
    released := context.Verify(shown);
  }

  /** There is such a server for every request, exponent and client, in a group of at most 256 bytes. */
  lemma ServerExists(c: Crypto, r: Request, A: nat, b: nat) returns (s: Session)
    requires 0 < c.N < Pow256(256) && c.g < Pow256(256) && A < c.N && r.protocol != OtherProtocol
    ensures Serves(c, r, A, b, s)
  {
    hide Pad, Hex, Number, Pow, HexOf, XorOf, Mix, Pow256;
    PadIs(c.N);
    PadIs(c.g);
    PadIs(A);
    HexHolds(c.sha(r.password));
    var password: Bytes := if r.protocol == S2kFo then Hex(c.sha(r.password)) else c.sha(r.password);
    var x := Number(c.sha(r.salt + c.sha([58] + c.pbkdf2(password, r.salt, r.iterations))));
    var v := Pow(c.g, x) % c.N;
    var k := Number(c.sha(Pad(c.N) + Pad(c.g)));
    var B := (k * v + Pow(c.g, b) % c.N) % c.N;
    PadIs(B);
    var u := Number(c.sha(Pad(A) + Pad(B)));
    var S := Pow((A * (Pow(v, u) % c.N)) % c.N, b) % c.N;
    PadIs(S);
    var K := c.sha(Pad(S));
    var xor: Bytes := Mix(c.sha(Pad(c.N)), c.sha(Pad(c.g)));
    XorHolds(c.sha(Pad(c.N)), c.sha(Pad(c.g)));
    var M1 := c.sha(xor + c.sha(r.user) + r.salt + Pad(A) + Pad(B) + K);
    var M2 := c.sha(Pad(A) + M1 + K);
    s := Session(password, x, v, k, B, u, S, K, M1, M2, Pad(c.N), Pad(c.g), Pad(A), Pad(B), Pad(S), xor);
  }

  lemma PadIs(n: nat)
    requires n < Pow256(256)
    ensures Padded(Pad(n), n)
  {
    PaddedNumber(n);
    NumberIs(Pad(n));
  }

  lemma {:induction false} HexHolds(b: Bytes)
    ensures HexOf(Hex(b), b)
    decreases |b|
  {
    if b != [] {
      HexHolds(b[1..]);
      var h, t := Hex(b), Hex(b[1..]);
      forall i | 0 <= i < |b|
        ensures TwoDigits(h[2 * i], h[2 * i + 1], b[i])
      {
        if i > 0 {
          var k := i - 1;
          assert TwoDigits(t[2 * k], t[2 * k + 1], b[1..][k]);
          assert h[2 * i] == t[2 * k] && h[2 * i + 1] == t[2 * k + 1];
        }
      }
    }
  }

  lemma XorHolds(a: Digest, b: Digest)
    ensures XorOf(Mix(a, b), a, b)
  {
  }

  // ---- Any sequence of calls ----

  datatype Op = OpChallenge(r: Request) | OpVerify(proof: Option<Bytes>)

  /** What a sequence of calls on one context gives away. */
  datatype Tally = Tally(state: State, proofs: seq<Digest>, keys: seq<Bytes>)

  function After(c: Crypto, s: State, ops: seq<Op>): Tally
    requires c.N > 0
    decreases |ops|
  {
    if ops == [] then Tally(s, [], [])
    else
      match ops[0]
      case OpChallenge(r) =>
        var (s', proof) := Challenged(c, s, r);
        var rest := After(c, s', ops[1..]);
        rest.(proofs := (if proof.Some? then [proof.value] else []) + rest.proofs)
      case OpVerify(proof) =>
        var (s', key) := Verified(s, proof);
        var rest := After(c, s', ops[1..]);
        rest.(keys := (if key.Some? then [key.value] else []) + rest.keys)
  }

  lemma {:induction false} UsedUp(c: Crypto, s: State, ops: seq<Op>)
    requires c.N > 0 && s.challenged !in {0, 1}
    ensures After(c, s, ops).proofs == [] && After(c, s, ops).keys == []
    decreases |ops|
  {
    if ops != [] { UsedUp(c, s, ops[1..]); }
  }

  /** Once challenged, a context gives its key to the first proof that it is shown, if that is the expected one. */
  lemma {:induction false} OneKey(c: Crypto, s: State, ops: seq<Op>)
    requires c.N > 0 && s.challenged == 1
    ensures var t := After(c, s, ops);
            && t.proofs == [] && |t.keys| <= 1
            && (t.keys != [] ==> && t.keys[0] == s.key
                                 && exists j | 0 <= j < |ops| :: ops[j] == OpVerify(Some(s.expected)))
    decreases |ops|
  {
    if ops != [] {
      var s' := match ops[0] case OpChallenge(r) => Challenged(c, s, r).0 case OpVerify(p) => Verified(s, p).0;
      if ops[0].OpChallenge? {
        OneKey(c, s, ops[1..]);
        if After(c, s, ops[1..]).keys != [] {
          var j :| 0 <= j < |ops[1..]| && ops[1..][j] == OpVerify(Some(s.expected));
          assert ops[j + 1] == OpVerify(Some(s.expected));
        }
      } else {
        UsedUp(c, s', ops[1..]);
      }
    }
  }

  /** The proof answers challenge `i`, the key is the one that challenge derives, and the server's proof of exactly
      that proof and key was shown later, in call `j`. */
  ghost predicate Earned(c: Crypto, s: State, ops: seq<Op>, proof: Digest, key: Bytes, i: nat, j: nat)
    requires c.N > 0
  {
    && i < j < |ops| && ops[i].OpChallenge? && ops[j] == OpVerify(Some(ServerProof(c, s.A, proof, key)))
    && Acceptable(ops[i].r) && !Rejects(c, s, ops[i].r)
    && key == c.sha(Pad(ClientSecret(c, ops[i].r, s.a, s.A, FromBe(ops[i].r.server))))
    && proof == ClientProof(c, ops[i].r, s.A, FromBe(ops[i].r.server), key)
  }

  /** Whatever is called in whatever order, a fresh context yields at most one proof and at most one key, and a key
      only after a proof: the key bound into that proof, and only to somebody who then sent the matching server
      proof. */
  lemma {:induction false} OneShot(c: Crypto, s: State, ops: seq<Op>)
    requires c.N > 0 && s.challenged == 0
    ensures var t := After(c, s, ops);
            && |t.proofs| <= 1 && |t.keys| <= |t.proofs|
            && (t.keys != [] ==> exists i: nat, j: nat :: Earned(c, s, ops, t.proofs[0], t.keys[0], i, j))
    decreases |ops|
  {
    hide Challenged, Acceptable, Rejects, ClientProof, ServerProof, ClientSecret, Pad;
    if ops != [] {
      var rest := ops[1..];
      match ops[0]
      case OpVerify(p) =>
        OneShotLater(c, s, ops);
      case OpChallenge(r) =>
        var (s', proof) := Challenged(c, s, r);
        ChallengeOutcome(c, s, r);
        if s'.challenged == 0 {
          OneShotLater(c, s, ops);
        } else if s'.challenged == 1 {
          OneKey(c, s', rest);
          if After(c, s', rest).keys != [] {
            var j :| 0 <= j < |rest| && rest[j] == OpVerify(Some(s'.expected));
            assert ops[j + 1] == rest[j];
            assert Earned(c, s, ops, proof.value, s'.key, 0, j + 1);
            assert After(c, s, ops).proofs[0] == proof.value && After(c, s, ops).keys[0] == s'.key;
          }
        } else {
          UsedUp(c, s', rest);
        }
    }
  }

  lemma ChallengeOutcome(c: Crypto, s: State, r: Request)
    requires c.N > 0 && s.challenged == 0
    ensures var (s', proof) := Challenged(c, s, r);
            match proof
            case None => s' == s || s'.challenged == -1
            case Some(p) =>
              && s'.challenged == 1 && Acceptable(r) && !Rejects(c, s, r)
              && s'.key == c.sha(Pad(ClientSecret(c, r, s.a, s.A, FromBe(r.server))))
              && p == ClientProof(c, r, s.A, FromBe(r.server), s'.key) && s'.expected == ServerProof(c, s.A, p, s'.key)
  {
    hide Rejects, ClientProof, ServerProof, ClientSecret, Pad, Acceptable;
  }

  /** The first call left the context fresh. */
  lemma {:induction false} OneShotLater(c: Crypto, s: State, ops: seq<Op>)
    requires c.N > 0 && s.challenged == 0 && ops != []
    requires ops[0].OpChallenge? ==> Challenged(c, s, ops[0].r) == (s, None)
    ensures var t := After(c, s, ops);
            && |t.proofs| <= 1 && |t.keys| <= |t.proofs|
            && (t.keys != [] ==> exists i: nat, j: nat :: Earned(c, s, ops, t.proofs[0], t.keys[0], i, j))
    decreases |ops|, 0
  {
    hide Earned;
    var t := After(c, s, ops[1..]);
    OneShot(c, s, ops[1..]);
    assert After(c, s, ops).proofs == t.proofs && After(c, s, ops).keys == t.keys;
    if t.keys != [] {
      var i: nat, j: nat :| Earned(c, s, ops[1..], t.proofs[0], t.keys[0], i, j);
      EarnedLater(c, s, ops, t.proofs[0], t.keys[0], i, j);
    }
  }

  lemma EarnedLater(c: Crypto, s: State, ops: seq<Op>, proof: Digest, key: Bytes, i: nat, j: nat)
    requires c.N > 0 && ops != [] && Earned(c, s, ops[1..], proof, key, i, j)
    ensures Earned(c, s, ops, proof, key, i + 1, j + 1)
  {
    hide Acceptable, Rejects, ClientProof, ServerProof, ClientSecret;
    assert ops[1..][i] == ops[i + 1] && ops[1..][j] == ops[j + 1];
  }
}

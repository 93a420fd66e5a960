/** The key agreement of the handshake: generator 2 modulo the fixed prime, in the client's arithmetic. */
module DiffieHellman {
  import opened Arith
  import opened Bytes
  import opened Digits
  import opened Natural
  import opened NaturalMod
  import opened NaturalBytes

  const KEY_SIZE: nat := 128

  /** The 1024-bit modulus of section E.2 of RFC 2412, least significant byte first. */
  const P0: seq<Octet> :=
    [0xFF, 0xFF, 0xFF, 0xFF, 0xFF, 0xFF, 0xFF, 0xFF, 0x81, 0x53, 0xE6, 0xEC, 0x51, 0x66, 0x28, 0x49]
    + [0xE6, 0x1F, 0x4B, 0x7C, 0x11, 0x24, 0x9F, 0xAE, 0xA5, 0x9F, 0x89, 0x5A, 0xFB, 0x6B, 0x38, 0xEE]
    + [0xED, 0xB7, 0x06, 0xF4, 0xB6, 0x5C, 0xFF, 0x0B, 0x6B, 0xED, 0x37, 0xA6, 0xE9, 0x42, 0x4C, 0xF4]
    + [0xC6, 0x7E, 0x5E, 0x62, 0x76, 0xB5, 0x85, 0xE4, 0x45, 0xC2, 0x51, 0x6D, 0x6D, 0x35, 0xE1, 0x4F]
    + [0x37, 0x14, 0x5F, 0xF2, 0x6D, 0x0A, 0x2B, 0x30, 0x1B, 0x43, 0x3A, 0xCD, 0xB3, 0x19, 0x95, 0xEF]
    + [0xDD, 0x04, 0x34, 0x8E, 0x79, 0x08, 0x4A, 0x51, 0x22, 0x9B, 0x13, 0x3B, 0xA6, 0xBE, 0x0B, 0x02]
    + [0x74, 0xCC, 0x67, 0x8A, 0x08, 0x4E, 0x02, 0x29, 0xD1, 0x1C, 0xDC, 0x80, 0x8B, 0x62, 0xC6, 0xC4]
    + [0x34, 0xC2, 0x68, 0x21, 0xA2, 0xDA, 0x0F, 0xC9, 0xFF, 0xFF, 0xFF, 0xFF, 0xFF, 0xFF, 0xFF, 0xFF]

  /** What the agreement needs of the modulus. */
  predicate UsableModulus(prime: seq<Octet>)
  {
    |prime| == KEY_SIZE && prime[0] % 2 == 1 && prime[0] >= 3
  }

  lemma {:induction false} P0IsUsable()
    ensures UsableModulus(P0)
  {
  }

  lemma {:induction false} ModulusOdd(prime: seq<Octet>)
    requires UsableModulus(prime)
    ensures LeValue(prime) % 2 == 1 && LeValue(prime) >= 3 && LeValue(prime) < Pow(256, |prime|)
  {
    hide Val, Pow;
    ValTail(prime, 256, |prime|);
    ValBound(prime, 256, |prime|);
  }

  function Modulus(prime: seq<Octet>): (p: nat)
    requires UsableModulus(prime)
    ensures p % 2 == 1 && 3 <= p < Pow(256, KEY_SIZE)
  {
    ModulusOdd(prime);
    LeValue(prime)
  }

  /** An odd modulus above 1 divides no power of two. */
  lemma {:induction false} OddMissesPowers(p: nat, k: nat)
    requires p > 1 && p % 2 == 1
    ensures Pow(2, k) % p != 0
  {
    if Pow(2, k) % p == 0 {
      var q := Pow(2, k) / p;
      assert Pow(2, k) == q * p;
      if k > 0 {
        OddFactor(q, p);
        var h := q / 2;
        assert Pow(2, k - 1) == h * p by { assert 2 * (h * p) == (2 * h) * p; }
        DivModUnique(Pow(2, k - 1), p, h, 0);
        OddMissesPowers(p, k - 1);
      }
    }
  }

  lemma {:induction false} OddFactor(q: nat, p: nat)
    requires p % 2 == 1 && (q * p) % 2 == 0
    ensures q % 2 == 0
  {
    ModMul(q, p, 2);
  }

  /** Raising either public value to the other private key gives the same residue 2^(x*y). */
  lemma {:induction false} Agreement(x: nat, y: nat, p: nat)
    requires p > 1 && p % 2 == 1
    ensures Pow(Pow(2, x) % p, y) % p == Pow(2, x * y) % p
    ensures Pow(Pow(2, y) % p, x) % p == Pow(2, x * y) % p
    ensures 0 < Pow(2, x * y) % p < p
  {
    ResiduePower(x, y, p);
    ResiduePower(y, x, p);
    assert x * y == y * x;
    OddMissesPowers(p, x * y);
  }

  lemma {:induction false} ResiduePower(x: nat, y: nat, p: nat)
    requires p > 0
    ensures Pow(Pow(2, x) % p, y) % p == Pow(2, x * y) % p
  {
    DivModUnique(Pow(2, x) % p, p, 0, Pow(2, x) % p);
    CongruentPow(Pow(2, x) % p, Pow(2, x), y, p);
    PowPow(2, x, y);
  }

  lemma {:induction false} BytesDenote(v: nat, n: nat)
    requires v < Pow(256, n)
    ensures LeValue(LeBytes(v, n)) == v
  {
    LeRoundTrip(v, n);
    DivModUnique(v, Pow(256, n), 0, v);
  }

  /** r := the digits of data, in a fresh array. */
  method Load(data: seq<Octet>) returns (a: array<Word>)
    requires |data| < 7 * SIZE && |data| % 7 != 0
    ensures fresh(a) && a.Length == SIZE && Holds(a[..], SIZE, LeValue(data))
  {
    a := new Word[SIZE];
    Set(data, a);
  }

  /** The client's public value: 2^x mod p, as 128 little-endian bytes. */
  method PublicKey(prime: seq<Octet>, key: seq<Octet>, out: array<Octet>)
    requires UsableModulus(prime) && |key| == KEY_SIZE && out.Length == KEY_SIZE
    modifies out
    ensures LeValue(out[..]) == Pow(2, LeValue(key)) % Modulus(prime) > 0
  {
    ghost var x, p := LeValue(key), Modulus(prime);
    OddMissesPowers(p, x);
    var g: seq<Octet> := [2];
    ValOne(g, 256);
    var b := Load(g);
    var e := Load(key);
    var m := Load(prime);
    var r := new Word[SIZE];
    ModExp(b, e, m, r, 2, x, p);
    ModExpCorrect(2, x, p);
    Get(out, r, Pow(2, x) % p);
    BytesDenote(Pow(2, x) % p, KEY_SIZE);
  }

  /** The server's public value is taken iff it lies in 3 .. p - 2 and the secret is not 1. */
  predicate Accepts(p: nat, pub: nat, x: nat)
    requires p > 0
  {
    3 <= pub <= p - 2 && ModExpResult(pub, x, p) != 1
  }

  /** The client's shared secret from the server's public value. */
  method SharedSecret(prime: seq<Octet>, key: seq<Octet>, pub: seq<Octet>, t: array<Octet>) returns (ok: bool)
    requires UsableModulus(prime) && |key| == |pub| == t.Length == KEY_SIZE
    modifies t
    ensures ok <==> Accepts(Modulus(prime), LeValue(pub), LeValue(key))
    ensures ok ==> t[..] == LeBytes(ModExpResult(LeValue(pub), LeValue(key), Modulus(prime)), KEY_SIZE)
  {
    ghost var x, p, v := LeValue(key), Modulus(prime), LeValue(pub);
    var m := Load(prime);
    var b := Load(pub);
    ok := Lt2(b, m, v, p);
    if !ok { return; }
    var e := Load(key);
    var r := new Word[SIZE];
    ModExp(b, e, m, r, v, x, p);
    ok := Neq1(r, ModExpResult(v, x, p));
    if !ok { return; }
    Get(t, r, ModExpResult(v, x, p));
  }

  /**
   Both ends of the exchange: from the public values 2^x and 2^y, the client's arithmetic and the server's
   modular powers reach the same number, 2^(x*y) mod p, strictly between 0 and p.
   */
  lemma {:induction false} SameSecret(x: nat, y: nat, p: nat)
    requires p > 1 && p % 2 == 1
    ensures var clientPub, serverPub := ModExpResult(2, x, p), Pow(2, y) % p;
            && clientPub == Pow(2, x) % p
            && ModExpResult(serverPub, x, p) == Pow(clientPub, y) % p == Pow(2, x * y) % p
            && 0 < ModExpResult(serverPub, x, p) < p
  {
    ModExpCorrect(2, x, p);
    OddMissesPowers(p, x);
    Agreement(x, y, p);
    ModExpCorrect(Pow(2, y) % p, x, p);
  }
}

/**
 * A stand-in for the salted password hashing primitive (golang.org/x/crypto/bcrypt).
 * Only its interface behaviour is modelled: hashing draws a salt, is refused for
 * passwords longer than 72 bytes, and comparison recomputes the digest with the
 * cost and salt recorded in the hash. The digest itself is a placeholder, not
 * Blowfish: nothing here is a claim about the primitive's cryptographic strength.
 */
module Bcrypt {
  import opened Wrappers
  import opened GoErrors

  /** bcrypt.DefaultCost */
  const DefaultCost: nat := 10
  /** bcrypt.MinCost and bcrypt.MaxCost: a hash recording another cost does not parse. */
  const MinCost: nat := 4
  const MaxCost: nat := 31
  /** bcrypt hashes at most this many bytes of password. */
  const MaxPasswordBytes: nat := 72

  type Salt = seq<char>

  /** A stored password hash: the cost and salt it was made with, and its digest. */
  datatype PassHash = Hash(cost: nat, salt: Salt, digest: seq<int>)

  /** Number of bytes of s once encoded as UTF-8 (Go's len([]byte(s))). */
  function Utf8Length(s: string): (n: nat)
    ensures |s| <= n <= 4 * |s|
  {
    if s == [] then 0
    else
      var c := s[0] as int;
      (if c < 0x80 then 1 else if c < 0x800 then 2 else if c < 0x1_0000 then 3 else 4)
      + Utf8Length(s[1..])
  }

  /** A byte of a Go []byte. */
  type Byte = b: int | 0 <= b < 0x100

  /**
   * UTF-8 encoding of one Unicode scalar value (Go's utf8.EncodeRune): a lead byte that
   * says how many bytes follow, then six bits of the value per continuation byte.
   */
  function EncodeRune(c: char): (b: seq<Byte>)
    ensures 1 <= |b| <= 4
    ensures 0 in b <==> c == '\0'
  {
    var n := c as int;
    var n1, n2, n3 := n / 0x40, n / 0x40 / 0x40, n / 0x40 / 0x40 / 0x40;
    if n < 0x80 then [n]
    else if n < 0x800 then [0xC0 + n1, 0x80 + n % 0x40]
    else if n < 0x1_0000 then [0xE0 + n2, 0x80 + n1 % 0x40, 0x80 + n % 0x40]
    else [0xF0 + n3, 0x80 + n2 % 0x40, 0x80 + n1 % 0x40, 0x80 + n % 0x40]
  }

  /** The value a rune's encoding spells out (Go's utf8.DecodeRune on valid input). */
  function DecodeRune(b: seq<Byte>): int
  {
    if |b| == 0 then 0
    else
      var lead := b[0] as int;
      if |b| == 1 then lead
      else if |b| == 2 then (lead - 0xC0) * 0x40 + Continuation(b, 1)
      else if |b| == 3 then ((lead - 0xE0) * 0x40 + Continuation(b, 1)) * 0x40 + Continuation(b, 2)
      else (((lead - 0xF0) * 0x40 + Continuation(b, 1)) * 0x40 + Continuation(b, 2)) * 0x40 + Continuation(b, 3)
  }

  /** The six value bits of continuation byte i. */
  function Continuation(b: seq<Byte>, i: nat): int
    requires i < |b|
  {
    b[i] as int - 0x80
  }

  /** The bytes of a Go string holding s, that is []byte(s). */
  function Utf8(s: string): (b: seq<Byte>)
    ensures |b| == Utf8Length(s)
    ensures 0 in b <==> '\0' in s
  {
    if s == [] then [] else EncodeRune(s[0]) + Utf8(s[1..])
  }

  /**
   * The 72 key bytes bcrypt's Blowfish key schedule consumes: the password bytes
   * followed by one NUL byte, read cyclically from the start.
   */
  function KeyStream(password: seq<Byte>): (k: seq<Byte>)
    ensures |k| == MaxPasswordBytes
  {
    var key := password + [0];
    seq(MaxPasswordBytes, i requires 0 <= i < MaxPasswordBytes => key[i % |key|])
  }

  /**
   * Placeholder for the expensive keyed digest: it depends on the cost, the salt and
   * the key stream only, as bcrypt's does, and each key byte is shifted by an amount
   * that depends on the cost and the salt. Unlike bcrypt it is not one-way, and it is
   * injective in the key stream where bcrypt is only collision-resistant.
   */
  function Digest(cost: nat, salt: Salt, password: string): (d: seq<int>)
    ensures |d| == MaxPasswordBytes
  {
    var k := KeyStream(Utf8(password));
    seq(MaxPasswordBytes, i requires 0 <= i < MaxPasswordBytes => k[i] + cost + |salt|)
  }

  /** The first byte of a rune's encoding fixes the encoding's length. */
  lemma EncodeRuneLength(c: char, d: char)
    requires EncodeRune(c)[0] == EncodeRune(d)[0]
    ensures |EncodeRune(c)| == |EncodeRune(d)|
  {
  }

  /** Decoding a rune's encoding gives the rune back. */
  lemma DecodeEncodeRune(c: char)
    ensures DecodeRune(EncodeRune(c)) == c as int
  {
  }

  /** Distinct runes have distinct encodings. */
  lemma EncodeRuneInjective(c: char, d: char)
    requires EncodeRune(c) == EncodeRune(d)
    ensures c == d
  {
    DecodeEncodeRune(c);
    DecodeEncodeRune(d);
  }

  /** UTF-8 is a prefix code: the bytes of a string determine the string. */
  lemma {:induction false} Utf8Injective(s: string, t: string)
    requires Utf8(s) == Utf8(t)
    ensures s == t
  {
    if s != [] && t != [] {
      var b, e := EncodeRune(s[0]), EncodeRune(t[0]);
      assert Utf8(s) == b + Utf8(s[1..]);
      assert Utf8(t) == e + Utf8(t[1..]);
      assert b[0] == Utf8(s)[0] == e[0];
      EncodeRuneLength(s[0], t[0]);
      assert b == Utf8(s)[..|b|] == e;
      EncodeRuneInjective(s[0], t[0]);
      assert Utf8(s[1..]) == Utf8(s)[|b|..] == Utf8(t[1..]);
      Utf8Injective(s[1..], t[1..]);
      assert s == [s[0]] + s[1..];
      assert t == [t[0]] + t[1..];
    }
  }

  /** Up to the appended NUL, the key stream is the password's own bytes. */
  lemma KeyStreamAt(p: seq<Byte>, i: nat)
    requires i <= |p| && i < MaxPasswordBytes
    ensures KeyStream(p)[i] == (p + [0])[i]
  {
    assert i % (|p| + 1) == i;
  }

  /** The bytes of a key stream before its first NUL, or all of it if it has none. */
  function BeforeNul(k: seq<Byte>): (p: seq<Byte>)
    ensures |p| <= |k| && p == k[..|p|] && 0 !in p
    ensures |p| == |k| || k[|p|] == 0
  {
    if k == [] || k[0] == 0 then [] else [k[0]] + BeforeNul(k[1..])
  }

  /** A NUL-free prefix that ends at a NUL, or at the end, is what BeforeNul returns. */
  lemma {:induction false} BeforeNulOfPrefix(p: seq<Byte>, k: seq<Byte>)
    requires 0 !in p && |p| <= |k| && k[..|p|] == p
    requires |p| == |k| || k[|p|] == 0
    ensures BeforeNul(k) == p
  {
    if p != [] {
      assert k[0] == p[0] != 0;
      assert k[1..][..|p| - 1] == p[1..];
      BeforeNulOfPrefix(p[1..], k[1..]);
    }
  }

  /**
   * Without NUL bytes and within 72 bytes, the key stream gives back the password: the
   * first NUL of the stream marks where the password ends, and none means it fills all
   * 72 bytes.
   */
  lemma KeyStreamInjective(p: seq<Byte>, q: seq<Byte>)
    requires 0 !in p && 0 !in q
    requires |p| <= MaxPasswordBytes && |q| <= MaxPasswordBytes
    requires KeyStream(p) == KeyStream(q)
    ensures p == q
  {
    KeyStreamDecodes(p);
    KeyStreamDecodes(q);
  }

  /** BeforeNul inverts KeyStream on NUL-free passwords of at most 72 bytes. */
  lemma KeyStreamDecodes(p: seq<Byte>)
    requires 0 !in p && |p| <= MaxPasswordBytes
    ensures BeforeNul(KeyStream(p)) == p
  {
    var k := KeyStream(p);
    forall i | 0 <= i < |p|
      ensures k[i] == p[i]
    {
      KeyStreamAt(p, i);
    }
    if |p| < MaxPasswordBytes {
      KeyStreamAt(p, |p|);
    }
    BeforeNulOfPrefix(p, k);
  }

  /**
   * Under one cost and salt, the digest determines a NUL-free password of at most 72
   * bytes.
   */
  lemma DigestInjective(cost: nat, salt: Salt, p: string, q: string)
    requires '\0' !in p && '\0' !in q
    requires Utf8Length(p) <= MaxPasswordBytes && Utf8Length(q) <= MaxPasswordBytes
    requires Digest(cost, salt, p) == Digest(cost, salt, q)
    ensures p == q
  {
    var kp, kq := KeyStream(Utf8(p)), KeyStream(Utf8(q));
    forall i | 0 <= i < MaxPasswordBytes
      ensures kp[i] == kq[i]
    {
      assert Digest(cost, salt, p)[i] == Digest(cost, salt, q)[i];
    }
    KeyStreamInjective(Utf8(p), Utf8(q));
    Utf8Injective(p, q);
  }

  /**
   * A password containing NUL can share its key stream with another: "a" is keyed as
   * a,0,a,0,… and so is "a\0a", so the two hash alike under every cost and salt.
   */
  lemma KeyCycleTwins(cost: nat, salt: Salt)
    ensures Digest(cost, salt, "a") == Digest(cost, salt, "a\0a")
  {
  }

  /** Bytes past the 72nd do not reach the key schedule. */
  lemma KeyStreamTruncates(p: seq<Byte>, q: seq<Byte>)
    requires |p| >= MaxPasswordBytes && |q| >= MaxPasswordBytes
    requires p[..MaxPasswordBytes] == q[..MaxPasswordBytes]
    ensures KeyStream(p) == KeyStream(q)
  {
    forall i | 0 <= i < MaxPasswordBytes
      ensures KeyStream(p)[i] == KeyStream(q)[i]
    {
      KeyStreamAt(p, i);
      KeyStreamAt(q, i);
      assert p[i] == p[..MaxPasswordBytes][i] == q[..MaxPasswordBytes][i] == q[i];
    }
  }

  /**
   * bcrypt.GenerateFromPassword(password, DefaultCost). `salt` is what the random
   * source produced, or the error it reported.
   */
  function GenerateFromPassword(password: string, salt: Result<Salt, Error>): (r: Result<PassHash, Error>)
    ensures r.Success? <==> Utf8Length(password) <= MaxPasswordBytes && salt.Success?
    ensures Utf8Length(password) <= MaxPasswordBytes && salt.Failure? ==> r == Failure(salt.error)
    ensures r.Success? ==> r.value.cost == DefaultCost && r.value.salt == salt.value
    ensures r.Success? ==> CompareHashAndPassword(r.value, password) == None
  {
    if Utf8Length(password) > MaxPasswordBytes then Failure(Opaque("bcrypt: password length exceeds 72 bytes"))
    else match salt
      case Failure(e) => Failure(e)
      case Success(s) => Success(Hash(DefaultCost, s, Digest(DefaultCost, s, password)))
  }

  predicate ValidCost(cost: nat)
  {
    MinCost <= cost <= MaxCost
  }

  /**
   * bcrypt.CompareHashAndPassword: a hash whose cost is out of range is refused with
   * an InvalidCostError; otherwise None when the password hashes, under the cost and
   * salt recorded in `hash`, to the recorded digest, and the mismatch error if not.
   */
  function CompareHashAndPassword(hash: PassHash, password: string): (r: Option<Error>)
    ensures r.None? <==> ValidCost(hash.cost) && Digest(hash.cost, hash.salt, password) == hash.digest
    ensures ValidCost(hash.cost) && r.Some? ==> r.value == Sentinel(BcryptMismatchedHashAndPassword)
    ensures !ValidCost(hash.cost) ==> r.Some? && forall k :: !Is(r.value, k)
  {
    if !ValidCost(hash.cost) then Some(Opaque("crypto/bcrypt: cost is outside allowed inclusive range 4..31"))
    else if Digest(hash.cost, hash.salt, password) == hash.digest then None
    else Some(Sentinel(BcryptMismatchedHashAndPassword))
  }

  /**
   * A hash made from one password refuses every other NUL-free password of at most
   * 72 bytes with the mismatch error.
   */
  lemma CompareRejectsOtherPassword(p: string, q: string, salt: Salt)
    requires Utf8Length(p) <= MaxPasswordBytes && Utf8Length(q) <= MaxPasswordBytes && p != q
    requires '\0' !in p && '\0' !in q
    ensures CompareHashAndPassword(GenerateFromPassword(p, Success(salt)).value, q) ==
            Some(Sentinel(BcryptMismatchedHashAndPassword))
  {
    if Digest(DefaultCost, salt, q) == Digest(DefaultCost, salt, p) {
      DigestInjective(DefaultCost, salt, q, p);
    }
  }

  /** A hash made from "a" accepts "a\0a", whose key stream is the same. */
  lemma CompareAcceptsKeyCycleTwin(salt: Salt)
    ensures CompareHashAndPassword(GenerateFromPassword("a", Success(salt)).value, "a\0a") == None
  {
    KeyCycleTwins(DefaultCost, salt);
  }

  /**
   * Two passwords whose first 72 bytes agree are judged alike against every hash: the
   * rest of a longer password is ignored.
   */
  lemma CompareIgnoresBytesPast72(hash: PassHash, p: string, q: string)
    requires Utf8Length(p) >= MaxPasswordBytes && Utf8Length(q) >= MaxPasswordBytes
    requires Utf8(p)[..MaxPasswordBytes] == Utf8(q)[..MaxPasswordBytes]
    ensures CompareHashAndPassword(hash, p) == CompareHashAndPassword(hash, q)
  {
    KeyStreamTruncates(Utf8(p), Utf8(q));
  }
}

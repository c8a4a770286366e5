/**
 The User-based Security Model: key localization (RFC 3414, appendix A.2), truncated HMAC
 (RFC 7860, section 4.2.2) and AES in cipher feedback mode (RFC 3826).
 */
module Usm {
  import opened Bytes

  datatype AuthProtocol = Sha1 | Sha224 | Sha256 | Sha384 | Sha512 {
    function DigestLen(): (n: nat)
      ensures 8 * n == HashBits(this)
    {
      match this
      case Sha1 => 20
      case Sha224 => 28
      case Sha256 => 32
      case Sha384 => 48
      case Sha512 => 64
    }

    function AuthParamLen(): (n: nat)
      ensures 0 < n < DigestLen() && 8 * n == TagBits(this)
    {
      match this
      case Sha1 => 12
      case Sha224 => 16
      case Sha256 => 24
      case Sha384 => 32
      case Sha512 => 48
    }
  }

  datatype PrivProtocol = Aes128 | Aes192 | Aes256 {
    function KeyLen(): (n: nat)
      ensures 8 * n == KeyBits(this)
    {
      match this
      case Aes128 => 16
      case Aes192 => 24
      case Aes256 => 32
    }
  }

  // ---------- sizes in bits, as the standards name them ----------

  /** FIPS 180-4. */
  function HashBits(p: AuthProtocol): nat {
    match p
    case Sha1 => 160
    case Sha224 => 224
    case Sha256 => 256
    case Sha384 => 384
    case Sha512 => 512
  }

  /** HMAC-SHA-96 of RFC 3414, and HMAC-128-SHA-224 to HMAC-384-SHA-512 of RFC 7860. */
  function TagBits(p: AuthProtocol): nat {
    match p
    case Sha1 => 96
    case Sha224 => 128
    case Sha256 => 192
    case Sha384 => 256
    case Sha512 => 384
  }

  /** FIPS 197. */
  function KeyBits(p: PrivProtocol): nat {
    match p
    case Aes128 => 128
    case Aes192 => 192
    case Aes256 => 256
  }

  const MIN_PASSWORD_LEN := 8
  const KDF_TARGET := 1048576
  const BLOCK := 16

  /** The hash, the HMAC (protocol, key, message) and the block cipher (cipher, key, block). */
  datatype Primitives = Primitives(
    hash: (AuthProtocol, bytes) -> bytes,
    hmac: (AuthProtocol, bytes, bytes) -> bytes,
    block: (PrivProtocol, bytes, bytes) -> bytes)

  ghost predicate LengthsHold(c: Primitives) {
    && (forall a: AuthProtocol, m: bytes :: |c.hash(a, m)| == a.DigestLen())
    && (forall a: AuthProtocol, k: bytes, m: bytes :: |c.hmac(a, k, m)| == a.DigestLen())
    && (forall p: PrivProtocol, k: bytes, b: bytes :: |k| == p.KeyLen() && |b| == BLOCK ==> |c.block(p, k, b)| == BLOCK)
  }

  const EXAMPLE := Primitives(
    (a: AuthProtocol, m: bytes) => Zeros(a.DigestLen()),
    (a: AuthProtocol, k: bytes, m: bytes) => Zeros(a.DigestLen()),
    (p: PrivProtocol, k: bytes, b: bytes) => Zeros(BLOCK))

  /** Any primitives with outputs of the right lengths; nothing else is known about them. */
  type Crypto = c: Primitives | LengthsHold(c) ghost witness EXAMPLE

  // ---------- password to key ----------

  /** The first `n` octets of `pw` repeated without end. */
  function Repeated(pw: bytes, n: nat): (s: bytes)
    requires pw != []
    ensures |s| == n
  {
    seq(n, i requires 0 <= i < n => pw[i % |pw|])
  }

  /** A streaming hash: its state stands for the octets absorbed so far. */
  class Hasher {
    const c: Crypto
    const proto: AuthProtocol
    var absorbed: bytes

    constructor (c: Crypto, proto: AuthProtocol)
      ensures absorbed == [] && this.c == c && this.proto == proto
    {
      this.c, this.proto, absorbed := c, proto, [];
    }

    method Update(data: bytes)
      modifies this
      ensures absorbed == old(absorbed) + data
    {
      absorbed := absorbed + data;
    }

    method Finalize() returns (digest: bytes)
      ensures digest == c.hash(proto, absorbed)
    {
      digest := c.hash(proto, absorbed);
    }
  }

  lemma MulGap(n: nat, q: nat, q': nat)
    requires q < q'
    ensures q' * n >= q * n + n
  {
    var d := q' - q - 1;
    assert d * n >= 0;
    assert q' * n == d * n + q * n + n;
  }

  lemma DivModUnique(n: nat, q: nat, r: nat, q': nat, r': nat)
    requires r < n && r' < n && q * n + r == q' * n + r'
    ensures q == q' && r == r'
  {
    if q < q' {
      MulGap(n, q, q');
    } else if q > q' {
      MulGap(n, q', q);
    }
  }

  lemma ModAfterMultiple(k: nat, j: nat, n: nat)
    requires n > 0 && j < n
    ensures (k * n + j) % n == j
  {
    assert k * n >= 0;
    var v := k * n + j;
    assert v / n * n + v % n == v;
    DivModUnique(n, k, j, v / n, v % n);
  }

  lemma RepeatedStep(pw: bytes, k: nat, take: nat)
    requires pw != [] && take <= |pw|
    ensures Repeated(pw, k * |pw| + take) == Repeated(pw, k * |pw|) + pw[..take]
  {
    forall i | k * |pw| <= i < k * |pw| + take
      ensures pw[i % |pw|] == pw[i - k * |pw|]
    {
      ModAfterMultiple(k, i - k * |pw|, |pw|);
    }
  }

  /** `incremental_digest`: feeds the hash whole passwords, then the part that still fits. */
  method IncrementalDigest(c: Crypto, proto: AuthProtocol, pw: bytes, target: nat) returns (digest: bytes)
    requires pw != []
    ensures digest == c.hash(proto, Repeated(pw, target))
  {
    var hasher := new Hasher(c, proto);
    var written := 0;
    ghost var k := 0;
    while written < target
      invariant written <= target
      invariant written == target || written == k * |pw|
      invariant hasher.absorbed == Repeated(pw, written)
      invariant fresh(hasher) && hasher.c == c && hasher.proto == proto
      decreases target - written
    {
      var take := if target - written < |pw| then target - written else |pw|;
      RepeatedStep(pw, k, take);
      hasher.Update(pw[..take]);
      written := written + take;
      k := k + 1;
    }
    digest := hasher.Finalize();
  }

  function Copies(pw: bytes, k: nat): bytes {
    if k == 0 then [] else Copies(pw, k - 1) + pw
  }

  /** What is hashed is a prefix of the password written out any number of times. */
  lemma {:induction false} RepeatedIsPrefixOfCopies(pw: bytes, k: nat)
    requires pw != []
    ensures Copies(pw, k) == Repeated(pw, k * |pw|)
  {
    if k > 0 {
      RepeatedIsPrefixOfCopies(pw, k - 1);
      RepeatedStep(pw, k - 1, |pw|);
      assert pw[..|pw|] == pw;
      assert (k - 1) * |pw| + |pw| == k * |pw|;
    } else {
      assert 0 * |pw| == 0;
    }
  }

  function PasswordToKeySpec(c: Crypto, pw: bytes, engineId: bytes, proto: AuthProtocol): (r: Result<bytes>)
    ensures r == Err(Usage(ShortPassword)) || (r.Ok? && 8 * |r.value| == HashBits(proto))
    ensures r.Ok? <==> |pw| >= MIN_PASSWORD_LEN
  {
    if |pw| < MIN_PASSWORD_LEN then Err(Usage(ShortPassword))
    else
      var d := c.hash(proto, Repeated(pw, KDF_TARGET));
      Ok(c.hash(proto, d + engineId + d))
  }

  /** `password_to_key`: hash the repeated password, then the digest around the engine id. */
  method PasswordToKey(c: Crypto, pw: bytes, engineId: bytes, proto: AuthProtocol) returns (r: Result<bytes>)
    ensures r == PasswordToKeySpec(c, pw, engineId, proto)
    ensures |pw| >= MIN_PASSWORD_LEN ==>
      var d := c.hash(proto, Repeated(pw, 1048576)); r == Ok(c.hash(proto, d + engineId + d))
  {
    if |pw| < MIN_PASSWORD_LEN {
      return Err(Usage(ShortPassword));
    }
    var intermediate := IncrementalDigest(c, proto, pw, KDF_TARGET);
    var localizer := intermediate;
    localizer := localizer + engineId;
    localizer := localizer + intermediate;
    return Ok(c.hash(proto, localizer));
  }

  function PrivKeyFromPassword(
    c: Crypto, pw: bytes, engineId: bytes, auth: AuthProtocol, priv: PrivProtocol): (r: Result<bytes>)
  {
    var key :- PasswordToKeySpec(c, pw, engineId, auth);
    if |key| < priv.KeyLen() then Err(Usage(KeyTooShort)) else Ok(key[..priv.KeyLen()])
  }

  /**
   Deriving a privacy key fails exactly for a short password, which is reported first, or
   for a digest shorter than the cipher's key; otherwise the key has the cipher's length and
   is a prefix of the authentication key for the same password.
   */
  lemma PrivKeyOutcome(c: Crypto, pw: bytes, engineId: bytes, auth: AuthProtocol, priv: PrivProtocol)
    ensures var r := PrivKeyFromPassword(c, pw, engineId, auth, priv);
            && !r.Panic?
            && (r == Err(Usage(ShortPassword)) <==> |pw| < 8)
            && (r == Err(Usage(KeyTooShort)) <==> |pw| >= 8 && auth.DigestLen() < priv.KeyLen())
            && (r.Ok? ==> 8 * |r.value| == KeyBits(priv)
                          && r.value <= PasswordToKeySpec(c, pw, engineId, auth).value)
    ensures auth.DigestLen() < priv.KeyLen() <==>
            (auth == Sha1 && priv != Aes128) || (auth == Sha224 && priv == Aes256)
  {
  }

  // ---------- authentication ----------

  /** `auth_sign`; a key of the wrong length fails the assertion. */
  function AuthSign(c: Crypto, message: bytes, key: bytes, proto: AuthProtocol): (r: Result<bytes>)
    ensures r.Panic? <==> |key| != proto.DigestLen()
    ensures r.Ok? || r.Panic?
    ensures r.Ok? ==> 8 * |r.value| == TagBits(proto) && r.value <= c.hmac(proto, key, message)
  {
    if |key| != proto.DigestLen() then Panic
    else Ok(c.hmac(proto, key, message)[..proto.AuthParamLen()])
  }

  // ---------- privacy ----------

  /** Section 3.1.2.1 of RFC 3826: engineBoots, engineTime and salt. */
  function Iv(boots: u32, time: u32, salt: u64): (iv: bytes)
    ensures |iv| == BLOCK
  {
    Be(boots, 4) + Be(time, 4) + Be(salt, 8)
  }

  lemma IvInjective(boots: u32, time: u32, salt: u64, boots': u32, time': u32, salt': u64)
    requires Iv(boots, time, salt) == Iv(boots', time', salt')
    ensures boots == boots' && time == time' && salt == salt'
  {
    var iv, iv' := Iv(boots, time, salt), Iv(boots', time', salt');
    assert iv[0..4] == Be(boots, 4) && iv'[0..4] == Be(boots', 4);
    assert iv[4..8] == Be(time, 4) && iv'[4..8] == Be(time', 4);
    assert iv[8..16] == Be(salt, 8) && iv'[8..16] == Be(salt', 8);
    Pow256();
    BeInjective(boots, boots', 4);
    BeInjective(time, time', 4);
    BeInjective(salt, salt', 8);
  }

  /** `make_aes_iv`. */
  method MakeAesIv(boots: u32, time: u32, salt: u64) returns (iv: array<byte>)
    ensures fresh(iv) && iv[..] == Iv(boots, time, salt) == Be(boots, 4) + Be(time, 4) + Be(salt, 8)
  {
    iv := new byte[16](_ => 0);
    CopyInto(iv, 0, Be(boots, 4));
    CopyInto(iv, 4, Be(time, 4));
    CopyInto(iv, 8, Be(salt, 8));
  }

  function XorBytes(a: bytes, b: bytes): (r: bytes)
    requires |a| <= |b|
    ensures |r| == |a|
  {
    seq(|a|, i requires 0 <= i < |a| => Xor(a[i], b[i]))
  }

  lemma XorBytesCancels(a: bytes, b: bytes)
    requires |a| <= |b|
    ensures XorBytes(XorBytes(a, b), b) == a
  {
    forall i | 0 <= i < |a|
      ensures XorBytes(XorBytes(a, b), b)[i] == a[i]
    {
      XorCancels(a[i], b[i]);
    }
  }

  /**
   Full-block cipher feedback (section 6.3 of NIST SP 800-38A): each block is masked with the
   enciphered previous ciphertext block; a short last block uses a prefix of the mask.
   */
  function CfbEncrypt(c: Crypto, p: PrivProtocol, key: bytes, prev: bytes, text: bytes): (r: bytes)
    requires |key| == p.KeyLen() && |prev| == BLOCK
    ensures |r| == |text|
    decreases |text|
  {
    var mask := c.block(p, key, prev);
    if |text| < BLOCK then XorBytes(text, mask)
    else
      var first := XorBytes(text[..BLOCK], mask);
      first + CfbEncrypt(c, p, key, first, text[BLOCK..])
  }

  function CfbDecrypt(c: Crypto, p: PrivProtocol, key: bytes, prev: bytes, text: bytes): (r: bytes)
    requires |key| == p.KeyLen() && |prev| == BLOCK
    ensures |r| == |text|
    decreases |text|
  {
    var mask := c.block(p, key, prev);
    if |text| < BLOCK then XorBytes(text, mask)
    else XorBytes(text[..BLOCK], mask) + CfbDecrypt(c, p, key, text[..BLOCK], text[BLOCK..])
  }

  /** Decryption undoes encryption for every block function and every length. */
  lemma {:induction false} CfbRoundTrip(c: Crypto, p: PrivProtocol, key: bytes, prev: bytes, text: bytes)
    requires |key| == p.KeyLen() && |prev| == BLOCK
    ensures CfbDecrypt(c, p, key, prev, CfbEncrypt(c, p, key, prev, text)) == text
    decreases |text|
  {
    var mask := c.block(p, key, prev);
    if |text| < BLOCK {
      XorBytesCancels(text, mask);
    } else {
      var first := XorBytes(text[..BLOCK], mask);
      var ct := CfbEncrypt(c, p, key, prev, text);
      assert ct[..BLOCK] == first && ct[BLOCK..] == CfbEncrypt(c, p, key, first, text[BLOCK..]);
      XorBytesCancels(text[..BLOCK], mask);
      CfbRoundTrip(c, p, key, first, text[BLOCK..]);
      assert text == text[..BLOCK] + text[BLOCK..];
    }
  }

  lemma CfbUnfold(c: Crypto, p: PrivProtocol, key: bytes, prev: bytes, text: bytes)
    requires |key| == p.KeyLen() && |prev| == BLOCK && |text| >= BLOCK
    ensures var ct := CfbEncrypt(c, p, key, prev, text);
            && ct[..BLOCK] == XorBytes(text[..BLOCK], c.block(p, key, prev))
            && ct[BLOCK..] == CfbEncrypt(c, p, key, ct[..BLOCK], text[BLOCK..])
  {
  }

  lemma CfbShort(c: Crypto, p: PrivProtocol, key: bytes, prev: bytes, text: bytes)
    requires |key| == p.KeyLen() && |prev| == BLOCK && |text| < BLOCK
    ensures CfbEncrypt(c, p, key, prev, text) == XorBytes(text, c.block(p, key, prev))
  {
  }

  /** The ciphertext block before block `k`, or the initialization vector. */
  function Feedback(iv: bytes, ct: bytes, k: nat): (b: bytes)
    requires |iv| == BLOCK && BLOCK * k <= |ct|
    ensures |b| == BLOCK
  {
    if k == 0 then iv else ct[BLOCK * (k - 1)..BLOCK * k]
  }

  lemma FeedbackShift(iv: bytes, ct: bytes, k: nat)
    requires |iv| == BLOCK && k > 0 && BLOCK * k <= |ct|
    ensures Feedback(ct[..BLOCK], ct[BLOCK..], k - 1) == Feedback(iv, ct, k)
  {
    if k > 1 {
      SliceOfRest(ct, BLOCK, BLOCK * (k - 2), BLOCK * (k - 1));
    }
  }

  lemma SliceOfRest(s: bytes, n: nat, lo: nat, hi: nat)
    requires lo <= hi && n + hi <= |s|
    ensures s[n..][lo..hi] == s[n + lo..n + hi]
  {
  }

  lemma AtInRest(s: bytes, n: nat, i: nat)
    requires n <= i < |s|
    ensures s[n..][i - n] == s[i]
  {
  }

  lemma XorBytesAt(a: bytes, b: bytes, j: nat)
    requires j < |a| <= |b|
    ensures XorBytes(a, b)[j] == Xor(a[j], b[j])
  {
  }

  lemma CfbFirstBlock(c: Crypto, p: PrivProtocol, key: bytes, iv: bytes, text: bytes, j: nat)
    requires |key| == p.KeyLen() && |iv| == BLOCK && j < BLOCK && j < |text|
    ensures CfbEncrypt(c, p, key, iv, text)[j] == Xor(text[j], c.block(p, key, iv)[j])
  {
    hide CfbEncrypt, XorBytes, Xor;
    var mask, ct := c.block(p, key, iv), CfbEncrypt(c, p, key, iv, text);
    if |text| < BLOCK {
      CfbShort(c, p, key, iv, text);
      XorBytesAt(text, mask, j);
    } else {
      CfbUnfold(c, p, key, iv, text);
      XorBytesAt(text[..BLOCK], mask, j);
      assert ct[j] == ct[..BLOCK][j];
    }
  }

  /**
   Octet `j` of ciphertext block `k` has set exactly the bits in which the plaintext octet differs from
   octet `j` of the enciphered previous ciphertext block.
   */
  lemma {:induction false} CfbEquation(
    c: Crypto, p: PrivProtocol, key: bytes, iv: bytes, text: bytes, k: nat, j: nat, n: nat)
    requires |key| == p.KeyLen() && |iv| == 16 && j < 16 && 16 * k + j < |text| && n < 8
    ensures var ct, i := CfbEncrypt(c, p, key, iv, text), 16 * k + j;
            var mask := c.block(p, key, if k == 0 then iv else ct[16 * k - 16..16 * k]);
            TestBit(ct[i], n) <==> TestBit(text[i], n) != TestBit(mask[j], n)
  {
    hide CfbEncrypt, Xor;
    MaskEquation(c, p, key, iv, text, k, j);
    var ct := CfbEncrypt(c, p, key, iv, text);
    XorTests(text[16 * k + j], c.block(p, key, Feedback(iv, ct, k))[j], n);
  }

  lemma {:induction false} MaskEquation(c: Crypto, p: PrivProtocol, key: bytes, iv: bytes, text: bytes, k: nat, j: nat)
    requires |key| == p.KeyLen() && |iv| == BLOCK && j < BLOCK && BLOCK * k + j < |text|
    ensures var ct, i := CfbEncrypt(c, p, key, iv, text), BLOCK * k + j;
            ct[i] == Xor(text[i], c.block(p, key, Feedback(iv, ct, k))[j])
    decreases k
  {
    hide CfbEncrypt, XorBytes, Xor, Feedback;
    if k == 0 {
      FeedbackStart(iv, CfbEncrypt(c, p, key, iv, text));
      CfbFirstBlock(c, p, key, iv, text, j);
    } else {
      var ct, i := CfbEncrypt(c, p, key, iv, text), BLOCK * k + j;
      CfbUnfold(c, p, key, iv, text);
      assert BLOCK * (k - 1) + j == i - BLOCK;
      MaskEquation(c, p, key, ct[..BLOCK], text[BLOCK..], k - 1, j);
      FeedbackShift(iv, ct, k);
      AtInRest(ct, BLOCK, i);
      AtInRest(text, BLOCK, i);
    }
  }

  lemma FeedbackStart(iv: bytes, ct: bytes)
    requires |iv| == BLOCK
    ensures Feedback(iv, ct, 0) == iv
  {
  }

  /** `priv_encrypt`; a key below the cipher's length fails the assertion. */
  function PrivEncryptSpec(
    c: Crypto, plaintext: bytes, key: bytes, boots: u32, time: u32, salt: u64, p: PrivProtocol): (r: Result<bytes>)
    ensures r.Panic? <==> |key| < p.KeyLen()
    ensures r.Ok? || r.Panic?
    ensures r.Ok? ==> |r.value| == |plaintext|
  {
    if |key| < p.KeyLen() then Panic
    else Ok(CfbEncrypt(c, p, key[..p.KeyLen()], Iv(boots, time, salt), plaintext))
  }

  method PrivEncrypt(
    c: Crypto, plaintext: bytes, key: bytes, boots: u32, time: u32, salt: u64, p: PrivProtocol)
    returns (r: Result<bytes>)
    ensures r == PrivEncryptSpec(c, plaintext, key, boots, time, salt, p)
  {
    if |key| < p.KeyLen() {
      return Panic;
    }
    var iv := MakeAesIv(boots, time, salt);
    var k := key[..p.KeyLen()];
    var buf := new byte[|plaintext|](i requires 0 <= i < |plaintext| => plaintext[i]);
    assert buf[..] == plaintext;
    CfbEncryptInPlace(c, p, k, iv[..], buf);
    return Ok(buf[..]);
  }

  /** Encrypts a buffer block by block where it stands. */
  method CfbEncryptInPlace(c: Crypto, p: PrivProtocol, key: bytes, iv: bytes, buf: array<byte>)
    requires |key| == p.KeyLen() && |iv| == BLOCK
    modifies buf
    ensures buf[..] == CfbEncrypt(c, p, key, iv, old(buf[..]))
  {
    hide CfbEncrypt, XorBytes;
    ghost var text := buf[..];
    ghost var ct := CfbEncrypt(c, p, key, iv, text);
    var prev, at := iv, 0;
    while at + BLOCK <= buf.Length
      invariant 0 <= at <= buf.Length && |prev| == BLOCK
      invariant buf[at..] == text[at..]
      invariant ct == buf[..at] + CfbEncrypt(c, p, key, prev, text[at..])
    {
      ghost var done, rest := buf[..at], text[at..];
      var mask := c.block(p, key, prev);
      ghost var masked := XorBytes(rest[..BLOCK], mask);
      assert buf[at..at + BLOCK] == rest[..BLOCK];
      MaskInPlace(buf, at, BLOCK, mask);
      assert rest[BLOCK..] == text[at + BLOCK..];
      assert buf[at..at + BLOCK] == buf[..][at..at + BLOCK] == masked;
      CfbUnfold(c, p, key, prev, rest);
      ghost var out := CfbEncrypt(c, p, key, prev, rest);
      prev := buf[at..at + BLOCK];
      assert prev == out[..BLOCK];
      assert buf[..at + BLOCK] == done + prev;
      Associative(done, prev, out[BLOCK..]);
      assert out == prev + out[BLOCK..];
      at := at + BLOCK;
    }
    var mask := c.block(p, key, prev);
    CfbShort(c, p, key, prev, text[at..]);
    assert buf[at..at + (buf.Length - at)] == text[at..];
    MaskInPlace(buf, at, buf.Length - at, mask);
    assert buf[..] == ct;
  }

  method MaskInPlace(buf: array<byte>, at: nat, n: nat, mask: bytes)
    requires at + n <= buf.Length && n <= |mask|
    modifies buf
    ensures buf[..] == old(buf[..at]) + XorBytes(old(buf[at..at + n]), mask) + old(buf[at + n..])
  {
    for j := 0 to n
      invariant forall i :: 0 <= i < j ==> buf[at + i] == Xor(old(buf[at + i]), mask[i])
      invariant forall i :: 0 <= i < buf.Length && !(at <= i < at + j) ==> buf[i] == old(buf[i])
    {
      buf[at + j] := Xor(buf[at + j], mask[j]);
    }
  }
}

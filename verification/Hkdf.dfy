/** Key derivation of `src/crypto.c`: HKDF of RFC 5869 over an HMAC given as a parameter, and
    the password digest chain. Both loops write a prefix of one fixed infinite output. */
module Hkdf {
  import opened Arithmetic
  import opened Wrappers
  import opened Bytes

  // ---------- concatenated blocks ----------

  /** f(1) | f(2) | ... | f(n). */
  function Concat(f: nat -> bytes, n: nat): (r: bytes)
  {
    if n == 0 then [] else Concat(f, n - 1) + f(n)
  }

  lemma {:induction false} ConcatLength(f: nat -> bytes, n: nat, len: nat)
    requires forall i :: |f(i)| == len
    ensures |Concat(f, n)| == n * len
  {
    if n > 0 {
      ConcatLength(f, n - 1, len);
      Distribute(n - 1, 1, len);
    }
  }

  lemma {:induction false} ConcatStep(f: nat -> bytes, n: nat)
    ensures |Concat(f, n + 1)| == |Concat(f, n)| + |f(n + 1)|
  {
  }

  /** More blocks extend fewer blocks. */
  lemma {:induction false} ConcatPrefix(f: nat -> bytes, n: nat, m: nat)
    requires n <= m
    ensures Concat(f, n) <= Concat(f, m)
  {
    if n < m {
      ConcatPrefix(f, n, m - 1);
    }
  }

  /** The first `n` bytes of the blocks, from as many blocks as that takes. */
  function Output(f: nat -> bytes, len: nat, n: nat): (r: bytes)
    requires len > 0 && forall i :: |f(i)| == len
    ensures |r| == n
  {
    var blocks := (n + len - 1) / len;
    ConcatLength(f, blocks, len);
    Enough(n, len);
    Concat(f, blocks)[..n]
  }

  lemma {:induction false} Enough(n: nat, len: nat)
    requires len > 0
    ensures (n + len - 1) / len >= 0 && (n + len - 1) / len * len >= n
    ensures n > 0 ==> (n + len - 1) / len >= 1 && ((n + len - 1) / len - 1) * len < n
  {
    var q, r := DivMod(n + len - 1, len);
    Quotient(n + len - 1, len, q, r);
    Distribute(q, 1, len);
    Below(q, -1, len);
    Below(q, 0, len);
  }

  /** Any number of blocks that is enough gives the same bytes. */
  lemma {:induction false} OutputOf(f: nat -> bytes, len: nat, n: nat, m: nat)
    requires len > 0 && (forall i :: |f(i)| == len) && n <= |Concat(f, m)|
    ensures Output(f, len, n) == Concat(f, m)[..n]
  {
    var blocks := (n + len - 1) / len;
    ConcatLength(f, blocks, len);
    Enough(n, len);
    hide Concat;
    if blocks <= m {
      ConcatPrefix(f, blocks, m);
    } else {
      ConcatPrefix(f, m, blocks);
    }
  }

  /** Shorter outputs are prefixes of longer ones. */
  lemma {:induction false} OutputPrefix(f: nat -> bytes, len: nat, n: nat, m: nat)
    requires len > 0 && (forall i :: |f(i)| == len) && n <= m
    ensures Output(f, len, n) == Output(f, len, m)[..n]
  {
    var blocks := (m + len - 1) / len;
    ConcatLength(f, blocks, len);
    Enough(m, len);
    OutputOf(f, len, n, blocks);
    assert Concat(f, blocks)[..m][..n] == Concat(f, blocks)[..n];
  }

  /** Bytes `i * len` to `(i + 1) * len`, or what there is of them. */
  function Piece(b: bytes, len: nat, i: nat): (r: bytes)
  {
    if i * len >= |b| then [] else if i * len + len <= |b| then b[i * len..i * len + len] else b[i * len..]
  }

  lemma {:induction false} PieceOf(f: nat -> bytes, len: nat, n: nat, i: nat)
    requires len > 0 && (forall j :: |f(j)| == len) && i * len < n
    ensures var r := Piece(Output(f, len, n), len, i);
            r == f(i + 1)[..|r|] && |r| == if i * len + len <= n then len else n - i * len
  {
    var out, c := Output(f, len, n), Concat(f, i);
    ConcatLength(f, i, len);
    ConcatLength(f, i + 1, len);
    Distribute(i, 1, len);
    assert Concat(f, i + 1) == c + f(i + 1);
    hide Concat, Output;
    OutputLength(f, len, n);
    if i * len + len <= n {
      OutputPrefix(f, len, i * len + len, n);
      OutputOf(f, len, i * len + len, i + 1);
      assert out[..i * len + len] == c + f(i + 1);
      assert out[i * len..i * len + len] == out[..i * len + len][i * len..] == f(i + 1);
    } else {
      OutputOf(f, len, n, i + 1);
      assert out == (c + f(i + 1))[..n];
      assert out[i * len..] == f(i + 1)[..n - i * len];
    }
  }

  lemma {:induction false} OutputLength(f: nat -> bytes, len: nat, n: nat)
    requires len > 0 && forall j :: |f(j)| == len
    ensures |Output(f, len, n)| == n
  {
  }

  /** memcpy into an array. */
  method Copy(dst: array<byte>, at: nat, src: bytes)
    requires at + |src| <= dst.Length
    modifies dst
    ensures dst[..] == old(dst[..])[..at] + src + old(dst[..])[at + |src|..]
  {
    ghost var was := dst[..];
    for i := 0 to |src|
      invariant dst[..] == was[..at] + src[..i] + was[at + i..]
    {
      dst[at + i] := src[i];
      assert dst[..] == (was[..at] + src[..i] + was[at + i..])[at + i := src[i]];
    }
  }

  // ---------- HKDF ----------

  datatype Hmac = Hmac(size: nat, mac: (bytes, bytes) -> bytes)

  ghost predicate ValidHmac(h: Hmac)
  {
    h.size > 0 && forall k, m :: |h.mac(k, m)| == h.size
  }

  /** T(i) of section 2.3 of RFC 5869; the counter is one octet. */
  function T(h: Hmac, prk: bytes, info: bytes, i: nat): (t: bytes)
  {
    if i == 0 then [] else h.mac(prk, T(h, prk, info, i - 1) + info + [(i % 256) as byte])
  }

  /** The blocks T(1), T(2), ...; block 0 is never used. */
  function Blocks(h: Hmac, prk: bytes, info: bytes): (f: nat -> bytes)
  {
    (i: nat) => if i == 0 then h.mac([], []) else T(h, prk, info, i)
  }

  lemma {:induction false} BlocksLength(h: Hmac, prk: bytes, info: bytes)
    requires ValidHmac(h)
    ensures forall i :: |Blocks(h, prk, info)(i)| == h.size
  {
  }

  /** The output keying material of section 2.3 of RFC 5869. */
  function Okm(h: Hmac, prk: bytes, info: bytes, n: nat): (r: bytes)
    requires ValidHmac(h)
    ensures |r| == n
  {
    BlocksLength(h, prk, info);
    Output(Blocks(h, prk, info), h.size, n)
  }

  /** Piece `i` of the output is the HMAC of the piece before it, the info and the octet `i + 1`,
      as far as it goes. */
  ghost predicate BlockIs(h: Hmac, prk: bytes, info: bytes, okm: bytes, i: nat)
  {
    i < 255 && Piece(okm, h.size, i)
               <= h.mac(prk, (if i == 0 then [] else Piece(okm, h.size, i - 1)) + info + [(i + 1) as byte])
  }

  /** Section 2.3 of RFC 5869, on the bytes written. */
  ghost predicate Expanded(h: Hmac, prk: bytes, info: bytes, okm: bytes)
  {
    forall i: nat :: i * h.size < |okm| ==> BlockIs(h, prk, info, okm, i)
  }

  lemma {:induction false} OkmExpanded(h: Hmac, prk: bytes, info: bytes, n: nat)
    requires ValidHmac(h) && n <= 255 * h.size
    ensures Expanded(h, prk, info, Okm(h, prk, info, n))
  {
    hide Okm, BlockIs;
    forall i: nat | i * h.size < |Okm(h, prk, info, n)| ensures BlockIs(h, prk, info, Okm(h, prk, info, n), i) {
      OkmBlock(h, prk, info, n, i);
    }
  }

  lemma {:induction false} OkmBlock(h: Hmac, prk: bytes, info: bytes, n: nat, i: nat)
    requires ValidHmac(h) && n <= 255 * h.size && i * h.size < |Okm(h, prk, info, n)|
    ensures BlockIs(h, prk, info, Okm(h, prk, info, n), i)
  {
    hide Output, Piece, Blocks, T, ValidHmac;
    Positive(h);
    var f, okm := Blocks(h, prk, info), Okm(h, prk, info, n);
    BlocksLength(h, prk, info);
    OutputLength(f, h.size, n);
    Below(255, i, h.size);
    PieceOf(f, h.size, n, i);
    NextBlock(h, prk, info, i + 1);
    if i == 0 {
      NoBlocks(h, prk, info);
    } else {
      WholePiece(f, h.size, n, i);
      NextBlock(h, prk, info, i);
    }
  }

  /** A piece that is not the last is a whole block. */
  lemma {:induction false} WholePiece(f: nat -> bytes, len: nat, n: nat, i: nat)
    requires len > 0 && (forall j :: |f(j)| == len) && i >= 1 && i * len < n
    ensures Piece(Output(f, len, n), len, i - 1) == f(i)
  {
    hide Output, Piece;
    Distribute(i, 1, len);
    PieceOf(f, len, n, i - 1);
  }

  /** Shorter keys are prefixes of longer ones. */
  lemma {:induction false} OkmPrefix(h: Hmac, prk: bytes, info: bytes, n: nat, m: nat)
    requires ValidHmac(h) && n <= m
    ensures Okm(h, prk, info, n) == Okm(h, prk, info, m)[..n]
  {
    BlocksLength(h, prk, info);
    OutputPrefix(Blocks(h, prk, info), h.size, n, m);
  }

  /** The first `n` bytes are written and the rest is as it was. */
  ghost predicate Holds(out: bytes, was: bytes, f: nat -> bytes, i: nat, n: nat)
  {
    n <= |was| && n <= |Concat(f, i)| && out == Concat(f, i)[..n] + was[n..]
  }

  /** Writing the next block, or as much of it as is wanted. */
  lemma {:induction false} HoldsNext(out: bytes, was: bytes, f: nat -> bytes, i: nat, take: nat)
    requires Holds(out, was, f, i, |Concat(f, i)|) && take <= |f(i + 1)| && |Concat(f, i)| + take <= |was|
    ensures |out| == |was|
    ensures var at := |Concat(f, i)|;
            Holds(out[..at] + f(i + 1)[..take] + out[at + take..], was, f, i + 1, at + take)
  {
    var at, c, b := |Concat(f, i)|, Concat(f, i), f(i + 1);
    assert Concat(f, i + 1) == c + b;
    hide Concat;
    assert c[..at] == c && out[..at] == c && out[at + take..] == was[at + take..];
    assert (c + b)[..at + take] == c + b[..take];
  }

  /** crypto_hkdf_expand, src/crypto.c:284-347. */
  method Expand(h: Hmac, prk: bytes, info: bytes, okm: array<byte>, okmLen: int) returns (ok: bool)
    requires ValidHmac(h) && okmLen <= okm.Length
    modifies okm
    ensures ok <==> 0 <= okmLen <= 255 * h.size && h.size <= |prk|
    ensures ok ==> okm[..] == Okm(h, prk, info, okmLen) + old(okm[..])[okmLen..]
    ensures ok ==> Expanded(h, prk, info, okm[..okmLen])
    ensures !ok ==> okm[..] == old(okm[..])
  {
    hide Expanded, Okm, Blocks, Covers, Holds, ValidHmac;
    Positive(h);
    if okmLen < 0 || |prk| < h.size {
      return false;
    }
    var len := h.size;
    var n := okmLen / len;
    if okmLen % len != 0 {
      n := n + 1;
    }
    BlockCount(okmLen, len, n);
    if n > 255 {
      return false;
    }
    ghost var was := okm[..];
    WriteBlocks(h, prk, info, okm, okmLen, n);
    ExpandDone(h, prk, info, okm[..], was, okmLen, n);
    assert okm[..okmLen] == okm[..][..okmLen];
    ok := true;
  }

  lemma {:induction false} Positive(h: Hmac)
    requires ValidHmac(h)
    ensures h.size > 0
  {
  }

  lemma {:induction false} ExpandDone(h: Hmac, prk: bytes, info: bytes, out: bytes, was: bytes, n: nat, blocks: nat)
    requires ValidHmac(h) && n <= 255 * h.size && Holds(out, was, Blocks(h, prk, info), blocks, n)
    ensures n <= |was| && out == Okm(h, prk, info, n) + was[n..] && Expanded(h, prk, info, out[..n])
  {
    hide Expanded, Concat, Output, Blocks;
    BlocksLength(h, prk, info);
    OutputOf(Blocks(h, prk, info), h.size, n, blocks);
    OkmExpanded(h, prk, info, n);
    OutputLength(Blocks(h, prk, info), h.size, n);
    assert out[..n] == Okm(h, prk, info, n);
  }

  /** `n` blocks, and no fewer, have the wanted length. */
  ghost predicate Covers(n: nat, len: nat, size: nat)
  {
    n * len >= size && (n > 0 ==> (n - 1) * len < size)
  }

  lemma {:induction false} CoversNone(n: nat, len: nat, size: nat)
    requires Covers(n, len, size)
    ensures n == 0 ==> size == 0
  {
  }

  lemma {:induction false} BlockCount(n: nat, len: nat, blocks: nat)
    requires len > 0 && blocks == n / len + if n % len != 0 then 1 else 0
    ensures Covers(blocks, len, n)
    ensures blocks > 255 <==> n > 255 * len
  {
    var q, r := DivMod(n, len);
    Quotient(n, len, q, r);
    Distribute(q, 1, len);
    Below(blocks, 255, len);
    Below(255, blocks - 1, len);
  }

  /** The loop of crypto_hkdf_expand. */
  method WriteBlocks(h: Hmac, prk: bytes, info: bytes, okm: array<byte>, okmLen: nat, n: nat)
    requires ValidHmac(h) && okmLen <= okm.Length && n <= 255
    requires Covers(n, h.size, okmLen)
    modifies okm
    ensures Holds(okm[..], old(okm[..]), Blocks(h, prk, info), n, okmLen)
  {
    hide Concat, Holds, Covers, T, Blocks, ValidHmac;
    ghost var f, was := Blocks(h, prk, info), okm[..];
    BlocksLength(h, prk, info);
    NoBlocks(h, prk, info);
    assert n == 0 ==> okmLen == 0 by { CoversNone(n, h.size, okmLen); }
    var t, where := [], 0;
    NothingHeld(was, f);
    var i := 1;
    while i <= n
      invariant 1 <= i <= n + 1 && where == |Concat(f, i - 1)| && t == T(h, prk, info, i - 1)
      invariant Holds(okm[..], was, f, i - 1, if i <= n then where else okmLen)
    {
      NextBlock(h, prk, info, i);
      t := h.mac(prk, t + info + [(i % 256) as byte]);
      Room(f, i, n, h.size, okmLen);
      ConcatStep(f, i - 1);
      var take := if i != n then h.size else okmLen - where;
      HoldsNext(okm[..], was, f, i - 1, take);
      Copy(okm, where, t[..take]);
      where := where + h.size;
      i := i + 1;
    }
  }

  lemma {:induction false} NoBlocks(h: Hmac, prk: bytes, info: bytes)
    ensures T(h, prk, info, 0) == []
  {
  }

  lemma {:induction false} NextBlock(h: Hmac, prk: bytes, info: bytes, i: nat)
    requires i >= 1
    ensures Blocks(h, prk, info)(i) == T(h, prk, info, i)
         == h.mac(prk, T(h, prk, info, i - 1) + info + [(i % 256) as byte])
  {
  }

  /** Whole blocks fit before the last one, which reaches the end. */
  lemma {:induction false} Room(f: nat -> bytes, i: nat, n: nat, len: nat, size: nat)
    requires (forall j :: |f(j)| == len) && 1 <= i <= n
    requires Covers(n, len, size)
    ensures |Concat(f, i - 1)| <= size && (i < n ==> |Concat(f, i)| <= size)
    ensures i == n ==> size <= |Concat(f, n)|
  {
    hide Concat;
    ConcatLength(f, i - 1, len);
    ConcatLength(f, i, len);
    Below(i - 1, n - 1, len);
    Below(i, n - 1, len);
  }

  lemma {:induction false} NothingHeld(was: bytes, f: nat -> bytes)
    ensures Holds(was, was, f, 0, 0) && Concat(f, 0) == []
  {
  }

  lemma {:induction false} Below(i: int, n: int, len: nat)
    ensures i <= n ==> i * len <= n * len
  {
  }

  /** crypto_hkdf_extract, src/crypto.c:263-282: a missing salt is a block of zeros. */
  method Extract(h: Hmac, salt: Option<bytes>, ikm: bytes) returns (prk: bytes)
    requires ValidHmac(h)
    ensures |prk| == h.size
    ensures prk == h.mac(if salt.Some? then salt.value else seq(h.size, _ => 0), ikm)
  {
    var nullSalt := seq(h.size, _ => 0);
    var key := if salt.Some? then salt.value else nullSalt;
    prk := h.mac(key, ikm);
    assert salt.None? ==> key == seq(h.size, _ => 0);
  }

  /** crypto_hkdf, src/crypto.c:251-260: sections 2.2 and 2.3 of RFC 5869. */
  method Derive(h: Hmac, salt: Option<bytes>, ikm: bytes, info: bytes, okm: array<byte>, okmLen: int) returns (ok: bool)
    requires ValidHmac(h) && okmLen <= okm.Length
    modifies okm
    ensures ok <==> 0 <= okmLen <= 255 * h.size
    ensures ok ==> forall key :: Keyed(h, salt, key) ==> Expanded(h, h.mac(key, ikm), info, okm[..okmLen])
    ensures ok ==> okm[okmLen..] == old(okm[okmLen..])
    ensures !ok ==> okm[..] == old(okm[..])
  {
    hide Okm, Expanded;
    var prk := Extract(h, salt, ikm);
    ok := Expand(h, prk, info, okm, okmLen);
    if ok {
      assert okm[okmLen..] == okm[..][okmLen..];
      forall key | Keyed(h, salt, key) ensures h.mac(key, ikm) == prk {
        assert salt.None? ==> key == seq(h.size, _ => 0);
      }
    }
  }

  /** The key of the extraction: the salt, or as many zeros as the hash has bytes. */
  ghost predicate Keyed(h: Hmac, salt: Option<bytes>, key: bytes)
  {
    match salt
    case Some(s) => key == s
    case None => |key| == h.size && forall i :: 0 <= i < |key| ==> key[i] == 0
  }

  // ---------- the password digest chain ----------

  datatype Digest = Digest(size: nat, hash: bytes -> bytes)

  ghost predicate ValidDigest(d: Digest)
  {
    d.size > 0 && forall m :: |d.hash(m)| == d.size
  }

  /** D(1) is the digest of the password, D(i) that of D(i-1) and the password. */
  function D(d: Digest, pass: bytes, i: nat): (r: bytes)
  {
    if i == 0 then [] else d.hash(D(d, pass, i - 1) + pass)
  }

  function Chain(d: Digest, pass: bytes): (f: nat -> bytes)
  {
    (i: nat) => if i == 0 then d.hash([]) else D(d, pass, i)
  }

  lemma {:induction false} ChainLength(d: Digest, pass: bytes)
    requires ValidDigest(d)
    ensures (forall i :: |Chain(d, pass)(i)| == d.size) && d.size > 0
  {
  }

  function Key(d: Digest, pass: bytes, n: nat): (r: bytes)
    requires ValidDigest(d)
    ensures |r| == n
  {
    ChainLength(d, pass);
    Output(Chain(d, pass), d.size, n)
  }

  /** Piece `i` of the key is the digest of the piece before it and the password, as far as it goes. */
  ghost predicate DigestIs(d: Digest, pass: bytes, key: bytes, i: nat)
  {
    Piece(key, d.size, i) <= d.hash((if i == 0 then [] else Piece(key, d.size, i - 1)) + pass)
  }

  ghost predicate Chained(d: Digest, pass: bytes, key: bytes)
  {
    forall i: nat :: i * d.size < |key| ==> DigestIs(d, pass, key, i)
  }

  lemma {:induction false} KeyChained(d: Digest, pass: bytes, n: nat)
    requires ValidDigest(d)
    ensures Chained(d, pass, Key(d, pass, n))
  {
    hide Output, Piece, Chain, D;
    var f, key := Chain(d, pass), Key(d, pass, n);
    ChainLength(d, pass);
    forall i: nat | i * d.size < |key| ensures DigestIs(d, pass, key, i) {
      PieceOf(f, d.size, n, i);
      NextDigest(d, pass, i);
      if i == 0 {
        NoDigests(d, pass);
      } else {
        Distribute(i, 1, d.size);
        PieceOf(f, d.size, n, i - 1);
        NextDigest(d, pass, i - 1);
        assert Piece(key, d.size, i - 1) == f(i);
      }
    }
  }

  lemma {:induction false} KeyPrefix(d: Digest, pass: bytes, n: nat, m: nat)
    requires ValidDigest(d) && n <= m
    ensures Key(d, pass, n) == Key(d, pass, m)[..n]
  {
    ChainLength(d, pass);
    OutputPrefix(Chain(d, pass), d.size, n, m);
  }

  /** The inner loop of crypto_derive_key: a digest is copied until the key is full. */
  method CopyDigest(key: array<byte>, j: nat, keyLen: nat, buf: bytes) returns (j': nat)
    requires j <= keyLen <= key.Length
    modifies key
    ensures j' == if j + |buf| < keyLen then j + |buf| else keyLen
    ensures key[..] == old(key[..])[..j] + buf[..j' - j] + old(key[..])[j'..]
  {
    ghost var was := key[..];
    j' := j;
    for i := 0 to |buf|
      invariant j' == j + i <= keyLen
      invariant key[..] == was[..j] + buf[..i] + was[j'..]
    {
      if j' >= keyLen {
        break;
      }
      key[j'] := buf[i];
      assert key[..] == (was[..j] + buf[..i] + was[j'..])[j' := buf[i]];
      j' := j' + 1;
    }
  }

  /** crypto_derive_key, src/crypto.c:208-248. */
  method DeriveKey(d: Digest, pass: bytes, key: array<byte>, keyLen: nat) returns (r: nat)
    requires ValidDigest(d) && keyLen <= key.Length
    modifies key
    ensures r == keyLen && key[..] == Key(d, pass, keyLen) + old(key[..])[keyLen..]
    ensures Chained(d, pass, key[..keyLen])
  {
    hide Concat, Holds, Output, D, Chain, ValidDigest, Key, Chained;
    ghost var f, was := Chain(d, pass), key[..];
    ChainLength(d, pass);
    NoDigests(d, pass);
    NothingHeld(was, f);
    var j, addmd, buf := 0, 0, [];
    while j < keyLen
      invariant 0 <= j <= keyLen && addmd >= 0 && buf == D(d, pass, addmd)
      invariant Holds(key[..], was, f, addmd, j) && (j < keyLen ==> j == |Concat(f, addmd)|)
      decreases keyLen - j
    {
      NextDigest(d, pass, addmd);
      buf := d.hash(buf + pass);
      var take := if j + d.size < keyLen then d.size else keyLen - j;
      HoldsNext(key[..], was, f, addmd, take);
      ConcatStep(f, addmd);
      j := CopyDigest(key, j, keyLen, buf);
      addmd := addmd + 1;
    }
    DeriveDone(d, pass, key[..], was, keyLen, addmd);
    assert key[..keyLen] == key[..][..keyLen];
    r := keyLen;
  }

  lemma {:induction false} DeriveDone(d: Digest, pass: bytes, out: bytes, was: bytes, n: nat, blocks: nat)
    requires ValidDigest(d) && Holds(out, was, Chain(d, pass), blocks, n)
    ensures n <= |was| && out == Key(d, pass, n) + was[n..] && Chained(d, pass, out[..n])
  {
    hide Chained, Concat, Output, Chain, Key;
    KeyIs(d, pass, n);
    OutputOf(Chain(d, pass), d.size, n, blocks);
    KeyChained(d, pass, n);
    OutputLength(Chain(d, pass), d.size, n);
    assert out[..n] == Key(d, pass, n);
  }

  lemma {:induction false} KeyIs(d: Digest, pass: bytes, n: nat)
    requires ValidDigest(d)
    ensures d.size > 0 && (forall i :: |Chain(d, pass)(i)| == d.size)
    ensures Key(d, pass, n) == Output(Chain(d, pass), d.size, n)
  {
    ChainLength(d, pass);
  }

  lemma {:induction false} NoDigests(d: Digest, pass: bytes)
    ensures D(d, pass, 0) == []
  {
  }

  lemma {:induction false} NextDigest(d: Digest, pass: bytes, i: nat)
    ensures Chain(d, pass)(i + 1) == D(d, pass, i + 1) == d.hash(D(d, pass, i) + pass)
  {
  }

  lemma {:induction false} Held(out: bytes, was: bytes, f: nat -> bytes, i: nat, n: nat)
    requires Holds(out, was, f, i, n)
    ensures n <= |was| && n <= |Concat(f, i)| && out == Concat(f, i)[..n] + was[n..]
  {
  }
}

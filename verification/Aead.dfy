/** The AEAD record layer of `src/aead.c` as functions on byte strings: chunk sealing and
    opening, the TCP framer and deframer and the UDP packet form. The cryptographic
    primitives are parameters with the laws the code relies on. */
module Aead {
  import opened Arithmetic
  import opened Wrappers
  import opened Bytes
  import opened Sequences
  import opened PingPong

  /** `derive` is the HKDF subkey of a salt; `seal` and `open` take key, nonce and text. */
  datatype Suite = Suite(saltLen: nat, tagLen: nat, nonceLen: nat, derive: bytes -> bytes,
                         seal: (bytes, nat, bytes) -> bytes, open: (bytes, nat, bytes) -> Option<bytes>)

  ghost predicate ValidSuite(s: Suite)
  {
    && s.saltLen > 0 && s.tagLen > 0 && s.nonceLen > 0
    && (forall k, n, m :: |s.seal(k, n, m)| == |m| + s.tagLen && s.open(k, n, s.seal(k, n, m)) == Some(m))
    && (forall k, n, c :: s.open(k, n, c).Some? ==> |c| == |s.open(k, n, c).value| + s.tagLen)
  }

  const LEN_SIZE := 2
  const LEN_MASK := 0x3FFF

  // ---------- nonces ----------

  function Pow256(n: nat): (r: nat)
    ensures r > 0
  {
    if n == 0 then 1 else 256 * Pow256(n - 1)
  }

  /** sodium_increment on a little-endian counter of nonce_len bytes. */
  function Inc(s: Suite, n: nat): (r: nat)
  {
    (n + 1) % Pow256(s.nonceLen)
  }

  /** The nonce after `ops` seal or open operations of a session. */
  function Nonce(s: Suite, ops: nat): (n: nat)
  {
    if ops == 0 then 0 else Inc(s, Nonce(s, ops - 1))
  }

  lemma {:induction false} NonceIsCount(s: Suite, ops: nat)
    ensures Nonce(s, ops) == ops % Pow256(s.nonceLen)
  {
    hide Inc;
    if ops == 0 {
      Quotient(0, Pow256(s.nonceLen), 0, 0);
    } else {
      NonceIsCount(s, ops - 1);
      IncStep(s, ops - 1);
    }
  }

  lemma {:induction false} IncStep(s: Suite, n: nat)
    ensures Inc(s, n % Pow256(s.nonceLen)) == (n + 1) % Pow256(s.nonceLen)
  {
    hide Pow256;
    ModStep(n, Pow256(s.nonceLen));
  }

  /** No nonce repeats within a session of fewer than 256^nonce_len operations. */
  lemma {:induction false} NoncesDistinct(s: Suite, i: nat, j: nat)
    requires i < j < Pow256(s.nonceLen)
    ensures Nonce(s, i) != Nonce(s, j)
  {
    NonceIsCount(s, i);
    NonceIsCount(s, j);
    Quotient(i, Pow256(s.nonceLen), 0, i);
    Quotient(j, Pow256(s.nonceLen), 0, j);
  }

  // ---------- chunks ----------

  /** The length read back from an opened length field: the two top bits are dropped. */
  function LoadLen(b: bytes): (n: nat)
    requires |b| == LEN_SIZE
    ensures n <= LEN_MASK
  {
    Load16(b) % (LEN_MASK + 1)
  }

  /** Two bytes, the higher one first, of which fourteen bits count. */
  lemma {:induction false} LengthField(hi: byte, lo: byte)
    ensures LoadLen([hi, lo]) == (hi as nat * 256 + lo as nat) % 0x4000
  {
  }

  lemma {:induction false} LenRoundTrip(n: nat)
    requires n <= LEN_MASK
    ensures LoadLen(Store16(n)) == n
  {
    hide Store16, Load16;
    Field16RoundTrip(n);
  }

  /** [length][tag][payload][tag], sealed at operations `ops` and `ops + 1`. */
  function Chunk(s: Suite, key: bytes, ops: nat, m: bytes): (c: bytes)
    requires |m| < 0x10000
  {
    s.seal(key, Nonce(s, ops), Store16(|m|)) + s.seal(key, Nonce(s, ops + 1), m)
  }

  function ChunkLen(s: Suite, m: bytes): (n: nat)
  {
    2 * s.tagLen + LEN_SIZE + |m|
  }

  /** A bad chunk leaves the nonce at the operation that failed. */
  datatype Opened = NeedMore | Bad(nonce: nat) | Payload(m: bytes, used: nat)

  /** aead_chunk_decrypt on the `c` at hand. */
  function OpenChunk(s: Suite, key: bytes, n: nat, c: bytes): (r: Opened)
    requires ValidSuite(s)
    ensures r.Payload? ==> 0 < |r.m| && r.used == ChunkLen(s, r.m) <= |c|
  {
    if |c| <= 2 * s.tagLen + LEN_SIZE then NeedMore
    else
      match s.open(key, n, c[..LEN_SIZE + s.tagLen])
      case None => Bad(n)
      case Some(lb) =>
        var mlen := LoadLen(lb);
        if mlen == 0 then Bad(n)
        else if |c| < 2 * s.tagLen + LEN_SIZE + mlen then NeedMore
        else
          match s.open(key, Inc(s, n), c[LEN_SIZE + s.tagLen..LEN_SIZE + s.tagLen + mlen + s.tagLen])
          case None => Bad(Inc(s, n))
          case Some(m) => Payload(m, 2 * s.tagLen + LEN_SIZE + mlen)
  }

  /** The loop of aead_decrypt: every complete chunk is opened, the rest is kept. */
  datatype Drained = Drained(out: bytes, rest: bytes, nonce: nat, bad: bool)

  function Drain(s: Suite, key: bytes, n: nat, c: bytes): (d: Drained)
    requires ValidSuite(s)
    ensures |d.out| + |d.rest| <= |c|
    ensures d.out == [] && !d.bad ==> d.rest == c && d.nonce == n
    decreases |c|
  {
    if c == [] then Drained([], [], n, false)
    else
      match OpenChunk(s, key, n, c)
      case NeedMore => Drained([], c, n, false)
      case Bad(n') => Drained([], c, n', true)
      case Payload(m, used) =>
        var d := Drain(s, key, Inc(s, Inc(s, n)), c[used..]);
        d.(out := m + d.out)
  }

  // ---------- the TCP framer ----------

  /** Payload sizes the length field can carry. */
  ghost predicate Sendable(ps: seq<bytes>)
  {
    forall i :: 0 <= i < |ps| ==> 0 < |ps[i]| <= LEN_MASK
  }

  /** The chunks of the payloads, from operation `ops` on. */
  function Body(s: Suite, key: bytes, ops: nat, ps: seq<bytes>): (r: bytes)
    requires Sendable(ps)
    decreases |ps|
  {
    if ps == [] then [] else Chunk(s, key, ops, ps[0]) + Body(s, key, ops + 2, ps[1..])
  }

  /** What a session sends: nothing, or the salt and the chunks. */
  function Wire(s: Suite, salt: bytes, ps: seq<bytes>): (r: bytes)
    requires Sendable(ps)
  {
    if ps == [] then [] else salt + Body(s, s.derive(salt), 0, ps)
  }

  /** Number of whole chunks in the first `n` bytes of the body of `ps`. */
  function Whole(s: Suite, ps: seq<bytes>, n: int): (j: nat)
    ensures j <= |ps|
    decreases |ps|
  {
    if ps == [] || n < ChunkLen(s, ps[0]) then 0 else 1 + Whole(s, ps[1..], n - ChunkLen(s, ps[0]))
  }

  /** Bytes taken by the first `j` chunks. */
  function Offset(s: Suite, ps: seq<bytes>, j: nat): (n: nat)
    requires j <= |ps|
  {
    if j == 0 then 0 else ChunkLen(s, ps[0]) + Offset(s, ps[1..], j - 1)
  }

  // ---------- the TCP deframer ----------

  /** `init` is 0 before the salt, 1 before the first chunk, 2 once the salt is accepted. */
  datatype Decoder = Decoder(init: nat, salt: bytes, key: bytes, nonce: nat, chunk: bytes)

  const FRESH := Decoder(0, [], [], 0, [])

  datatype Outcome = Ok(out: bytes) | More | Error

  datatype Decrypted = Decrypted(result: Outcome, st: Decoder, hist: seq<bytes>)

  /** aead_decrypt: `hist` is the history of the shared replay memory. */
  ghost function Decrypt(s: Suite, p: Params, hist: seq<bytes>, st: Decoder, input: bytes): (r: Decrypted)
    requires ValidSuite(s) && ValidParams(p)
  {
    var buf := st.chunk + input;
    if st.init == 0 then
      if |buf| <= s.saltLen then Decrypted(More, st.(chunk := buf), hist)
      else
        var salt := buf[..s.saltLen];
        if Seen(p, hist, salt) then Decrypted(Error, st.(salt := salt, chunk := buf), hist)
        else Deliver(s, p, hist, Decoder(1, salt, s.derive(salt), 0, buf[s.saltLen..]))
    else
      Deliver(s, p, hist, st.(chunk := buf))
  }

  /** The second half of aead_decrypt, from the loop on. After a bad chunk the buffer has lost
      the length of the chunks opened before it, but not yet their bytes. */
  ghost function Deliver(s: Suite, p: Params, hist: seq<bytes>, st: Decoder): (r: Decrypted)
    requires ValidSuite(s) && ValidParams(p)
  {
    var d := Drain(s, st.key, st.nonce, st.chunk);
    var st' := st.(nonce := d.nonce, chunk := d.rest);
    if d.bad then Decrypted(Error, st.(nonce := d.nonce, chunk := st.chunk[..|d.rest|]), hist)
    else if d.out == [] && d.rest != [] then Decrypted(More, st', hist)
    else if st.init != 1 then Decrypted(Ok(d.out), st', hist)
    else if Seen(p, hist, st.salt) then Decrypted(Error, st', hist)
    else Decrypted(Ok(d.out), st'.(init := 2), Added(p, hist, st.salt))
  }

  // ---------- UDP packets ----------

  /** aead_encrypt_all: salt, then the sealed payload under an all-zero nonce. */
  function Packet(s: Suite, salt: bytes, m: bytes): (c: bytes)
  {
    salt + s.seal(s.derive(salt), 0, m)
  }

  /** aead_decrypt_all. */
  ghost function OpenPacket(s: Suite, p: Params, hist: seq<bytes>, c: bytes): (r: (Outcome, seq<bytes>))
    requires ValidSuite(s) && ValidParams(p)
  {
    if |c| <= s.saltLen + s.tagLen then (Error, hist)
    else
      var salt := c[..s.saltLen];
      if Seen(p, hist, salt) then (Error, hist)
      else
        match s.open(s.derive(salt), 0, c[s.saltLen..])
        case None => (Error, hist)
        case Some(m) => (Ok(m), Added(p, hist, salt))
  }

  /** A packet opens to its payload exactly when the payload is not empty and the salt is new. */
  lemma {:induction false} PacketRoundTrip(s: Suite, p: Params, hist: seq<bytes>, salt: bytes, m: bytes)
    requires ValidSuite(s) && ValidParams(p) && |salt| == s.saltLen
    ensures OpenPacket(s, p, hist, Packet(s, salt, m))
         == if m != [] && !Seen(p, hist, salt) then (Ok(m), Added(p, hist, salt)) else (Error, hist)
  {
    hide Seen;
    var c := Packet(s, salt, m);
    assert c[..s.saltLen] == salt && c[s.saltLen..] == s.seal(s.derive(salt), 0, m);
  }

  // ---------- prefixes of honest streams ----------

  lemma {:induction false} BodyPrefix(s: Suite, key: bytes, ops: nat, ps: seq<bytes>)
    requires ValidSuite(s) && Sendable(ps) && ps != []
    ensures |Chunk(s, key, ops, ps[0])| == ChunkLen(s, ps[0])
    ensures |Body(s, key, ops, ps)| == ChunkLen(s, ps[0]) + |Body(s, key, ops + 2, ps[1..])|
  {
  }

  /** Opening at an incomplete chunk asks for more and changes nothing. */
  lemma {:induction false} OpenPartial(s: Suite, key: bytes, ops: nat, m: bytes, c: bytes)
    requires ValidSuite(s) && 0 < |m| <= LEN_MASK
    requires |c| < ChunkLen(s, m) && c <= Chunk(s, key, ops, m)
    ensures OpenChunk(s, key, Nonce(s, ops), c) == NeedMore
  {
    hide LoadLen, Store16, Nonce;
    if |c| > 2 * s.tagLen + LEN_SIZE {
      var lf := s.seal(key, Nonce(s, ops), Store16(|m|));
      assert c[..LEN_SIZE + s.tagLen] == Chunk(s, key, ops, m)[..LEN_SIZE + s.tagLen] == lf;
      LenRoundTrip(|m|);
    }
  }

  /** Opening at a complete chunk yields its payload. */
  lemma {:induction false} OpenWhole(s: Suite, key: bytes, ops: nat, m: bytes, more: bytes)
    requires ValidSuite(s) && 0 < |m| <= LEN_MASK
    ensures OpenChunk(s, key, Nonce(s, ops), Chunk(s, key, ops, m) + more) == Payload(m, ChunkLen(s, m))
  {
    hide LoadLen, Store16, Inc;
    var c := Chunk(s, key, ops, m) + more;
    var t := LEN_SIZE + s.tagLen;
    assert c[..t] == s.seal(key, Nonce(s, ops), Store16(|m|));
    LenRoundTrip(|m|);
    assert Inc(s, Nonce(s, ops)) == Nonce(s, ops + 1);
    assert c[t..t + |m| + s.tagLen] == s.seal(key, Nonce(s, ops + 1), m);
  }

  /** Draining any prefix of a body delivers exactly the whole chunks in it. */
  lemma {:induction false} DrainPrefix(s: Suite, key: bytes, ops: nat, ps: seq<bytes>, c: bytes)
    requires ValidSuite(s) && Sendable(ps) && c <= Body(s, key, ops, ps)
    ensures var j := Whole(s, ps, |c|);
            && Offset(s, ps, j) <= |c|
            && Drain(s, key, Nonce(s, ops), c)
               == Drained(Flatten(ps[..j]), c[Offset(s, ps, j)..], Nonce(s, ops + 2 * j), false)
    decreases |ps|
  {
    hide OpenChunk, ValidSuite, Chunk, Nonce, Inc;
    if ps == [] || c == [] {
      assert ps[..0] == [] && c[0..] == c;
    } else {
      var m, ck := ps[0], Chunk(s, key, ops, ps[0]);
      BodyPrefix(s, key, ops, ps);
      if |c| < ChunkLen(s, m) {
        assert c <= ck;
        OpenPartial(s, key, ops, m, c);
        assert ps[..0] == [] && c[0..] == c;
      } else {
        var c' := c[ChunkLen(s, m)..];
        assert c == ck + c';
        OpenWhole(s, key, ops, m, c');
        NonceTwice(s, ops);
        DrainPrefix(s, key, ops + 2, ps[1..], c');
        DrainStep(s, key, ops, ps, c);
      }
    }
  }

  lemma {:induction false} WholeFirst(s: Suite, ps: seq<bytes>, n: nat)
    requires ps != [] && n >= ChunkLen(s, ps[0])
    ensures Whole(s, ps, n) == 1 + Whole(s, ps[1..], n - ChunkLen(s, ps[0]))
  {
  }

  lemma {:induction false} DrainFirst(s: Suite, key: bytes, n: nat, c: bytes, m: bytes, used: nat)
    requires ValidSuite(s) && used <= |c| && OpenChunk(s, key, n, c) == Payload(m, used)
    ensures var d := Drain(s, key, Inc(s, Inc(s, n)), c[used..]); Drain(s, key, n, c) == d.(out := m + d.out)
  {
    NothingOpens(s, key, n, c);
    hide OpenChunk, ValidSuite, Inc;
  }

  lemma {:induction false} NothingOpens(s: Suite, key: bytes, n: nat, c: bytes)
    requires ValidSuite(s)
    ensures OpenChunk(s, key, n, c).Payload? ==> c != []
  {
  }

  lemma {:induction false} OffsetNext(s: Suite, ps: seq<bytes>, j: nat)
    requires j < |ps|
    ensures Offset(s, ps, j + 1) == ChunkLen(s, ps[0]) + Offset(s, ps[1..], j)
  {
  }

  lemma {:induction false} NonceTwice(s: Suite, ops: nat)
    ensures Inc(s, Inc(s, Nonce(s, ops))) == Nonce(s, ops + 2)
  {
    hide Inc;
    assert Nonce(s, ops + 1) == Inc(s, Nonce(s, ops));
  }

  /** An opened text is shorter than the sealed one by the tag. */
  lemma {:induction false} OpenedLength(s: Suite, key: bytes, n: nat, c: bytes)
    requires ValidSuite(s)
    ensures s.open(key, n, c) != None ==> |c| == |s.open(key, n, c).value| + s.tagLen
  {
  }

  lemma {:induction false} DrainStep(s: Suite, key: bytes, ops: nat, ps: seq<bytes>, c: bytes)
    requires ValidSuite(s) && Sendable(ps) && ps != [] && |c| >= ChunkLen(s, ps[0])
    requires OpenChunk(s, key, Nonce(s, ops), c) == Payload(ps[0], ChunkLen(s, ps[0]))
    requires var c', j' := c[ChunkLen(s, ps[0])..], Whole(s, ps[1..], |c| - ChunkLen(s, ps[0]));
             && Offset(s, ps[1..], j') <= |c'|
             && Drain(s, key, Inc(s, Inc(s, Nonce(s, ops))), c')
                == Drained(Flatten(ps[1..][..j']), c'[Offset(s, ps[1..], j')..], Nonce(s, ops + 2 + 2 * j'), false)
    ensures var j := Whole(s, ps, |c|);
            && Offset(s, ps, j) <= |c|
            && Drain(s, key, Nonce(s, ops), c)
               == Drained(Flatten(ps[..j]), c[Offset(s, ps, j)..], Nonce(s, ops + 2 * j), false)
  {
    hide OpenChunk, ValidSuite, Inc, Nonce, Flatten, Offset, Drain, Whole, ChunkLen;
    var len := ChunkLen(s, ps[0]);
    var c', j' := c[len..], Whole(s, ps[1..], |c| - len);
    WholeFirst(s, ps, |c|);
    OffsetNext(s, ps, j');
    TailTail(c, len, Offset(s, ps[1..], j'));
    DrainFirst(s, key, Nonce(s, ops), c, ps[0], len);
    assert ps[..j' + 1] == [ps[0]] + ps[1..][..j'];
    FlattenFirst(ps[0], ps[1..][..j']);
    assert ops + 2 + 2 * j' == ops + 2 * (j' + 1);
  }

  /** One more payload adds one chunk at the end. */
  lemma {:induction false} BodySnoc(s: Suite, key: bytes, ops: nat, ps: seq<bytes>, m: bytes)
    requires Sendable(ps) && 0 < |m| <= LEN_MASK
    ensures Sendable(ps + [m])
    ensures Body(s, key, ops, ps + [m]) == Body(s, key, ops, ps) + Chunk(s, key, ops + 2 * |ps|, m)
    decreases |ps|
  {
    hide Chunk;
    if ps == [] {
      assert ps + [m] == [m] && [m][1..] == [];
      assert Body(s, key, ops, [m]) == Chunk(s, key, ops, m) + Body(s, key, ops + 2, [m][1..]);
    } else {
      BodySnoc(s, key, ops + 2, ps[1..], m);
      assert (ps + [m])[0] == ps[0] && (ps + [m])[1..] == ps[1..] + [m];
      assert ops + 2 + 2 * |ps[1..]| == ops + 2 * |ps|;
      Associative(Chunk(s, key, ops, ps[0]), Body(s, key, ops + 2, ps[1..]), Chunk(s, key, ops + 2 * |ps|, m));
    }
  }

  // ---------- what stands on the wire ----------

  /** Where chunk `j` begins. */
  function ChunkAt(s: Suite, ps: seq<bytes>, j: nat): (n: nat)
    requires j <= |ps|
  {
    s.saltLen + j * (2 * s.tagLen + 2) + |Flatten(ps[..j])|
  }

  /** At its place in `w` stand the sealed length of payload `j`, as two bytes with the higher one
      first, and the sealed payload. Operation `o` of a session uses nonce `o`, modulo the size of
      the counter. */
  ghost predicate SealedAt(s: Suite, salt: bytes, ps: seq<bytes>, w: bytes, j: nat)
    requires j < |ps|
  {
    var at, n, size := ChunkAt(s, ps, j), |ps[j]|, Pow256(s.nonceLen);
    var mid := at + 2 + s.tagLen;
    && n < 0x10000 && mid + n + s.tagLen <= |w|
    && w[at..mid] == s.seal(s.derive(salt), 2 * j % size, [(n / 256) as byte, (n % 256) as byte])
    && w[mid..mid + n + s.tagLen] == s.seal(s.derive(salt), (2 * j + 1) % size, ps[j])
  }

  /** Nothing, or the salt and then all payloads in their order, sealed, and nothing else. */
  ghost predicate OnTheWire(s: Suite, salt: bytes, ps: seq<bytes>, w: bytes)
  {
    if ps == [] then w == []
    else
      && |w| == ChunkAt(s, ps, |ps|) && s.saltLen <= |w| && w[..s.saltLen] == salt
      && forall j :: 0 <= j < |ps| ==> SealedAt(s, salt, ps, w, j)
  }

  lemma {:induction false} BodyLength(s: Suite, key: bytes, ops: nat, ps: seq<bytes>)
    requires ValidSuite(s) && Sendable(ps)
    ensures |Body(s, key, ops, ps)| == |ps| * (2 * s.tagLen + 2) + |Flatten(ps)|
    decreases |ps|
  {
    hide Chunk;
    if ps != [] {
      BodyPrefix(s, key, ops, ps);
      BodyLength(s, key, ops + 2, ps[1..]);
      hide ValidSuite, Body;
      Distribute(|ps| - 1, 1, 2 * s.tagLen + 2);
    }
  }

  /** The chunks stand one behind the other. */
  lemma {:induction false} BodySplit(s: Suite, key: bytes, ops: nat, a: seq<bytes>, b: seq<bytes>)
    requires Sendable(a) && Sendable(b)
    ensures Sendable(a + b) && Body(s, key, ops, a + b) == Body(s, key, ops, a) + Body(s, key, ops + 2 * |a|, b)
    decreases |a|
  {
    hide Chunk, Body;
    if a == [] {
      assert a + b == b;
      BodyNothing(s, key, ops);
      assert [] + Body(s, key, ops, b) == Body(s, key, ops, b);
    } else {
      BodySplit(s, key, ops + 2, a[1..], b);
      BodyFirst(s, key, ops, a);
      BodyFirst(s, key, ops, a + b);
      assert (a + b)[0] == a[0] && (a + b)[1..] == a[1..] + b;
      assert ops + 2 + 2 * |a[1..]| == ops + 2 * |a|;
      Associative(Chunk(s, key, ops, a[0]), Body(s, key, ops + 2, a[1..]), Body(s, key, ops + 2 * |a|, b));
    }
  }

  lemma {:induction false} ChunkSealed(s: Suite, key: bytes, ops: nat, m: bytes)
    requires ValidSuite(s) && |m| < 0x10000
    ensures var c, mid, size := Chunk(s, key, ops, m), 2 + s.tagLen, Pow256(s.nonceLen);
            && |c| == mid + |m| + s.tagLen
            && c[..mid] == s.seal(key, ops % size, [(|m| / 256) as byte, (|m| % 256) as byte])
            && c[mid..] == s.seal(key, (ops + 1) % size, m)
  {
    hide Nonce, Pow256;
    NonceIsCount(s, ops);
    NonceIsCount(s, ops + 1);
  }

  lemma {:induction false} BodyNothing(s: Suite, key: bytes, ops: nat)
    ensures Body(s, key, ops, []) == []
  {
  }

  lemma {:induction false} BodyFirst(s: Suite, key: bytes, ops: nat, ps: seq<bytes>)
    requires Sendable(ps) && ps != []
    ensures Body(s, key, ops, ps) == Chunk(s, key, ops, ps[0]) + Body(s, key, ops + 2, ps[1..])
  {
  }

  /** The stream around chunk `j`. */
  lemma {:induction false} WireAround(s: Suite, salt: bytes, ps: seq<bytes>, j: nat) returns (front: bytes, tail: bytes)
    requires ValidSuite(s) && Sendable(ps) && j < |ps| && |salt| == s.saltLen
    ensures Wire(s, salt, ps) == front + (Chunk(s, s.derive(salt), 2 * j, ps[j]) + tail)
    ensures |front| == ChunkAt(s, ps, j)
  {
    hide ValidSuite, Body, Chunk, Flatten;
    var key, a, b := s.derive(salt), ps[..j], ps[j..];
    assert ps == a + b && b[0] == ps[j];
    BodySplit(s, key, 0, a, b);
    BodyLength(s, key, 0, a);
    BodyFirst(s, key, 2 * j, b);
    front, tail := salt + Body(s, key, 0, a), Body(s, key, 2 * j + 2, b[1..]);
    Associative(salt, Body(s, key, 0, a), Body(s, key, 2 * j, b));
  }

  lemma {:induction false} WireSealedAt(s: Suite, salt: bytes, ps: seq<bytes>, j: nat)
    requires ValidSuite(s) && Sendable(ps) && j < |ps| && |salt| == s.saltLen
    ensures SealedAt(s, salt, ps, Wire(s, salt, ps), j)
  {
    hide ValidSuite, Wire, Chunk, ChunkAt, Pow256;
    var front, tail := WireAround(s, salt, ps, j);
    ChunkSealed(s, s.derive(salt), 2 * j, ps[j]);
    var c, mid := Chunk(s, s.derive(salt), 2 * j, ps[j]), 2 + s.tagLen;
    SliceRight(front, c + tail, 0, mid);
    SliceRight(front, c + tail, mid, |c|);
    assert (c + tail)[0..mid] == c[..mid] && (c + tail)[mid..|c|] == c[mid..];
  }

  /** This is what a session sends. */
  lemma {:induction false} WireOnTheWire(s: Suite, salt: bytes, ps: seq<bytes>)
    requires ValidSuite(s) && Sendable(ps) && |salt| == s.saltLen
    ensures OnTheWire(s, salt, ps, Wire(s, salt, ps))
  {
    if ps != [] {
      BodyLength(s, s.derive(salt), 0, ps);
      assert ps[..|ps|] == ps;
      hide ValidSuite, Body, SealedAt;
      forall j | 0 <= j < |ps| ensures SealedAt(s, salt, ps, Wire(s, salt, ps), j) {
        WireSealedAt(s, salt, ps, j);
      }
    }
  }

  /** The nonces of the seals of a session that stays below the size of the counter all differ. */
  lemma {:induction false} SealsDiffer(s: Suite, ps: seq<bytes>, a: nat, b: nat)
    requires a < b < 2 * |ps| <= Pow256(s.nonceLen)
    ensures a % Pow256(s.nonceLen) != b % Pow256(s.nonceLen)
  {
    hide Pow256;
    Quotient(a, Pow256(s.nonceLen), 0, a);
    Quotient(b, Pow256(s.nonceLen), 0, b);
  }
}

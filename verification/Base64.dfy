/** The URL-safe base64 of `src/base64.c`: both loops proved against the 6-bit groups of the
    input, and decoding shown to undo encoding. */
module Base64 {
  import opened Arithmetic
  import opened Bitwise
  import opened Bytes

  const WORD := 0x1_0000_0000
  const UINT_MAX := 0xFFFF_FFFF
  const INVALID := 0xff

  // ---------- the alphabet ----------

  /** The encoder's string `b64`. */
  function Char(k: nat): (c: char)
    requires k < 64
  {
    if k < 26 then 'A' + k as char
    else if k < 52 then 'a' + (k - 26) as char
    else if k < 62 then '0' + (k - 52) as char
    else if k == 62 then '-' else '_'
  }

  /** The decoder's table `map2`, indexed by character code less 43; it has 80 entries. */
  function Map2(index: nat): (v: nat)
    requires index < 80
  {
    if index == 2 then 62
    else if 5 <= index < 15 then 52 + (index - 5)
    else if 22 <= index < 48 then index - 22
    else if index == 52 then 63
    else if 54 <= index then 26 + (index - 54)
    else INVALID
  }

  predicate ValidChar(c: char)
  {
    0 <= c as int - 43 < 80 && Map2(c as int - 43) != INVALID
  }

  function Value(c: char): (v: nat)
    requires ValidChar(c)
    ensures v < 64
  {
    Map2(c as int - 43)
  }

  /** The decoder's table inverts the encoder's, and no other character is valid. */
  lemma {:induction false} Tables(k: nat, c: char)
    requires k < 64
    ensures ValidChar(Char(k)) && Value(Char(k)) == k && Char(k) != '=' && Char(k) != '\0'
    ensures ValidChar(c) ==> Char(Value(c)) == c
  {
  }

  const UPPER := "ABCDEFGHIJKLMNOPQRSTUVWXYZ"
  const LOWER := "abcdefghijklmnopqrstuvwxyz"
  const DIGITS := "0123456789"

  /** The URL-safe alphabet of section 5 of RFC 4648. */
  lemma {:induction false} Alphabet(k: nat)
    requires k < 64
    ensures |UPPER + LOWER + DIGITS + "-_"| == 64
    ensures Char(k) == (UPPER + LOWER + DIGITS + "-_")[k]
  {
    assert k < 26 ==> UPPER[k] == 'A' + k as char;
    assert 26 <= k < 52 ==> LOWER[k - 26] == 'a' + (k - 26) as char;
    assert 52 <= k < 62 ==> DIGITS[k - 52] == '0' + (k - 52) as char;
  }

  // ---------- 6-bit groups ----------

  /** The byte at `b`, with zero bits after the end. */
  function Next(x: bytes, b: nat): (v: nat)
    ensures v < 256
  {
    if b < |x| then x[b] as nat else 0
  }

  function SextetCount(n: nat): (m: nat)
  {
    (4 * n + 2) / 3
  }

  /** Bits 6j to 6j+5 of the input. */
  function Sextet(x: bytes, j: nat): (v: nat)
    ensures v < 64
  {
    Part(x, j / 4, j % 4)
  }

  /** The `r`-th group of the `q`-th three bytes. */
  function Part(x: bytes, q: nat, r: nat): (v: nat)
    requires r < 4
    ensures v < 64
  {
    match r
    case 0 => Next(x, 3 * q) / 4
    case 1 => Next(x, 3 * q) % 4 * 16 + Next(x, 3 * q + 1) / 16
    case 2 => Next(x, 3 * q + 1) % 16 * 4 + Next(x, 3 * q + 2) / 64
    case _ => Next(x, 3 * q + 2) % 64
  }

  /** Bit `i` of the input, the highest bit of the first byte being bit 0, with zero bits after the end. */
  function InputBit(x: bytes, i: nat): (b: nat)
  {
    if i / 8 < |x| then Bit(x[i / 8] as nat, 7 - i % 8) else 0
  }

  /** Group `j` is made of the bits 6j to 6j+5 of the input, the highest first. */
  lemma {:induction false} SextetBits(x: bytes, j: nat, k: nat)
    requires k < 6
    ensures Bit(Sextet(x, j), 5 - k) == InputBit(x, 6 * j + k)
  {
    hide Part, Bit, Next;
    var q, r := DivMod(j, 4);
    Quotient(j, 4, q, r);
    var n := 6 * r + k;
    var b, m := DivMod(n, 8);
    Quotient(6 * j + k, 8, 3 * q + b, m);
    PartBits(x, q, r, k, b, m);
    NextBit(x, 3 * q + b, m);
  }

  lemma {:induction false} NextBit(x: bytes, b: nat, m: nat)
    requires m < 8
    ensures Bit(Next(x, b), 7 - m) == if b < |x| then Bit(x[b] as nat, 7 - m) else 0
  {
    hide Pow2;
    Quotient(0, Pow2(7 - m), 0, 0);
  }

  lemma {:induction false} PartBits(x: bytes, q: nat, r: nat, k: nat, b: nat, m: nat)
    requires r < 4 && k < 6 && 6 * r + k == 8 * b + m && m < 8
    ensures Bit(Part(x, q, r), 5 - k) == Bit(Next(x, 3 * q + b), 7 - m)
  {
    hide Next, Bit;
    var y, z, w := Next(x, 3 * q), Next(x, 3 * q + 1), Next(x, 3 * q + 2);
    if r == 0 {
      FirstBits(y, k);
    } else if r == 1 {
      SecondBits(y, z, k);
    } else if r == 2 {
      ThirdBits(z, w, k);
    } else {
      LastBits(w, k);
    }
  }

  lemma {:induction false} FirstBits(y: nat, k: nat)
    requires y < 256 && k < 6
    ensures Bit(y / 4, 5 - k) == Bit(y, 7 - k)
  {
    hide Bit, Pow2;
    Powers();
    BitDown(y, 2, 5 - k, y / 4);
  }

  lemma {:induction false} SecondBits(y: nat, z: nat, k: nat)
    requires y < 256 && z < 256 && k < 6
    ensures Bit(y % 4 * 16 + z / 16, 5 - k) == if k < 2 then Bit(y, 1 - k) else Bit(z, 9 - k)
  {
    hide Bit, Pow2;
    Powers();
    BitJoin(y % 4, z / 16, 4, 5 - k);
    if k < 2 {
      BitLow(y, 2, 1 - k);
    } else {
      BitDown(z, 4, 5 - k, z / 16);
    }
  }

  lemma {:induction false} ThirdBits(z: nat, w: nat, k: nat)
    requires z < 256 && w < 256 && k < 6
    ensures Bit(z % 16 * 4 + w / 64, 5 - k) == if k < 4 then Bit(z, 3 - k) else Bit(w, 11 - k)
  {
    hide Bit, Pow2;
    Powers();
    BitJoin(z % 16, w / 64, 2, 5 - k);
    if k < 4 {
      BitLow(z, 4, 3 - k);
    } else {
      BitDown(w, 6, 5 - k, w / 64);
    }
  }

  lemma {:induction false} LastBits(w: nat, k: nat)
    requires w < 256 && k < 6
    ensures Bit(w % 64, 5 - k) == Bit(w, 5 - k)
  {
    hide Bit, Pow2;
    Powers();
    BitLow(w, 6, 5 - k);
  }

  function Sextets(x: bytes): (s: seq<nat>)
    ensures |s| == SextetCount(|x|)
    ensures forall j :: 0 <= j < |s| ==> s[j] == Sextet(x, j)
  {
    seq(SextetCount(|x|), j requires j >= 0 => Sextet(x, j))
  }

  /** Bits 8k to 8k+7 of a list of 6-bit groups. */
  function Octet(s: seq<nat>, k: nat): (b: byte)
    requires k + k / 3 + 1 < |s| && forall i :: 0 <= i < |s| ==> s[i] < 64
  {
    var i := k + k / 3 + 1;
    Join(s[i - 1], s[i], k % 3)
  }

  /** The `r`-th byte of four groups, from the two groups it lies in. */
  function Join(a: nat, b: nat, r: nat): (x: byte)
    requires a < 64 && b < 64 && r < 3
  {
    match r
    case 0 => (a * 4 + b / 16) as byte
    case 1 => (a % 16 * 16 + b / 4) as byte
    case _ => (a % 4 * 64 + b) as byte
  }

  /** How many whole bytes `n` groups hold. */
  function OctetCount(n: nat): (m: nat)
    ensures forall k :: 0 <= k < m ==> k + k / 3 + 1 < n
  {
    3 * n / 4
  }

  function Octets(s: seq<nat>): (x: bytes)
    requires forall i :: 0 <= i < |s| ==> s[i] < 64
    ensures |x| == OctetCount(|s|)
    ensures forall k :: 0 <= k < |x| ==> x[k] == Octet(s, k)
  {
    seq(OctetCount(|s|), k requires 0 <= k < OctetCount(|s|) => Octet(s, k))
  }

  lemma {:induction false} Group(x: bytes, q: nat, r: nat)
    requires r < 4
    ensures Sextet(x, 4 * q + r) == Part(x, q, r)
  {
    hide Part;
    Quotient(4 * q + r, 4, q, r);
  }

  lemma {:induction false} Joined(a: nat, b: nat, c: nat)
    requires a < 256 && b < 256 && c < 256
    ensures a / 4 * 4 + (a % 4 * 16 + b / 16) / 16 == a
    ensures (a % 4 * 16 + b / 16) % 16 * 16 + (b % 16 * 4 + c / 64) / 4 == b
    ensures (b % 16 * 4 + c / 64) % 4 * 64 + c % 64 == c
  {
  }

  lemma {:induction false} Inside(x: bytes, k: nat)
    requires k < |x|
    ensures Next(x, k) == x[k] as nat
  {
  }

  lemma {:induction false} OctetOfSextets(x: bytes, k: nat)
    requires k < |x|
    ensures k + k / 3 + 1 < SextetCount(|x|)
    ensures Octet(Sextets(x), k) == x[k]
  {
    hide Sextet, Next, Part, Join, SextetCount;
    var q, r := DivMod(k, 3);
    Quotient(k, 3, q, r);
    Group(x, q, r);
    Group(x, q, r + 1);
    EnoughGroups(|x|, k, q, r);
    PartsJoin(x, q, r);
    Inside(x, k);
    var s := Sextets(x);
    assert s[k + q] == Part(x, q, r) && s[k + q + 1] == Part(x, q, r + 1);
  }

  lemma {:induction false} EnoughGroups(n: nat, k: nat, q: nat, r: nat)
    requires k < n && k == 3 * q + r && r < 3
    ensures k + q + 1 < SextetCount(n)
  {
    var c, d := DivMod(4 * n + 2, 3);
    Quotient(4 * n + 2, 3, c, d);
  }

  lemma {:induction false} PartsJoin(x: bytes, q: nat, r: nat)
    requires r < 3
    ensures Join(Part(x, q, r), Part(x, q, r + 1), r) as nat == Next(x, 3 * q + r)
  {
    hide Next;
    Joined(Next(x, 3 * q), Next(x, 3 * q + 1), Next(x, 3 * q + 2));
    assert r == 0 || r == 1 || r == 2;
  }

  /** Splitting into 6-bit groups loses nothing. */
  lemma {:induction false} GroupsRoundTrip(x: bytes)
    ensures Octets(Sextets(x)) == x
  {
    hide Octet;
    assert OctetCount(SextetCount(|x|)) == |x|;
    forall k | 0 <= k < |x| ensures Octets(Sextets(x))[k] == x[k] {
      OctetOfSextets(x, k);
    }
  }

  // ---------- text ----------

  function Base64Size(n: nat): (m: nat)
  {
    (n + 2) / 3 * 4 + 1
  }

  function Padding(n: nat): (m: nat)
  {
    (4 - n % 4) % 4
  }

  /** The encoded text without its terminator. */
  function Encoded(x: bytes): (t: string)
    ensures |t| == SextetCount(|x|) + Padding(SextetCount(|x|))
    ensures forall j :: 0 <= j < SextetCount(|x|) ==> t[j] == Char(Sextet(x, j))
    ensures forall j :: SextetCount(|x|) <= j < |t| ==> t[j] == '='
  {
    var n := SextetCount(|x|);
    seq(n + Padding(n), j requires j >= 0 => if j < n then Char(Sextet(x, j)) else '=')
  }

  lemma {:induction false} EncodedSize(n: nat)
    ensures SextetCount(n) + Padding(SextetCount(n)) + 1 == Base64Size(n)
  {
    var q, r := DivMod(n, 3);
    var c, up := if r == 0 then 0 else r + 1, if r == 0 then 0 else 1;
    Quotient(4 * n + 2, 3, 4 * q + c, 4 * r + 2 - 3 * c);
    Quotient(4 * q + c, 4, q, c);
    Quotient(n + 2, 3, q + up, r + 2 - 3 * up);
  }

  /** The character stands for the bits 6j to 6j+5 of the input. */
  ghost predicate Spells(c: char, x: bytes, j: nat)
  {
    exists v: nat :: v < 64 && c == (UPPER + LOWER + DIGITS + "-_")[v]
                     && forall k: nat :: k < 6 ==> Bit(v, k) == InputBit(x, 6 * j + (5 - k))
  }

  /** The text of section 5 of RFC 4648: a character for every six bits, the last of them filled up with
      zeros, and padding to a multiple of four. */
  ghost predicate IsText(x: bytes, t: string)
  {
    && |t| == (|x| + 2) / 3 * 4
    && (forall j :: 0 <= j < |t| && j < (8 * |x| + 5) / 6 ==> Spells(t[j], x, j))
    && forall j :: 0 <= j < |t| && j >= (8 * |x| + 5) / 6 ==> t[j] == '='
  }

  lemma {:induction false} EncodedIsText(x: bytes)
    ensures IsText(x, Encoded(x))
  {
    hide Sextet, Char, Spells, Bit;
    var n := |x|;
    EncodedSize(n);
    var q, r := DivMod(4 * n + 2, 3);
    Quotient(4 * n + 2, 3, q, r);
    Quotient(8 * n + 5, 6, q, 2 * r + 1);
    forall j | 0 <= j < SextetCount(n) ensures Spells(Char(Sextet(x, j)), x, j) {
      SpellsSextet(x, j);
    }
  }

  lemma {:induction false} SpellsSextet(x: bytes, j: nat)
    ensures Spells(Char(Sextet(x, j)), x, j)
  {
    hide Char, Bit, Part;
    var v := Sextet(x, j);
    Alphabet(v);
    forall k: nat | k < 6 ensures Bit(v, k) == InputBit(x, 6 * j + (5 - k)) {
      SextetBits(x, j, 5 - k);
    }
  }

  /** Where the text of a C string ends for the decoder. */
  function End(t: string): (n: nat)
    ensures n <= |t| && (n < |t| ==> t[n] == '\0' || t[n] == '=')
    ensures forall i :: 0 <= i < n ==> t[i] != '\0' && t[i] != '='
  {
    if t == [] || t[0] == '\0' || t[0] == '=' then 0 else 1 + End(t[1..])
  }

  predicate AllValid(t: string)
  {
    forall i :: 0 <= i < |t| ==> ValidChar(t[i])
  }

  function Values(t: string): (s: seq<nat>)
    requires AllValid(t)
    ensures |s| == |t| && forall i :: 0 <= i < |s| ==> s[i] == Value(t[i]) < 64
  {
    seq(|t|, i requires 0 <= i < |t| => Value(t[i]))
  }

  /** What the decoder reads from a terminated text is what the encoder was given. */
  lemma {:induction false} RoundTrip(x: bytes, rest: string)
    ensures var t := Encoded(x) + ['\0'] + rest;
            AllValid(t[..End(t)]) && Octets(Values(t[..End(t)])) == x
  {
    hide End, Char, ValidChar, Value, Sextet;
    var t, n := Encoded(x) + ['\0'] + rest, SextetCount(|x|);
    forall j | 0 <= j < n
      ensures ValidChar(t[j]) && Value(t[j]) == Sextet(x, j) && t[j] != '=' && t[j] != '\0'
    {
      Tables(Sextet(x, j), ' ');
    }
    assert t[n] == '=' || t[n] == '\0';
    assert End(t) == n;
    assert Values(t[..n]) == Sextets(x);
    GroupsRoundTrip(x);
  }

  // ---------- the encoder's shift register ----------

  /** `(i_bits << 6 >> i_shift) & 0x3f` on 32-bit unsigned numbers. */
  function Emit(bits: nat, shift: nat): (v: nat)
    ensures v < 64
  {
    bits * 64 % WORD / Pow2(shift) % 64
  }

  lemma {:induction false} Powers()
    ensures Pow2(2) == 4 && Pow2(4) == 16 && Pow2(6) == 64 && Pow2(8) == 256
    ensures Pow2(10) == 1024 && Pow2(12) == 4096 && Pow2(14) == 16384
  {
    assert Pow2(2) == 4 && Pow2(4) == 16 && Pow2(6) == 64 && Pow2(8) == 256;
    assert Pow2(10) == 4 * Pow2(8) && Pow2(12) == 4 * Pow2(10);
  }

  predicate Shift(s: int)
  {
    s == 2 || s == 4 || s == 6 || s == 8 || s == 10 || s == 12 || s == 14
  }

  /** The value sent at each shift, from the last two bytes `a` and `b` of the register. */
  function Sent(a: nat, b: nat, shift: int): (v: nat)
  {
    if shift == 2 then b % 4 * 16
    else if shift == 4 then b % 16 * 4
    else if shift == 6 then b % 64
    else if shift == 8 then b / 4
    else if shift == 10 then a % 4 * 16 + b / 16
    else if shift == 12 then a % 16 * 4 + b / 64
    else a % 64
  }

  lemma {:induction false} Overflow(h: nat, a: nat, b: nat)
    requires a < 256 && b < 256
    ensures (h * 0x10000 + a * 256 + b) * 64 % WORD == h % 1024 * 0x40_0000 + a * 0x4000 + b * 64
  {
    Quotient((h * 0x10000 + a * 256 + b) * 64, WORD, h / 1024, h % 1024 * 0x40_0000 + a * 0x4000 + b * 64);
  }

  lemma {:induction false} EmitSent(h: nat, a: nat, b: nat, shift: int)
    requires a < 256 && b < 256 && Shift(shift)
    ensures Emit(h * 0x10000 + a * 256 + b, shift) == Sent(a, b, shift)
  {
    Overflow(h, a, b);
    Powers();
    hide Pow2;
    var g := h % 1024;
    if shift == 2 {
      Quotient(g * 0x40_0000 + a * 0x4000 + b * 64, 4, g * 0x10_0000 + a * 0x1000 + b * 16, 0);
      Quotient(g * 0x10_0000 + a * 0x1000 + b * 16, 64, g * 0x4000 + a * 0x40 + b / 4, b % 4 * 16);
    } else if shift == 4 {
      Quotient(g * 0x40_0000 + a * 0x4000 + b * 64, 16, g * 0x4_0000 + a * 0x400 + b * 4, 0);
      Quotient(g * 0x4_0000 + a * 0x400 + b * 4, 64, g * 0x1000 + a * 0x10 + b / 16, b % 16 * 4);
    } else if shift == 6 {
      Quotient(g * 0x40_0000 + a * 0x4000 + b * 64, 64, g * 0x1_0000 + a * 0x100 + b, 0);
      Quotient(g * 0x1_0000 + a * 0x100 + b, 64, g * 0x400 + a * 4 + b / 64, b % 64);
    } else if shift == 8 {
      Quotient(g * 0x40_0000 + a * 0x4000 + b * 64, 256, g * 0x4000 + a * 0x40 + b / 4, b % 4 * 64);
      Quotient(g * 0x4000 + a * 0x40 + b / 4, 64, g * 0x100 + a, b / 4);
    } else if shift == 10 {
      Quotient(g * 0x40_0000 + a * 0x4000 + b * 64, 1024, g * 0x1000 + a * 0x10 + b / 16, b % 16 * 64);
      Quotient(g * 0x1000 + a * 0x10 + b / 16, 64, g * 0x40 + a / 4, a % 4 * 16 + b / 16);
    } else if shift == 12 {
      Quotient(g * 0x40_0000 + a * 0x4000 + b * 64, 4096, g * 0x400 + a * 4 + b / 64, b % 64 * 64);
      Quotient(g * 0x400 + a * 4 + b / 64, 64, g * 0x10 + a / 16, a % 16 * 4 + b / 64);
    } else {
      Quotient(g * 0x40_0000 + a * 0x4000 + b * 64, 16384, g * 0x100 + a, b * 64);
      Quotient(g * 0x100 + a, 64, g * 4 + a / 64, a % 64);
    }
  }

  /** The register ends with the last two bytes read. */
  ghost predicate Holds(bits: nat, x: bytes, n: nat)
    requires n <= |x|
  {
    && (n >= 1 ==> bits % 256 == x[n - 1] as nat)
    && (n >= 2 ==> bits % 0x10000 == x[n - 2] as nat * 256 + x[n - 1] as nat)
  }

  lemma {:induction false} HoldsStep(bits: nat, x: bytes, n: nat)
    requires n < |x| && Holds(bits, x, n)
    ensures Holds((bits * 256 % WORD + x[n] as nat) % WORD, x, n + 1)
  {
    var h, l, b := bits / 256, bits % 256, x[n] as nat;
    Quotient(bits * 256, WORD, h / 0x10000, h % 0x10000 * 0x10000 + l * 256);
    Quotient(h % 0x10000 * 0x10000 + l * 256 + b, WORD, 0, h % 0x10000 * 0x10000 + l * 256 + b);
    Quotient(h % 0x10000 * 0x10000 + l * 256 + b, 256, h % 0x10000 * 0x100 + l, b);
    Quotient(h % 0x10000 * 0x10000 + l * 256 + b, 0x10000, h % 0x10000, l * 256 + b);
    if n >= 2 {
      var q, r := DivMod(bits, 0x10000);
      Quotient(bits, 0x10000, q, r);
    }
  }

  /** The register is its last two bytes below the rest. */
  lemma {:induction false} Register(x: bytes, n: nat, bits: nat) returns (h: nat, a: nat, b: nat)
    requires 1 <= n <= |x| && Holds(bits, x, n)
    ensures bits == h * 0x10000 + a * 256 + b && a < 256 && b < 256
    ensures b == x[n - 1] as nat && (n >= 2 ==> a == x[n - 2] as nat)
  {
    var r;
    h, r := DivMod(bits, 0x10000);
    Quotient(bits, 0x10000, h, r);
    a, b := DivMod(r, 256);
    Quotient(bits, 256, h * 256 + a, b);
    if n >= 2 {
      Quotient(r, 256, x[n - 2] as nat, x[n - 1] as nat);
      Quotient(r, 256, a, b);
    }
  }

  lemma {:induction false} ShiftOf(n: nat, e: nat, shift: int)
    requires shift == 8 * n - 6 * e && 0 < shift <= 14
    ensures Shift(shift)
  {
    EvenShift(4 * n - 3 * e, shift);
  }

  lemma {:induction false} EvenShift(k: int, shift: int)
    requires shift == 2 * k && 0 < shift <= 14
    ensures Shift(shift)
  {
    assert k == 1 || k == 2 || k == 3 || k == 4 || k == 5 || k == 6 || k == 7;
  }

  /** Before all bits are written there is a group left; after that there is none. */
  lemma {:induction false} CountOf(n: nat, e: nat, all: nat)
    requires n <= all
    ensures 6 * e < 8 * n ==> e < SextetCount(all)
    ensures -4 <= 8 * n - 6 * e <= 0 ==> e == SextetCount(n)
  {
    var q, r := DivMod(4 * all + 2, 3);
    Quotient(4 * all + 2, 3, q, r);
    if -4 <= 8 * n - 6 * e <= 0 {
      Quotient(4 * n + 2, 3, e, 4 * n + 2 - 3 * e);
    }
  }

  /** With `n` bytes read and `e` groups written, the next group written is the right one. */
  lemma {:induction false} EmitRight(x: bytes, n: nat, e: nat, bits: nat, shift: int)
    requires 1 <= n <= |x| && Holds(bits, x, n) && shift == 8 * n - 6 * e && 0 < shift <= 14
    requires shift > 6 || n == |x|
    ensures Emit(bits, shift) == Sextet(x, e)
  {
    hide Emit, Sextet, Next, Sent, Holds, Shift, Part;
    var h, a, b := Register(x, n, bits);
    ShiftOf(n, e, shift);
    EmitSent(h, a, b, shift);
    var q, r := e / 4, e % 4;
    Group(x, q, r);
    SentIsPart(x, n, q, r, a, b, shift);
  }

  lemma {:induction false} SentIsPart(x: bytes, n: nat, q: nat, r: nat, a: nat, b: nat, shift: int)
    requires 1 <= n <= |x| && r < 4 && shift == 8 * n - 6 * (4 * q + r) && Shift(shift)
    requires shift > 6 || n == |x|
    requires b == x[n - 1] as nat && (n >= 2 ==> a == x[n - 2] as nat)
    ensures Sent(a, b, shift) == Part(x, q, r)
  {
    assert b == Next(x, n - 1) && (n >= 2 ==> a == Next(x, n - 2)) && (n == |x| ==> Next(x, n) == 0);
    hide Next;
    assert r == 0 || r == 1 || r == 2 || r == 3;
  }

  /** The first `e` groups are written and nothing else is changed. */
  ghost predicate Written(out: string, was: string, x: bytes, e: nat)
  {
    && |out| == |was|
    && (forall j :: 0 <= j < e && j < |out| ==> out[j] == Char(Sextet(x, j)))
    && (forall j :: e <= j < |out| ==> out[j] == was[j])
  }

  lemma {:induction false} WrittenStep(out: string, was: string, x: bytes, e: nat)
    requires Written(out, was, x, e) && e < |out|
    ensures Written(out[e := Char(Sextet(x, e))], was, x, e + 1)
  {
    hide Char, Sextet;
  }

  /** One turn of the inner loop. */
  method Put(out: array<char>, x: bytes, n: nat, e: nat, bits: nat, shift: int, ghost was: string)
    requires 1 <= n <= |x| && Holds(bits, x, n) && shift == 8 * n - 6 * e && 0 < shift <= 14
    requires (shift > 6 || n == |x|) && SextetCount(|x|) <= out.Length && Written(out[..], was, x, e)
    modifies out
    ensures Written(out[..], was, x, e + 1)
  {
    hide Emit, Sextet, Char, Holds, Written, SextetCount;
    CountOf(n, e, |x|);
    EmitRight(x, n, e, bits, shift);
    WrittenStep(out[..], was, x, e);
    ghost var before := out[..];
    out[e] := Char(Emit(bits, shift));
    assert out[..] == before[e := Char(Sextet(x, e))];
  }

  /** The two nested loops of base64_encode. */
  method PutAll(out: array<char>, x: bytes) returns (e: nat)
    requires SextetCount(|x|) <= out.Length
    modifies out
    ensures e == SextetCount(|x|) && Written(out[..], old(out[..]), x, e)
  {
    ghost var was := out[..];
    var bits, shift, n := 0, 0, 0;
    e := 0;
    hide Holds, Written, SextetCount;
    StartsEmpty(x, was);
    while n < |x|
      invariant 0 <= n <= |x| && shift == 8 * n - 6 * e && bits >= 0
      invariant if n == |x| then -4 <= shift <= 0 else 0 <= shift <= 6
      invariant Holds(bits, x, n) && Written(out[..], was, x, e)
    {
      HoldsStep(bits, x, n);
      bits := (bits * 256 % WORD + x[n] as nat) % WORD;
      n := n + 1;
      shift := shift + 8;
      Put(out, x, n, e, bits, shift, was);
      shift, e := shift - 6, e + 1;
      while shift > 6 || (n == |x| && shift > 0)
        invariant shift == 8 * n - 6 * e && -4 <= shift <= 8 && (n < |x| ==> 0 < shift)
        invariant Written(out[..], was, x, e)
        decreases shift
      {
        Put(out, x, n, e, bits, shift, was);
        shift, e := shift - 6, e + 1;
      }
    }
    CountOf(n, e, |x|);
  }

  lemma {:induction false} StartsEmpty(x: bytes, was: string)
    ensures Holds(0, x, 0) && Written(was, was, x, 0)
  {
  }

  /** `out` is `mid` with padding and a terminator after the first `e` characters. */
  ghost predicate Ended(out: string, mid: string, e: nat)
  {
    var d := e + Padding(e);
    && |out| == |mid| && d < |out| && out[d] == '\0'
    && (forall j :: 0 <= j < e || d < j < |out| ==> out[j] == mid[j])
    && (forall j :: e <= j < d ==> out[j] == '=')
  }

  /** The last loop of base64_encode. */
  method Finish(out: array<char>, e: nat)
    requires e + Padding(e) < out.Length
    modifies out
    ensures Ended(out[..], old(out[..]), e)
  {
    var d := e;
    while d % 4 != 0
      invariant e <= d <= e + Padding(e)
      invariant forall j :: 0 <= j < e || d <= j < out.Length ==> out[j] == old(out[j])
      invariant forall j :: e <= j < d ==> out[j] == '='
      decreases e + Padding(e) - d
    {
      out[d] := '=';
      d := d + 1;
    }
    out[d] := '\0';
  }

  lemma {:induction false} Assembled(out: string, mid: string, was: string, x: bytes)
    requires Written(mid, was, x, SextetCount(|x|)) && Ended(out, mid, SextetCount(|x|))
    ensures |out| == |was| && Base64Size(|x|) <= |was|
    ensures out == Encoded(x) + ['\0'] + was[Base64Size(|x|)..]
  {
    hide Char, Sextet, SextetCount;
    EncodedSize(|x|);
    var d := |Encoded(x)|;
    assert out[..d] == Encoded(x);
    assert out[d + 1..] == was[d + 1..];
    assert out == out[..d] + [out[d]] + out[d + 1..];
  }

  /** base64_encode, src/base64.c:77-103: the text, its padding and a terminator, in exactly
      Base64Size characters. */
  method Encode(out: array<char>, outSize: int, x: bytes) returns (ok: bool)
    requires outSize <= out.Length
    modifies out
    ensures ok <==> |x| < UINT_MAX / 4 && outSize >= Base64Size(|x|)
    ensures ok ==> Base64Size(|x|) <= out.Length
                   && out[..] == Encoded(x) + ['\0'] + old(out[..])[Base64Size(|x|)..]
    ensures ok ==> IsText(x, out[..Base64Size(|x|) - 1])
    ensures !ok ==> out[..] == old(out[..])
  {
    hide Sextet, Char, IsText;
    if |x| >= UINT_MAX / 4 || outSize < Base64Size(|x|) {
      return false;
    }
    EncodedSize(|x|);
    ghost var was := out[..];
    var e := PutAll(out, x);
    ghost var mid := out[..];
    Finish(out, e);
    ok := true;
    Assembled(out[..], mid, was, x);
    EncodedIsText(x);
    assert out[..Base64Size(|x|) - 1] == Encoded(x);
  }

  // ---------- the decoder's shift register ----------

  /** `(uint8_t)(v >> (6 - 2 * (i & 3)))`. */
  function Cut(v: nat, i: nat): (b: byte)
    requires i % 4 != 0
  {
    if i % 4 == 1 then (v / 16 % 256) as byte
    else if i % 4 == 2 then (v / 4 % 256) as byte
    else (v % 256) as byte
  }

  ghost predicate Keeps(v: nat, s: seq<nat>, i: nat)
    requires i <= |s|
  {
    && (i >= 1 ==> v % 64 == s[i - 1])
    && (i >= 2 ==> v % 4096 == s[i - 2] * 64 + s[i - 1])
  }

  lemma {:induction false} KeepsStep(v: nat, s: seq<nat>, i: nat)
    requires i < |s| && Keeps(v, s, i) && s[i] < 64
    ensures Keeps((v * 64 % WORD + s[i]) % WORD, s, i + 1)
  {
    var h, l, b := v / 64, v % 64, s[i];
    Quotient(v * 64, WORD, h / 0x10_0000, h % 0x10_0000 * 4096 + l * 64);
    Quotient(h % 0x10_0000 * 4096 + l * 64 + b, WORD, 0, h % 0x10_0000 * 4096 + l * 64 + b);
    Quotient(h % 0x10_0000 * 4096 + l * 64 + b, 64, h % 0x10_0000 * 64 + l, b);
    Quotient(h % 0x10_0000 * 4096 + l * 64 + b, 4096, h % 0x10_0000, l * 64 + b);
  }

  lemma {:induction false} CutRight(v: nat, s: seq<nat>, i: nat)
    requires i < |s| && Keeps(v, s, i + 1) && i % 4 != 0 && forall j :: 0 <= j < |s| ==> s[j] < 64
    ensures var k := OctetCount(i); k + k / 3 + 1 == i && Cut(v, i) == Octet(s, k)
  {
    var h, a, b := v / 4096, s[i - 1], s[i];
    assert v == h * 4096 + a * 64 + b;
    var q, r := i / 4, i % 4;
    assert i == 4 * q + r && OctetCount(i) == 3 * q + (r - 1);
    Quotient(3 * q + (r - 1), 3, q, r - 1);
    CutValue(h, a, b, i);
  }

  lemma {:induction false} CutValue(h: nat, a: nat, b: nat, i: nat)
    requires a < 64 && b < 64 && i % 4 != 0
    ensures var v := h * 4096 + a * 64 + b;
            Cut(v, i) as nat == if i % 4 == 1 then a * 4 + b / 16
                                else if i % 4 == 2 then a % 16 * 16 + b / 4
                                else a % 4 * 64 + b
  {
    var v := h * 4096 + a * 64 + b;
    if i % 4 == 1 {
      Quotient(v, 16, h * 256 + a * 4 + b / 16, b % 16);
      Quotient(h * 256 + a * 4 + b / 16, 256, h, a * 4 + b / 16);
    } else if i % 4 == 2 {
      Quotient(v, 4, h * 1024 + a * 16 + b / 4, b % 4);
      Quotient(h * 1024 + a * 16 + b / 4, 256, h * 4 + a / 16, a % 16 * 16 + b / 4);
    } else {
      Quotient(v, 256, h * 16 + a / 4, a % 4 * 64 + b);
    }
  }

  lemma {:induction false} OctetPrefix(s: seq<nat>, i: nat, k: nat)
    requires i <= |s| && k < OctetCount(i) && forall j :: 0 <= j < |s| ==> s[j] < 64
    ensures k < OctetCount(|s|) && Octet(s[..i], k) == Octet(s, k)
  {
    assert k + k / 3 + 1 < i;
  }

  /** How many of `n` bytes fit. */
  function Fit(n: nat, size: int): (m: nat)
  {
    if size < 0 then 0 else if n < size then n else size
  }

  /** As many bytes of `s` as fit are stored and nothing else is changed. */
  ghost predicate Filled(out: bytes, was: bytes, s: seq<nat>, size: int)
  {
    && |out| == |was| && size <= |was| && (forall j :: 0 <= j < |s| ==> s[j] < 64)
    && (forall k :: 0 <= k < Fit(OctetCount(|s|), size) ==> out[k] == Octet(s, k))
    && (forall j :: Fit(OctetCount(|s|), size) <= j < |was| ==> out[j] == was[j])
  }

  lemma {:induction false} CountStep(i: nat)
    ensures OctetCount(i + 1) == OctetCount(i) + if i % 4 == 0 then 0 else 1
  {
    var q, r := i / 4, i % 4;
    assert i == 4 * q + r && OctetCount(i) == 3 * q + (if r == 0 then 0 else r - 1);
  }

  lemma {:induction false} FilledStep(out: bytes, was: bytes, s: seq<nat>, i: nat, size: int)
    requires i + 1 == |s| && s[i] < 64 && Filled(out, was, s[..i], size)
    ensures var n := Fit(OctetCount(i), size);
            && (forall j :: 0 <= j < |s| ==> s[j] < 64) && n <= |out| && size <= |out|
            && (i % 4 == 0 || n >= size ==> Filled(out, was, s, size) && Fit(OctetCount(i + 1), size) == n)
            && (i % 4 != 0 && n < size ==>
                  && Fit(OctetCount(i + 1), size) == n + 1 && n == OctetCount(i)
                  && Filled(out[n := Octet(s, n)], was, s, size))
  {
    CountStep(i);
    hide Octet;
    assert forall j :: 0 <= j < i ==> s[j] == s[..i][j];
    forall k | 0 <= k < OctetCount(i) ensures Octet(s[..i], k) == Octet(s, k) {
      OctetPrefix(s, i, k);
    }
    hide OctetCount;
  }

  /** What the loop of base64_decode does with the value of one character. */
  method Store(out: array<byte>, v: nat, i: nat, n: nat, size: int, ghost s: seq<nat>, ghost was: bytes)
    returns (n': nat)
    requires i + 1 == |s| && s[i] < 64 && Filled(out[..], was, s[..i], size) && Keeps(v, s, i + 1)
    requires n == Fit(OctetCount(i), size)
    modifies out
    ensures Filled(out[..], was, s, size) && n' == Fit(OctetCount(i + 1), size)
  {
    hide Filled, Keeps, Octet, Cut, OctetCount, Fit;
    n' := n;
    FilledStep(out[..], was, s, i, size);
    if i % 4 != 0 {
      CutRight(v, s, i);
      if n < size {
        ghost var before := out[..];
        out[n] := Cut(v, i);
        assert out[..] == before[n := Octet(s, n)];
        n' := n + 1;
      }
    }
  }

  lemma {:induction false} FilledResult(out: bytes, was: bytes, s: seq<nat>, size: int)
    requires Filled(out, was, s, size)
    ensures (forall j :: 0 <= j < |s| ==> s[j] < 64) && |out| == |was|
    ensures var n := Fit(OctetCount(|s|), size);
            n <= |Octets(s)| && n <= |was| && out == Octets(s)[..n] + was[n..]
    ensures forall j :: 0 <= j < |out| && j >= size ==> out[j] == was[j]
  {
    hide Octet;
  }

  lemma {:induction false} NothingRead(was: bytes, size: int)
    requires size <= |was|
    ensures Filled(was, was, [], size) && Keeps(0, [], 0) && Fit(OctetCount(0), size) == 0
  {
  }

  lemma {:induction false} ValuesStep(t: string, i: nat)
    requires i < |t| && AllValid(t[..i]) && ValidChar(t[i])
    ensures AllValid(t[..i + 1]) && Values(t[..i + 1])[..i] == Values(t[..i]) && Values(t[..i + 1])[i] == Value(t[i])
  {
    hide ValidChar, Value;
    assert forall j :: 0 <= j < i ==> t[..i + 1][j] == t[..i][j];
  }

  lemma {:induction false} KeepsPrefix(v: nat, s: seq<nat>, i: nat)
    requires i < |s| && Keeps(v, s[..i], i)
    ensures Keeps(v, s, i)
  {
  }

  /** base64_decode, src/base64.c:50-70, on a C string. */
  method Decode(out: array<byte>, t: string, outSize: int) returns (n: int)
    requires '\0' in t && outSize <= out.Length
    modifies out
    ensures n == -1 <==> !AllValid(t[..End(t)])
    ensures n != -1 ==>
              var x := Octets(Values(t[..End(t)]));
              n == Fit(|x|, outSize) && out[..] == x[..n] + old(out[..])[n..]
    ensures forall j :: 0 <= j < out.Length && j >= outSize ==> out[j] == old(out[j])
  {
    hide Filled, Keeps, Octet, Octets, OctetCount, Fit, Value;
    ghost var was, len := out[..], End(t);
    var i, v := 0, 0;
    n := 0;
    NothingRead(was, outSize);
    assert len < |t| && t[..0] == [];
    while t[i] != '\0' && t[i] != '='
      invariant 0 <= i <= len && v >= 0 && AllValid(t[..i]) && Keeps(v, Values(t[..i]), i)
      invariant n == Fit(OctetCount(i), outSize) && Filled(out[..], was, Values(t[..i]), outSize)
      decreases len - i
    {
      var index := t[i] as int - 43;
      if !(0 <= index < 80) || Map2(index) == INVALID {
        assert t[..len][i] == t[i] && !ValidChar(t[i]);
        FilledResult(out[..], was, Values(t[..i]), outSize);
        return -1;
      }
      ValuesStep(t, i);
      ghost var s := Values(t[..i + 1]);
      ValueIs(t[i]);
      KeepsPrefix(v, s, i);
      KeepsStep(v, s, i);
      v := (v * 64 % WORD + Map2(index)) % WORD;
      n := Store(out, v, i, n, outSize, s, was);
      i := i + 1;
    }
    FilledResult(out[..], was, Values(t[..i]), outSize);
    assert i == len;
    OctetsLength(Values(t[..i]));
  }

  lemma {:induction false} ValueIs(c: char)
    requires ValidChar(c)
    ensures Value(c) == Map2(c as int - 43) < 64
  {
  }

  lemma {:induction false} OctetsLength(s: seq<nat>)
    requires forall i :: 0 <= i < |s| ==> s[i] < 64
    ensures |Octets(s)| == OctetCount(|s|)
  {
  }
}

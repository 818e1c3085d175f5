/** Sixteen-bit words, bytes and the pure bit-level helpers of the LC-3 virtual
    machine: sign extension, byte swapping, bitwise AND, the condition-flag rule
    and the instruction-field decoders. Words are integers in 0 .. 0xFFFF; every
    operation that can leave that range in C (`uint16_t` arithmetic) is reduced
    modulo 2^16 explicitly. */
module Bits {

  /** A `uint16_t`. */
  type Word = x: int | 0 <= x < 0x10000

  /** A byte, as `putc` writes it and `getchar` reads it. */
  type Byte = x: int | 0 <= x < 0x100

  /** The condition codes held in COND (`FL_POS`, `FL_ZRO`, `FL_NEG`). */
  const FL_POS: Word := 1
  const FL_ZRO: Word := 2
  const FL_NEG: Word := 4

  /** 2^n. */
  function Pow2(n: nat): (p: nat)
    ensures p >= 1
  {
    if n == 0 then 1 else 2 * Pow2(n - 1)
  }

  /** 2^(a + b) == 2^a * 2^b. */
  lemma {:induction false} Pow2Add(a: nat, b: nat)
    ensures Pow2(a + b) == Pow2(a) * Pow2(b)
  {
    if a > 0 {
      Pow2Add(a - 1, b);
    }
  }

  /** 2^7, 2^15 and 2^16: the sign bits of a byte and a word, and the word width. */
  lemma Pow2Word()
    ensures Pow2(7) == 0x80 && Pow2(15) == 0x8000 && Pow2(16) == 0x10000
  {
    assert Pow2(4) == 16;
    assert Pow2(8) == 256 by { Pow2Add(4, 4); }
    assert Pow2(7) == 128;
    Pow2Add(8, 8);
    Pow2Add(7, 8);
  }

  /** Bit `i` of `w` (`(w >> i) & 1`). */
  predicate Bit(w: Word, i: nat)
  {
    (w / Pow2(i)) % 2 == 1
  }

  /** `uint16_t` addition: the sum modulo 2^16. */
  function Add16(a: Word, b: Word): (r: Word)
    ensures r == a + b || r == a + b - 0x10000
  {
    (a + b) % 0x10000
  }

  /** Adding a value reduced modulo 2^16 is adding the value, modulo 2^16. */
  lemma AddWrapped(a: Word, f: int)
    ensures Add16(a, f % 0x10000) == (a + f) % 0x10000
  {
    var s := a + f % 0x10000;
    DivModUnique(a + f, 0x10000, f / 0x10000 + s / 0x10000, s % 0x10000);
  }

  /** `~x` on a `uint16_t`. */
  function Not16(x: Word): (r: Word)
    ensures Add16(x, r) == 0xFFFF
  {
    0xFFFF - x
  }

  /** `a & b`, bit by bit from the lowest. */
  function BitAnd(a: nat, b: nat): (r: nat)
    ensures r <= a && r <= b
    decreases a
  {
    if a == 0 || b == 0 then 0
    else 2 * BitAnd(a / 2, b / 2) + (if a % 2 == 1 && b % 2 == 1 then 1 else 0)
  }

  /** The law of `&`: bit `i` of `a & b` is set iff bit `i` is set in both. */
  lemma {:induction false} BitAndBits(a: nat, b: nat, i: nat)
    ensures (BitAnd(a, b) / Pow2(i)) % 2 == 1 <==>
      (a / Pow2(i)) % 2 == 1 && (b / Pow2(i)) % 2 == 1
    decreases i
  {
    if a != 0 && b != 0 {
      var r, bit := BitAnd(a, b), if a % 2 == 1 && b % 2 == 1 then 1 else 0;
      DivModUnique(r, 2, BitAnd(a / 2, b / 2), bit);
      if i > 0 {
        var p := Pow2(i - 1);
        assert Pow2(i) == 2 * p;
        DivTwice(r, p);
        DivTwice(a, p);
        DivTwice(b, p);
        assert r / Pow2(i) == BitAnd(a / 2, b / 2) / p;
        BitAndBits(a / 2, b / 2, i - 1);
      }
    }
  }

  /** AND with 2^k - 1 keeps the low `k` bits: `x & 0x1FF` is `x % 512`. */
  lemma {:induction false} BitAndLowMask(a: nat, k: nat)
    ensures BitAnd(a, Pow2(k) - 1) == a % Pow2(k)
    decreases a
  {
    if a != 0 && k != 0 {
      var p := Pow2(k - 1);
      var m := Pow2(k) - 1;
      assert m == 2 * (p - 1) + 1;
      DivModUnique(m, 2, p - 1, 1);
      assert BitAnd(a, m) == 2 * BitAnd(a / 2, p - 1) + a % 2;
      BitAndLowMask(a / 2, k - 1);
      DivModPow2(a, k);
    }
  }

  /** AND with a single bit 2^k tests that bit: `a & (1 << k)`. */
  lemma {:induction false} BitAndPow2(a: Word, k: nat)
    ensures BitAnd(a, Pow2(k)) == if Bit(a, k) then Pow2(k) else 0
    decreases k
  {
    if k == 0 {
      assert BitAnd(a / 2, 0) == 0;
    } else if a != 0 {
      var p := Pow2(k - 1);
      assert Pow2(k) / 2 == p && Pow2(k) % 2 == 0;
      BitAndPow2(a / 2, k - 1);
      DivTwice(a, p);
    }
  }

  /** Dividing by 2 and then by `p` is dividing by `2 * p`. */
  lemma DivTwice(a: nat, p: nat)
    requires p > 0
    ensures a / 2 / p == a / (2 * p)
  {
    var q, r := a / 2 / p, a / 2 % p;
    MulAssoc(q, p);
    DivModUnique(a, 2 * p, q, 2 * r + a % 2);
  }

  /** a % 2^k == 2 * ((a / 2) % 2^(k-1)) + a % 2. */
  lemma DivModPow2(a: nat, k: nat)
    requires k >= 1
    ensures a % Pow2(k) == 2 * ((a / 2) % Pow2(k - 1)) + a % 2
  {
    var p := Pow2(k - 1);
    var h, b := a / 2, a % 2;
    var q, s := h / p, h % p;
    assert a == 2 * h + b;
    assert h == q * p + s;
    MulAssoc(q, p);
    DivModUnique(a, 2 * p, q, 2 * s + b);
  }

  /** q * (2 * p) == 2 * (q * p). */
  lemma MulAssoc(q: int, p: int)
    ensures q * (2 * p) == 2 * (q * p)
  {
  }

  /** x * p >= p for a positive multiple. */
  lemma {:induction false} MulAtLeast(x: int, p: int)
    requires x >= 1 && p > 0
    ensures x * p >= p
    decreases x
  {
    if x > 1 {
      MulAtLeast(x - 1, p);
      assert x * p == (x - 1) * p + p;
    }
  }

  /** (x - y) * p == x * p - y * p. */
  lemma MulSubDistrib(x: int, y: int, p: int)
    ensures (x - y) * p == x * p - y * p
  {
  }

  /** Quotient and remainder are the only pair that rebuilds `a`. */
  lemma DivModUnique(a: int, p: int, q: int, r: int)
    requires p > 0 && 0 <= r < p && a == q * p + r
    ensures a / p == q && a % p == r
  {
    var q', r' := a / p, a % p;
    assert a == q' * p + r';
    MulSubDistrib(q, q', p);
    MulSubDistrib(q', q, p);
    if q > q' {
      MulAtLeast(q - q', p);
    } else if q < q' {
      MulAtLeast(q' - q, p);
    }
  }

  /** A word read as a 16-bit two's-complement number. */
  function ToSigned(w: Word): (v: int)
    ensures -0x8000 <= v < 0x8000
    ensures v < 0 <==> w >= 0x8000
  {
    if w < 0x8000 then w else w - 0x10000
  }

  /** `sign_extend(data, bit_length)`: when bit `n - 1` of `data` is set, every bit
      from `n` to 15 becomes one, the low `n` bits staying as they are; otherwise
      `data` is returned unchanged. `(0xFFFF << n) | data`, truncated to 16 bits,
      is `data % 2^n + (2^16 - 2^n)`. */
  function SignExtend(data: Word, n: nat): (r: Word)
    requires 1 <= n <= 16
    ensures !Bit(data, n - 1) ==> r == data
    ensures Bit(data, n - 1) ==>
      r % Pow2(n) == data % Pow2(n) && r / Pow2(n) == Pow2(16 - n) - 1
  {
    if Bit(data, n - 1) then
      Pow2Add(n, 16 - n);
      Pow2Word();
      HighFill(data % Pow2(n), Pow2(n), Pow2(16 - n));
      data % Pow2(n) + (0x10000 - Pow2(n))
    else data
  }

  /** Filling the bits above a low part `low < p` up to 2^16 == p * q. */
  lemma HighFill(low: nat, p: nat, q: nat)
    requires low < p && q >= 1 && p * q == 0x10000
    ensures low + 0x10000 - p < 0x10000 && p <= 0x10000
    ensures (low + 0x10000 - p) % p == low && (low + 0x10000 - p) / p == q - 1
  {
    MulAtLeast(q, p);
    MulSubDistrib(q, 1, p);
    LowPlusMultiple(low, q - 1, p);
  }

  /** (low + k * p) splits back into k and low when low < p. */
  lemma LowPlusMultiple(low: nat, k: nat, p: nat)
    requires low < p
    ensures (low + k * p) % p == low && (low + k * p) / p == k
  {
    DivModUnique(low + k * p, p, k, low);
  }

  /** The value of an `n`-bit two's-complement field whose bits are `d`. */
  function FieldValue(d: nat, n: nat): int
    requires n >= 1
  {
    if d < Pow2(n - 1) then d else d - Pow2(n)
  }

  /** 2^a <= 2^b when a <= b. */
  lemma {:induction false} Pow2Monotone(a: nat, b: nat)
    requires a <= b
    ensures Pow2(a) <= Pow2(b)
    decreases b
  {
    if a < b {
      Pow2Monotone(a, b - 1);
    }
  }

  /** Sign-extending an `n`-bit field keeps its two's-complement value: this is
      what makes `PC + sign_extend(offset, 9)` step backwards for a negative
      offset. */
  lemma SignExtendValue(d: Word, n: nat)
    requires 1 <= n <= 16 && d < Pow2(n)
    ensures ToSigned(SignExtend(d, n)) == FieldValue(d, n)
  {
    TopBit(d, n);
    Pow2Monotone(n - 1, 15);
    Pow2Word();
    if d >= Pow2(n - 1) {
      DivModUnique(d, Pow2(n), 0, d);
    }
  }

  /** The top bit of an `n`-bit field is set exactly when the field is at least
      2^(n-1). */
  lemma TopBit(d: Word, n: nat)
    requires 1 <= n && d < Pow2(n)
    ensures Bit(d, n - 1) <==> d >= Pow2(n - 1)
  {
    var h := Pow2(n - 1);
    if d >= h {
      DivModUnique(d, h, 1, d - h);
    } else {
      DivModUnique(d, h, 0, d);
    }
  }

  /** Sign extension reduces the field's signed value modulo 2^16: adding the
      result to a word is adding the signed offset with 16-bit wrap-around. */
  lemma SignExtendMod(d: Word, n: nat)
    requires 1 <= n <= 16 && d < Pow2(n)
    ensures SignExtend(d, n) == FieldValue(d, n) % 0x10000
  {
    var w, v := SignExtend(d, n), FieldValue(d, n);
    SignExtendValue(d, n);
    if w < 0x8000 {
      DivModUnique(v, 0x10000, 0, w);
    } else {
      DivModUnique(v, 0x10000, -1, w);
    }
  }

  /** The low byte of a word, as `(char)w` hands it to `putc`. */
  function LowByte(w: Word): (b: Byte)
    ensures b == w % 0x100
  {
    w % 0x100
  }

  /** The high byte of a word. */
  function HighByte(w: Word): (b: Byte)
    ensures b == w / 0x100
  {
    w / 0x100
  }

  /** A word is its high byte times 256 plus its low byte. */
  lemma ByteSplit(w: Word)
    ensures HighByte(w) * 0x100 + LowByte(w) == w
  {
  }

  /** Bit 7 of a word is the top bit of its low byte. */
  lemma LowByteSign(w: Word)
    ensures Bit(w, 7) <==> LowByte(w) >= 0x80
  {
    Pow2Word();
    var q, l := w / 0x100, w % 0x100;
    DivModUnique(w, 0x80, 2 * q + l / 0x80, l % 0x80);
    DivModUnique(2 * q + l / 0x80, 2, q, l / 0x80);
  }

  /** `swap16`: `(x << 8) | (x >> 8)` on a `uint16_t` exchanges the two bytes. */
  function Swap16(x: Word): (r: Word)
    ensures LowByte(r) == HighByte(x) && HighByte(r) == LowByte(x)
  {
    LowByte(x) * 0x100 + HighByte(x)
  }

  /** Swapping twice gives the word back. */
  lemma Swap16Involution(x: Word)
    ensures Swap16(Swap16(x)) == x
  {
  }

  /** The word `fread` delivers on a little-endian host for the two file bytes
      `first`, `second` (in file order). */
  function HostWord(first: Byte, second: Byte): Word
  {
    second * 0x100 + first
  }

  /** `swap16` of a host-read word is the big-endian reading of its two bytes. */
  lemma SwapReadsBigEndian(first: Byte, second: Byte)
    ensures Swap16(HostWord(first, second)) == first * 0x100 + second
  {
  }

  /** The flag rule of `update_flag`: zero, negative (bit 15 set) or positive. */
  function FlagOf(d: Word): (f: Word)
    ensures f == FL_POS || f == FL_ZRO || f == FL_NEG
    ensures f == FL_ZRO <==> d == 0
    ensures f == FL_NEG <==> Bit(d, 15)
    ensures f == FL_NEG <==> ToSigned(d) < 0
    ensures f == FL_POS <==> ToSigned(d) > 0
  {
    Pow2Word();
    if d == 0 then FL_ZRO else if d / 0x8000 != 0 then FL_NEG else FL_POS
  }

  // Instruction fields.

  /** Bits 15..12: the opcode. */
  function Opcode(instr: Word): (op: nat)
    ensures op < 16
  {
    instr / 0x1000
  }

  /** Bits 11..9: destination or source register (also BR's n/z/p mask). */
  function Field9(instr: Word): (r: nat)
    ensures r < 8
  {
    (instr / 0x200) % 8
  }

  /** Bits 8..6: first source or base register. */
  function Field6(instr: Word): (r: nat)
    ensures r < 8
  {
    (instr / 0x40) % 8
  }

  /** Bits 2..0: second source register. */
  function Field0(instr: Word): (r: nat)
    ensures r < 8
  {
    instr % 8
  }

  /** Bit 5 of ADD/AND (immediate mode): `(instr >> 5) & 0x1`. */
  predicate Flag5(instr: Word): (b: bool)
    ensures b <==> Bit(instr, 5)
    ensures b <==> BitAnd(instr / 0x20, 1) == 1
  {
    assert Pow2(5) == 0x20;
    BitAndLowMask(instr / 0x20, 1);
    (instr / 0x20) % 2 == 1
  }

  /** Bit 11 of JSR (PC-relative mode): `(instr >> 11) & 1`. */
  predicate Flag11(instr: Word): (b: bool)
    ensures b <==> Bit(instr, 11)
    ensures b <==> BitAnd(instr / 0x800, 1) == 1
  {
    Pow2Add(4, 7);
    Pow2Word();
    BitAndLowMask(instr / 0x800, 1);
    (instr / 0x800) % 2 == 1
  }

  /** The sign-extended immediate and offsets of the instruction formats: the
      word whose signed reading is the field's two's-complement value. */
  function Imm5(instr: Word): (r: Word)
    ensures ToSigned(r) == FieldValue(instr % 0x20, 5)
    ensures r == FieldValue(instr % 0x20, 5) % 0x10000
  {
    assert Pow2(5) == 0x20;
    SignExtendValue(instr % 0x20, 5);
    SignExtendMod(instr % 0x20, 5);
    SignExtend(instr % 0x20, 5)
  }

  function Offset6(instr: Word): (r: Word)
    ensures ToSigned(r) == FieldValue(instr % 0x40, 6)
    ensures r == FieldValue(instr % 0x40, 6) % 0x10000
  {
    assert Pow2(6) == 0x40;
    SignExtendValue(instr % 0x40, 6);
    SignExtendMod(instr % 0x40, 6);
    SignExtend(instr % 0x40, 6)
  }

  function Offset9(instr: Word): (r: Word)
    ensures ToSigned(r) == FieldValue(instr % 0x200, 9)
    ensures r == FieldValue(instr % 0x200, 9) % 0x10000
  {
    Pow2Word();
    assert Pow2(9) == 0x200;
    SignExtendValue(instr % 0x200, 9);
    SignExtendMod(instr % 0x200, 9);
    SignExtend(instr % 0x200, 9)
  }

  function Offset11(instr: Word): (r: Word)
    ensures ToSigned(r) == FieldValue(instr % 0x800, 11)
    ensures r == FieldValue(instr % 0x800, 11) % 0x10000
  {
    Pow2Add(4, 7);
    Pow2Word();
    SignExtendValue(instr % 0x800, 11);
    SignExtendMod(instr % 0x800, 11);
    SignExtend(instr % 0x800, 11)
  }

  /** Bits 7..0: the trap vector. */
  function TrapVector(instr: Word): (v: nat)
    ensures v < 0x100
  {
    instr % 0x100
  }
}

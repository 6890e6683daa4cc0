/**
  Display bytes. One byte is a column of eight pixels; bit 0 is the top pixel.
  `Bit` is the only view the other modules need: every operation on bytes below
  comes with a lemma that says what it does to each of the eight bits.
 */
module Bits {

  /** `1 << k` for a bit position. */
  function Mask(k: nat): bv8
    requires k < 8
  {
    match k
    case 0 => 0x01
    case 1 => 0x02
    case 2 => 0x04
    case 3 => 0x08
    case 4 => 0x10
    case 5 => 0x20
    case 6 => 0x40
    case _ => 0x80
  }

  predicate Bit(b: bv8, k: nat)
    requires k < 8
  {
    b & Mask(k) != 0
  }

  /** The byte whose bit `k` is `s[k]`. */
  function Pack(s: seq<bool>): (b: bv8)
    requires |s| == 8
    ensures forall k :: 0 <= k < 8 ==> Bit(b, k) == s[k]
  {
    (if s[0] then 0x01 else 0x00) | (if s[1] then 0x02 else 0x00) |
    (if s[2] then 0x04 else 0x00) | (if s[3] then 0x08 else 0x00) |
    (if s[4] then 0x10 else 0x00) | (if s[5] then 0x20 else 0x00) |
    (if s[6] then 0x40 else 0x00) | (if s[7] then 0x80 else 0x00)
  }

  /** A byte is determined by its bits. */
  lemma BitsDetermineByte(a: bv8, b: bv8)
    requires forall k :: 0 <= k < 8 ==> Bit(a, k) == Bit(b, k)
    ensures a == b
  {
    assert Bit(a, 0) == Bit(b, 0) && Bit(a, 1) == Bit(b, 1) && Bit(a, 2) == Bit(b, 2) && Bit(a, 3) == Bit(b, 3);
    assert Bit(a, 4) == Bit(b, 4) && Bit(a, 5) == Bit(b, 5) && Bit(a, 6) == Bit(b, 6) && Bit(a, 7) == Bit(b, 7);
  }

  /** The byte read from the other end: what `ssd1306_rotate_byte` is meant to compute. */
  function Reversed(b: bv8): (r: bv8)
    ensures forall k :: 0 <= k < 8 ==> Bit(r, k) == Bit(b, 7 - k)
  {
    Pack(seq(8, i requires 0 <= i < 8 => Bit(b, 7 - i)))
  }

  lemma ReversedInvolution(b: bv8)
    ensures Reversed(Reversed(b)) == b
  {
    forall k | 0 <= k < 8
      ensures Bit(Reversed(Reversed(b)), k) == Bit(b, k)
    {
      assert Bit(Reversed(Reversed(b)), k) == Bit(Reversed(b), 7 - k);
    }
    BitsDetermineByte(Reversed(Reversed(b)), b);
  }

  lemma ShiftRightBits(b: bv8, k: nat)
    requires k < 8
    ensures Bit(b >> 1, k) == (k < 7 && Bit(b, k + 1))
  {
  }

  lemma ShiftLeftAddBits(hi: bv8, lo: bv8, k: nat)
    requires k < 8
    ensures Bit((hi << 1) + (lo & 0x01), k) == if k == 0 then Bit(lo, 0) else Bit(hi, k - 1)
  {
  }

  /** `ssd1306_rotate_byte`: shifts the bits of one byte into another, eight times. */
  method RotateByte(ch: bv8) returns (ch2: bv8)
    ensures ch2 == Reversed(ch)
  {
    hide Bit, Reversed;
    var ch1 := ch;
    ch2 := 0;
    for j := 0 to 8
      invariant forall k :: 0 <= k < 8 ==> Bit(ch1, k) == (k + j < 8 && Bit(ch, k + j))
      invariant forall k :: 0 <= k < j ==> Bit(ch2, k) == Bit(ch, j - 1 - k)
    {
      var next2 := (ch2 << 1) + (ch1 & 0x01);
      var next1 := ch1 >> 1;
      forall k | 0 <= k < 8
        ensures Bit(next2, k) == if k == 0 then Bit(ch1, 0) else Bit(ch2, k - 1)
      {
        ShiftLeftAddBits(ch2, ch1, k);
      }
      forall k | 0 <= k < 8
        ensures Bit(next1, k) == (k < 7 && Bit(ch1, k + 1))
      {
        ShiftRightBits(ch1, k);
      }
      ch2, ch1 := next2, next1;
    }
    BitsDetermineByte(ch2, Reversed(ch));
  }

  lemma MasksDisjoint(j: nat, k: nat)
    requires j < 8 && k < 8
    ensures Mask(j) & Mask(k) == if j == k then Mask(j) else 0
    ensures Mask(j) != 0
  {
  }

  lemma OrMask(b: bv8, mk: bv8, mj: bv8)
    ensures mj & mk == 0 ==> (b | mk) & mj == b & mj
    ensures (b | mk) & mk == mk
  {
  }

  lemma SetBit(b: bv8, k: nat, j: nat)
    requires k < 8 && j < 8
    ensures Bit(b | Mask(k), j) == (j == k || Bit(b, j))
  {
    hide Mask;
    MasksDisjoint(j, k);
    OrMask(b, Mask(k), Mask(j));
  }

  lemma AndMask(b: bv8, mk: bv8, mj: bv8)
    ensures mj & mk == 0 ==> (b & !mk) & mj == b & mj
    ensures (b & !mk) & mk == 0
  {
  }

  lemma ClearBit(b: bv8, k: nat, j: nat)
    requires k < 8 && j < 8
    ensures Bit(b & !Mask(k), j) == (j != k && Bit(b, j))
  {
    hide Mask;
    MasksDisjoint(j, k);
    AndMask(b, Mask(k), Mask(j));
  }

  /** One bit of a byte set or cleared through its mask. */
  function PutBit(b: bv8, k: nat, on: bool): (r: bv8)
    requires k < 8
    ensures forall j :: 0 <= j < 8 ==> Bit(r, j) == if j == k then on else Bit(b, j)
  {
    var r := if on then b | Mask(k) else b & !Mask(k);
    assert forall j :: 0 <= j < 8 ==> Bit(r, j) == if j == k then on else Bit(b, j) by {
      forall j | 0 <= j < 8
        ensures Bit(r, j) == if j == k then on else Bit(b, j)
      {
        SetBit(b, k, j);
        ClearBit(b, k, j);
      }
    }
    r
  }

  /** `ssd1306_copy_bit`: bit `srcBits` of `src` becomes bit `dstBits` of the result, the rest is `dst`. */
  function CopyBit(src: bv8, srcBits: nat, dst: bv8, dstBits: nat): (r: bv8)
    requires srcBits < 8 && dstBits < 8
    ensures forall k :: 0 <= k < 8 ==> Bit(r, k) == if k == dstBits then Bit(src, srcBits) else Bit(dst, k)
  {
    PutBit(dst, dstBits, src & Mask(srcBits) != 0)
  }

  function Invert(b: bv8): (r: bv8)
    ensures forall k :: 0 <= k < 8 ==> Bit(r, k) == !Bit(b, k)
  {
    !b
  }

  /** One byte of a column scrolled up: its top pixel leaves, the top pixel of the byte below enters. */
  function ScrolledUp(b: bv8, below: bv8): (r: bv8)
    ensures forall k :: 0 <= k < 8 ==> Bit(r, k) == if k < 7 then Bit(b, k + 1) else Bit(below, 0)
  {
    (b >> 1) | ((below & 0x01) << 7)
  }

  /** One byte of a column scrolled down: its bottom pixel leaves, the bottom pixel of the byte above enters. */
  function ScrolledDown(b: bv8, above: bv8): (r: bv8)
    ensures forall k :: 0 <= k < 8 ==> Bit(r, k) == if k > 0 then Bit(b, k - 1) else Bit(above, 7)
  {
    (b << 1) | ((above & 0x80) >> 7)
  }
}

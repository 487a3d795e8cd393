/** Fixed-width unsigned integers and byte strings shared by every component. */
module Base {

  const TWO32: int := 0x1_0000_0000
  const TWO64: int := 0x1_0000_0000_0000_0000

  type byte = b: int | 0 <= b < 0x100
  type u32 = w: int | 0 <= w < 0x1_0000_0000
  type u64 = w: int | 0 <= w < 0x1_0000_0000_0000_0000

  datatype Option<+T> = None | Some(value: T)

  /** `n` zero bytes. */
  function Zeros(n: nat): (z: seq<byte>)
    ensures |z| == n
    ensures forall i :: 0 <= i < n ==> z[i] == 0
  {
    seq(n, _ => 0)
  }

  /** A 32-bit word as four bytes, least significant first. */
  function StoreWord(w: u32): (b: seq<byte>)
    ensures |b| == 4
  {
    [w % 0x100, w / 0x100 % 0x100, w / 0x1_0000 % 0x100, w / 0x100_0000]
  }

  function LoadWord(b: seq<byte>): u32
    requires |b| == 4
  {
    b[0] + 0x100 * (b[1] as int) + 0x1_0000 * (b[2] as int) + 0x100_0000 * (b[3] as int)
  }

  lemma StoreLoadWord(w: u32)
    ensures LoadWord(StoreWord(w)) == w
  {
    assert w / 0x100 / 0x100 == w / 0x1_0000;
    assert w / 0x1_0000 / 0x100 == w / 0x100_0000;
  }

  lemma LoadStoreWord(b: seq<byte>)
    requires |b| == 4
    ensures StoreWord(LoadWord(b)) == b
  {
    var w := LoadWord(b);
    var b0: int, b1: int, b2: int, b3: int := b[0], b[1], b[2], b[3];
    var t2 := b2 + 0x100 * b3;
    var t1 := b1 + 0x100 * t2;
    assert w == b0 + 0x100 * t1;
    Digit(b0, t1);
    Digit(b1, t2);
    Digit(b2, b3);
    assert w / 0x1_0000 == w / 0x100 / 0x100 && w / 0x100_0000 == w / 0x100 / 0x100 / 0x100;
  }

  lemma Digit(r: int, q: int)
    requires 0 <= r < 0x100
    ensures (r + 0x100 * q) % 0x100 == r && (r + 0x100 * q) / 0x100 == q
  {
  }
}

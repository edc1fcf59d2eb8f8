/** Byte strings, 32-bit words in memory order, and bits of a bitmap byte. */
module Bytes {
  import opened Layout

  type Byte = x: nat | x < 0x100

  function Zeros(n: nat): seq<Byte> {
    seq(n, _ => 0)
  }

  type Block = b: seq<Byte> | |b| == BLOCK_SIZE witness Zeros(BLOCK_SIZE)

  const ZERO_BLOCK: Block := Zeros(BLOCK_SIZE)

  // ---------------------------------------------------------------- bits

  /** 0x1 << k */
  function Mask(k: nat): bv8
    requires k < 8
  {
    match k
    case 0 => 0x01
    case 1 => 0x02
    case 2 => 0x04
    case 3 => 0x08
    case 4 => 0x10
    case 5 => 0x20
    case 6 => 0x40
    case 7 => 0x80
  }

  function ToBits(b: Byte): bv8 {
    b as bv8
  }

  function FromBits(v: bv8): (b: Byte)
    ensures ToBits(b) == v
  {
    v as nat
  }

  predicate HasBit(v: bv8, k: nat)
    requires k < 8
  {
    v & Mask(k) != 0
  }

  function Pow2(k: nat): nat {
    if k == 0 then 1 else 2 * Pow2(k - 1)
  }

  /** Bit k has the weight 2^k: bit 0 is the lowest of the byte. */
  lemma MaskValue(k: nat)
    requires k < 8
    ensures Mask(k) as nat == Pow2(k)
  {
    assert Pow2(0) == 1 && Pow2(1) == 2 && Pow2(2) == 4 && Pow2(3) == 8;
    assert Pow2(4) == 16 && Pow2(5) == 32 && Pow2(6) == 64 && Pow2(7) == 128;
  }

  lemma MaskBits(v: bv8, k: nat, j: nat)
    requires k < 8 && j < 8
    ensures HasBit(v | Mask(k), j) == (j == k || HasBit(v, j))
    ensures HasBit(v & !Mask(k), j) == (j != k && HasBit(v, j))
  {
  }

  predicate BitOf(b: Byte, k: nat)
    requires k < 8
  {
    HasBit(ToBits(b), k)
  }

  function SetBit(b: Byte, k: nat): Byte
    requires k < 8
  {
    FromBits(ToBits(b) | Mask(k))
  }

  function ClearBit(b: Byte, k: nat): Byte
    requires k < 8
  {
    FromBits(ToBits(b) & !Mask(k))
  }

  lemma BitsOfResult(b: Byte, r: Byte, v: bv8, w: bv8, k: nat)
    requires k < 8
    requires v == ToBits(b) && w == ToBits(r)
    ensures w == v | Mask(k) ==> forall j :: 0 <= j < 8 ==> BitOf(r, j) == (j == k || BitOf(b, j))
    ensures w == v & !Mask(k) ==> forall j :: 0 <= j < 8 ==> BitOf(r, j) == (j != k && BitOf(b, j))
  {
    forall j: nat | 0 <= j < 8
      ensures w == v | Mask(k) ==> BitOf(r, j) == (j == k || BitOf(b, j))
      ensures w == v & !Mask(k) ==> BitOf(r, j) == (j != k && BitOf(b, j))
    {
      MaskBits(v, k, j);
      assert BitOf(r, j) == HasBit(w, j);
      assert BitOf(b, j) == HasBit(v, j);
    }
  }

  /** Setting or clearing a bit reaches that bit and no other one of the byte. */
  lemma OneBit(b: Byte, k: nat)
    requires k < 8
    ensures forall j :: 0 <= j < 8 ==> BitOf(SetBit(b, k), j) == (j == k || BitOf(b, j))
    ensures forall j :: 0 <= j < 8 ==> BitOf(ClearBit(b, k), j) == (j != k && BitOf(b, j))
  {
    BitsOfResult(b, SetBit(b, k), ToBits(b), ToBits(SetBit(b, k)), k);
    BitsOfResult(b, ClearBit(b, k), ToBits(b), ToBits(ClearBit(b, k)), k);
  }

  // ---------------------------------------------------------------- words

  function Word(n: nat): (w: seq<Byte>)
    requires n < U32_LIMIT
    ensures |w| == 4
  {
    [n % 0x100, n / 0x100 % 0x100, n / 0x1_0000 % 0x100, n / 0x100_0000]
  }

  function WordValue(w: seq<Byte>): (n: nat)
    requires |w| == 4
    ensures n < U32_LIMIT
  {
    var b0: int, b1: int, b2: int, b3: int := w[0], w[1], w[2], w[3];
    b0 + 0x100 * b1 + 0x1_0000 * b2 + 0x100_0000 * b3
  }

  /** The least significant byte of a word comes first. */
  lemma WordBytes(n: nat)
    requires n < U32_LIMIT
    ensures var w := Word(n);
            n == w[0] + 0x100 * (w[1] as int) + 0x1_0000 * (w[2] as int) + 0x100_0000 * (w[3] as int)
  {
    var a, b, c := n / 0x100, n / 0x1_0000, n / 0x100_0000;
    assert n == n % 0x100 + 0x100 * a;
    assert a == a % 0x100 + 0x100 * b;
    assert b == b % 0x100 + 0x100 * c;
  }

  lemma WordRoundTrip(n: nat)
    requires n < U32_LIMIT
    ensures WordValue(Word(n)) == n
  {
    hide Word;
    WordBytes(n);
  }

  predicate AllWords(ws: seq<nat>) {
    forall k :: 0 <= k < |ws| ==> ws[k] < U32_LIMIT
  }

  /** An array of 32-bit words as the bytes it occupies. */
  function Pack(ws: seq<nat>): (b: seq<Byte>)
    requires AllWords(ws)
    ensures |b| == 4 * |ws|
  {
    seq(4 * |ws|, i requires 0 <= i < 4 * |ws| => Word(ws[i / 4])[i % 4])
  }

  /** The n words that start at byte `from`. */
  function Unpack(b: seq<Byte>, from: nat, n: nat): (ws: seq<nat>)
    requires from + 4 * n <= |b|
    ensures |ws| == n
    ensures AllWords(ws)
  {
    seq(n, k requires 0 <= k < n => WordValue(b[from + 4 * k..from + 4 * k + 4]))
  }

  lemma PackRoundTrip(ws: seq<nat>, b: seq<Byte>, from: nat)
    requires AllWords(ws)
    requires from + 4 * |ws| <= |b|
    requires b[from..from + 4 * |ws|] == Pack(ws)
    ensures Unpack(b, from, |ws|) == ws
  {
    forall k | 0 <= k < |ws| ensures Unpack(b, from, |ws|)[k] == ws[k] {
      var w := b[from + 4 * k..from + 4 * k + 4];
      forall j | 0 <= j < 4 ensures w[j] == Word(ws[k])[j] {
        assert w[j] == b[from..from + 4 * |ws|][4 * k + j];
      }
      assert w == Word(ws[k]);
      WordRoundTrip(ws[k]);
    }
  }

  // ---------------------------------------------------------------- trailing zeros

  /** How many of the first n bytes are left when trailing zeros are dropped. */
  function Significant(x: seq<Byte>, n: nat): (r: nat)
    requires n <= |x|
    ensures r <= n
    ensures r > 0 ==> x[r - 1] != 0
    ensures forall k :: r <= k < n ==> x[k] == 0
  {
    if n == 0 || x[n - 1] != 0 then n else Significant(x, n - 1)
  }

  /** A byte string without its trailing zero bytes. */
  function Strip(x: seq<Byte>): (r: seq<Byte>)
    ensures |r| <= |x|
  {
    x[..Significant(x, |x|)]
  }

  /** Strip keeps the shortest prefix that only zeros follow. */
  lemma StripTail(x: seq<Byte>, n: nat)
    requires n <= |x|
    requires forall k :: n <= k < |x| ==> x[k] == 0
    requires n == 0 || x[n - 1] != 0
    ensures Strip(x) == x[..n]
  {
  }

  lemma AllZero(x: seq<Byte>)
    ensures Strip(x) == [] <==> forall j :: 0 <= j < |x| ==> x[j] == 0
  {
  }

  lemma StripZeros(x: seq<Byte>, n: nat)
    ensures Strip(x + Zeros(n)) == Strip(x)
  {
    var y := x + Zeros(n);
    StripTail(y, |Strip(x)|);
    assert y[..|Strip(x)|] == Strip(x);
  }

  lemma StripAppend(x: seq<Byte>, y: seq<Byte>)
    ensures Strip(x + y) == if Strip(y) == [] then Strip(x) else x + Strip(y)
  {
    var n := if Strip(y) == [] then |Strip(x)| else |x| + |Strip(y)|;
    StripTail(x + y, n);
    assert (x + y)[..n] == if Strip(y) == [] then Strip(x) else x + Strip(y);
  }
}

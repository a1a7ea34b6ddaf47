/**
 * Fixed-width unsigned integers and their byte layouts.
 *
 * An unsigned value of `n` bytes is laid out either little endian (least
 * significant byte first) or big endian (most significant byte first).
 * `Swap` reverses the byte order of a value (the header's Swap16/32/64);
 * `SwapLE`/`SwapBE` are the build-time selections between the identity and
 * `Swap` made by the SwapLE* and SwapBE* macros; `Load`/`Store` are the scalar
 * codec: a read takes the bytes as a native integer and then applies the
 * macro, a write applies the macro and then stores the native integer.
 */
module Codec {
  import opened ByteOrder

  /** A byte (the header's uint8_t). */
  type uint8 = b: int | 0 <= b < 256

  /** The widths of the scalar codec: uint16_t, uint32_t, uint64_t. */
  datatype Width = W16 | W32 | W64 {
    function Bytes(): (n: nat)
      ensures n == 2 || n == 4 || n == 8
    {
      match this
      case W16 => 2
      case W32 => 4
      case W64 => 8
    }
  }

  /** 256 to the power n: one more than the largest value of n bytes. */
  function Pow256(n: nat): (r: nat)
    ensures r >= 1
  {
    if n == 0 then 1 else 256 * Pow256(n - 1)
  }

  /** The values representable in `w`. */
  predicate Fits(w: Width, v: nat) {
    v < Pow256(w.Bytes())
  }

  function Reverse<T>(s: seq<T>): (r: seq<T>)
    ensures |r| == |s|
    ensures forall i :: 0 <= i < |s| ==> r[i] == s[|s| - 1 - i]
  {
    if s == [] then [] else Reverse(s[1..]) + [s[0]]
  }

  lemma ReverseReverse<T>(s: seq<T>)
    ensures Reverse(Reverse(s)) == s
  {
    var r := Reverse(Reverse(s));
    assert forall i :: 0 <= i < |s| ==> r[i] == s[i];
  }

  // ---------------------------------------------------------------------
  // Little- and big-endian layouts

  /** The n bytes of v, least significant first. */
  function EncodeLE(v: nat, n: nat): (r: seq<uint8>)
    requires v < Pow256(n)
    ensures |r| == n
  {
    if n == 0 then [] else [v % 256] + EncodeLE(v / 256, n - 1)
  }

  /** The value of bytes read least significant first. */
  function DecodeLE(s: seq<uint8>): (r: nat)
    ensures r < Pow256(|s|)
  {
    if s == [] then 0 else s[0] + 256 * DecodeLE(s[1..])
  }

  /** The n bytes of v, most significant first. */
  function EncodeBE(v: nat, n: nat): (r: seq<uint8>)
    requires v < Pow256(n)
    ensures |r| == n
  {
    Reverse(EncodeLE(v, n))
  }

  /** The value of bytes read most significant first. */
  function DecodeBE(s: seq<uint8>): (r: nat)
    ensures r < Pow256(|s|)
  {
    DecodeLE(Reverse(s))
  }

  function Encode(order: Endian, v: nat, n: nat): (r: seq<uint8>)
    requires v < Pow256(n)
    ensures |r| == n
  {
    match order
    case Little => EncodeLE(v, n)
    case Big => EncodeBE(v, n)
  }

  function Decode(order: Endian, s: seq<uint8>): (r: nat)
    ensures r < Pow256(|s|)
  {
    match order
    case Little => DecodeLE(s)
    case Big => DecodeBE(s)
  }

  lemma {:induction false} DecodeEncodeLE(v: nat, n: nat)
    requires v < Pow256(n)
    ensures DecodeLE(EncodeLE(v, n)) == v
  {
    if n > 0 {
      DecodeEncodeLE(v / 256, n - 1);
      assert EncodeLE(v, n)[1..] == EncodeLE(v / 256, n - 1);
    }
  }

  lemma {:induction false} EncodeDecodeLE(s: seq<uint8>)
    ensures EncodeLE(DecodeLE(s), |s|) == s
  {
    if s != [] {
      EncodeDecodeLE(s[1..]);
      var d := DecodeLE(s[1..]);
      assert (s[0] + 256 * d) % 256 == s[0];
      assert (s[0] + 256 * d) / 256 == d;
    }
  }

  lemma DecodeEncode(order: Endian, v: nat, n: nat)
    requires v < Pow256(n)
    ensures Decode(order, Encode(order, v, n)) == v
  {
    DecodeEncodeLE(v, n);
    if order == Big {
      ReverseReverse(EncodeLE(v, n));
    }
  }

  lemma EncodeDecode(order: Endian, s: seq<uint8>)
    ensures Encode(order, Decode(order, s), |s|) == s
  {
    if order == Little {
      EncodeDecodeLE(s);
    } else {
      EncodeDecodeLE(Reverse(s));
      ReverseReverse(s);
    }
  }

  /**
   * The big-endian layout is the little-endian layout reversed, both ways
   * round. The first half is how EncodeBE is defined; that the two layouts
   * really mirror each other rests on EncodeLEAt and EncodeBEAt, which fix
   * the bytes of each as base-256 digits independently.
   */
  lemma LayoutsMirror(v: nat, n: nat)
    requires v < Pow256(n)
    ensures EncodeBE(v, n) == Reverse(EncodeLE(v, n))
    ensures EncodeLE(v, n) == Reverse(EncodeBE(v, n))
  {
    ReverseReverse(EncodeLE(v, n));
  }

  lemma DivUnique(a: nat, d: nat, q: nat, r: nat)
    requires d >= 1 && r < d && a == q * d + r
    ensures a / d == q
  {
    var q', r' := a / d, a % d;
    assert (q' - q) * d == r - r' by {
      assert a == q' * d + r';
    }
    if q' > q {
      MulAtLeast(q' - q, d);
    } else if q' < q {
      MulAtLeast(q - q', d);
    }
  }

  lemma MulAtLeast(k: nat, d: nat)
    requires k >= 1
    ensures k * d >= d
  {
  }

  lemma DivDiv(a: nat, c: nat)
    requires c >= 1
    ensures a / 256 / c == a / (256 * c)
  {
    var q, r := a / 256, a % 256;
    var q2, r2 := q / c, q % c;
    var m := q2 * c;
    assert q == m + r2;
    assert q2 * (256 * c) == 256 * m;
    assert a == q2 * (256 * c) + (256 * r2 + r);
    DivUnique(a, 256 * c, q2, 256 * r2 + r);
  }

  /** Byte i of the little-endian layout is digit i of v in base 256. */
  lemma {:induction false} EncodeLEAt(v: nat, n: nat, i: nat)
    requires v < Pow256(n) && i < n
    ensures EncodeLE(v, n)[i] == v / Pow256(i) % 256
  {
    if i > 0 {
      EncodeLEAt(v / 256, n - 1, i - 1);
      DivDiv(v, Pow256(i - 1));
    }
  }

  /** Byte i of the big-endian layout is digit n-1-i of v in base 256. */
  lemma EncodeBEAt(v: nat, n: nat, i: nat)
    requires v < Pow256(n) && i < n
    ensures EncodeBE(v, n)[i] == v / Pow256(n - 1 - i) % 256
  {
    EncodeLEAt(v, n, n - 1 - i);
  }

  /** The little-endian layout of a 16-bit value is [low, high], the big-endian one [high, low]. */
  lemma Layout16(v: nat)
    requires v < 0x1_0000
    ensures EncodeLE(v, 2) == [v % 256, v / 256]
    ensures EncodeBE(v, 2) == [v / 256, v % 256]
  {
    assert Pow256(2) == 0x1_0000;
    assert v / 256 < 256;
  }

  lemma Layout16Example()
    ensures EncodeLE(0x1234, 2) == [0x34, 0x12]
    ensures EncodeBE(0x1234, 2) == [0x12, 0x34]
  {
    Layout16(0x1234);
  }

  // ---------------------------------------------------------------------
  // Swap16/32/64 and the SwapLE* and SwapBE* macros

  /** The value whose bytes are those of x in reverse order (Swap16/32/64). */
  function Swap(w: Width, x: nat): (r: nat)
    requires Fits(w, x)
    ensures Fits(w, r)
    ensures EncodeLE(r, w.Bytes()) == Reverse(EncodeLE(x, w.Bytes()))
  {
    var s := EncodeBE(x, w.Bytes());
    EncodeDecodeLE(s);
    DecodeLE(s)
  }

  lemma SwapSwap(w: Width, x: nat)
    requires Fits(w, x)
    ensures Swap(w, Swap(w, x)) == x
  {
    var n := w.Bytes();
    var y := Swap(w, x);
    ReverseReverse(EncodeLE(x, n));
    assert EncodeLE(Swap(w, y), n) == EncodeLE(x, n);
    DecodeEncodeLE(Swap(w, y), n);
    DecodeEncodeLE(x, n);
  }

  lemma Swap16Example()
    ensures Swap(W16, 0x1234) == 0x3412
  {
    Layout16(0x1234);
    var s: seq<uint8> := [0x12, 0x34];
    assert s[1..] == [0x34];
    assert [0x34][1..] == [];
    assert DecodeLE(s) == 0x3412;
  }

  /**
   * SwapLE16/32/64: the identity on a 1234 build, Swap on any other. The
   * result is the value whose memory, in the order the build assumes, is the
   * little-endian layout of x.
   */
  function SwapLE(byteorder: int, w: Width, x: nat): (r: nat)
    requires Fits(w, x)
    ensures Fits(w, r)
    ensures Encode(AssumedOrder(byteorder), r, w.Bytes()) == EncodeLE(x, w.Bytes())
  {
    ReverseReverse(EncodeLE(x, w.Bytes()));
    if byteorder == LIL_ENDIAN then x else Swap(w, x)
  }

  /**
   * SwapBE16/32/64: Swap on a 1234 build, the identity on any other. The
   * result is the value whose memory, in the order the build assumes, is the
   * big-endian layout of x.
   */
  function SwapBE(byteorder: int, w: Width, x: nat): (r: nat)
    requires Fits(w, x)
    ensures Fits(w, r)
    ensures Encode(AssumedOrder(byteorder), r, w.Bytes()) == EncodeBE(x, w.Bytes())
  {
    if byteorder == LIL_ENDIAN then Swap(w, x) else x
  }

  /** The macro for the declared order of a read_* and write_* function. */
  function SwapFor(order: Endian, byteorder: int, w: Width, x: nat): (r: nat)
    requires Fits(w, x)
    ensures Fits(w, r)
    ensures Encode(AssumedOrder(byteorder), r, w.Bytes()) == Encode(order, x, w.Bytes())
  {
    match order
    case Little => SwapLE(byteorder, w, x)
    case Big => SwapBE(byteorder, w, x)
  }

  /** On each build and width, one of SwapLE and SwapBE is the identity and the other is Swap. */
  lemma SwapSelection(byteorder: int, w: Width, x: nat)
    requires Fits(w, x)
    ensures byteorder == LIL_ENDIAN ==> SwapLE(byteorder, w, x) == x && SwapBE(byteorder, w, x) == Swap(w, x)
    ensures byteorder == BIG_ENDIAN ==> SwapLE(byteorder, w, x) == Swap(w, x) && SwapBE(byteorder, w, x) == x
    ensures (SwapLE(byteorder, w, x) == x && SwapBE(byteorder, w, x) == Swap(w, x))
         || (SwapLE(byteorder, w, x) == Swap(w, x) && SwapBE(byteorder, w, x) == x)
  {
  }

  /** A selected macro applied twice is the identity. */
  lemma SwapForTwice(order: Endian, byteorder: int, w: Width, x: nat)
    requires Fits(w, x)
    ensures SwapFor(order, byteorder, w, SwapFor(order, byteorder, w, x)) == x
  {
    if (byteorder == LIL_ENDIAN) == (order == Big) {
      SwapSwap(w, x);
    }
  }

  // ---------------------------------------------------------------------
  // The scalar codec. A uintN_t in memory is Encode/Decode in the machine's order.

  /**
   * read_{le,be}N on the N/8 bytes read: the bytes taken as a native integer,
   * then the selected macro. The result is the value of the bytes in the
   * declared order when BYTEORDER describes the machine, and in the opposite
   * order when it does not.
   */
  function Load(p: Platform, order: Endian, w: Width, s: seq<uint8>): (r: nat)
    requires |s| == w.Bytes()
    ensures Fits(w, r)
    ensures r == Decode(if p.Consistent() then order else order.Opposite(), s)
  {
    SwapIsOtherOrder(w, s);
    SwapFor(order, p.byteorder, w, Decode(p.machine, s))
  }

  /**
   * write_{le,be}N: the selected macro, then the native bytes of the result.
   * These are the declared layout of v when BYTEORDER describes the machine,
   * and the opposite layout when it does not.
   */
  function Store(p: Platform, order: Endian, w: Width, v: nat): (r: seq<uint8>)
    requires Fits(w, v)
    ensures |r| == w.Bytes()
    ensures r == Encode(if p.Consistent() then order else order.Opposite(), v, w.Bytes())
  {
    ReverseReverse(EncodeLE(v, w.Bytes()));
    Encode(p.machine, SwapFor(order, p.byteorder, w, v), w.Bytes())
  }

  /** Reading back what was written gives the value, on every platform. */
  lemma LoadStore(p: Platform, order: Endian, w: Width, v: nat)
    requires Fits(w, v)
    ensures Load(p, order, w, Store(p, order, w, v)) == v
  {
    var n := w.Bytes();
    var y := SwapFor(order, p.byteorder, w, v);
    DecodeEncode(p.machine, y, n);
    SwapForTwice(order, p.byteorder, w, v);
  }

  /** Native value with a swap applied when the orders differ. */
  lemma {:induction false} SwapIsOtherOrder(w: Width, s: seq<uint8>)
    requires |s| == w.Bytes()
    ensures Swap(w, DecodeLE(s)) == DecodeBE(s)
    ensures Swap(w, DecodeBE(s)) == DecodeLE(s)
  {
    var n := w.Bytes();
    var x := DecodeLE(s);
    EncodeDecodeLE(s);
    var r := Swap(w, x);
    assert EncodeLE(r, n) == Reverse(s);
    DecodeEncodeLE(r, n);
    EncodeDecodeLE(Reverse(s));
    SwapSwap(w, x);
    assert Swap(w, DecodeBE(s)) == Swap(w, r);
  }

  /** On a machine BYTEORDER misdescribes, read_le16 of [1, 0] gives 256 rather than 1. */
  lemma MisdescribedMachineSwaps()
    ensures Load(Platform(LIL_ENDIAN, Big), Little, W16, [1, 0]) == 256
    ensures DecodeLE([1, 0]) == 1
  {
    var s: seq<uint8> := [1, 0];
    SwapIsOtherOrder(W16, s);
    assert Reverse(s) == [0, 1];
  }
}

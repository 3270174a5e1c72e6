/** The variable-length integer codec of the transaction encoder: unsigned LEB128, section 7.6 of DWARF 5. */
module Uleb {
  import opened Arith

  type Byte = b: int | 0 <= b < 256

  /** `uleb`: seven bits a byte, least significant first, the high bit set on all but the last. */
  function Encode(n: nat): (bytes: seq<Byte>)
    ensures bytes != []
  {
    if n < 128 then [n] else [n % 128 + 128] + Encode(n / 128)
  }

  /** What a decoder finds at an offset: a value and where it ends, or the end of the buffer. */
  datatype Decoded = Value(n: nat, next: nat) | OutOfBytes

  /** `_uleb_at`, as a function of what is left of the buffer. */
  function Decode(bytes: seq<Byte>, off: nat): Decoded
    decreases |bytes| - off
  {
    if off >= |bytes| then OutOfBytes
    else if bytes[off] < 128 then Value(bytes[off], off + 1)
    else
      match Decode(bytes, off + 1)
      case OutOfBytes => OutOfBytes
      case Value(n, next) => Value(bytes[off] - 128 + 128 * n, next)
  }

  /** The encoding loop: `b | 0x80` sets a clear bit, so it adds 128. */
  method EncodeLoop(value: nat) returns (out: seq<Byte>)
    ensures out == Encode(value)
  {
    out := [];
    var n := value;
    while true
      invariant out + Encode(n) == Encode(value)
      decreases n
    {
      var b := n % 128;
      n := n / 128;
      if n != 0 {
        out := out + [b + 128];
      } else {
        out := out + [b];
        return;
      }
    }
  }

  function Pow2(e: nat): nat {
    if e == 0 then 1 else 2 * Pow2(e - 1)
  }

  lemma Pow2Seven(e: nat)
    ensures Pow2(e + 7) == 128 * Pow2(e)
  {
    assert Pow2(e + 7) == 2 * Pow2(e + 6) == 4 * Pow2(e + 5) == 8 * Pow2(e + 4)
        == 16 * Pow2(e + 3) == 32 * Pow2(e + 2) == 64 * Pow2(e + 1);
  }

  /** The decoding loop. The seven new bits lie above all bits of `val`, so `|=` adds them. */
  method DecodeLoop(bytes: seq<Byte>, start: nat) returns (r: Decoded)
    ensures r == Decode(bytes, start)
  {
    var shift, val, off := 0, 0, start;
    while off < |bytes|
      invariant start <= off
      invariant 0 <= val < Pow2(shift)
      invariant Decode(bytes, start) == Shifted(Decode(bytes, off), val, Pow2(shift))
    {
      var byte := bytes[off];
      ghost var rest := Decode(bytes, off);
      off := off + 1;
      var before := val;
      val := val + (byte % 128) * Pow2(shift);
      if byte < 128 {
        return Value(val, off);
      }
      ShiftedStep(Decode(bytes, off), before, Pow2(shift), byte - 128);
      NewBitsAbove(before, byte - 128, Pow2(shift));
      Pow2Seven(shift);
      shift := shift + 7;
    }
    return OutOfBytes;
  }

  /** A decoded rest, put above the bits read so far. */
  function Shifted(d: Decoded, val: nat, unit: nat): Decoded {
    match d
    case OutOfBytes => OutOfBytes
    case Value(n, next) => Value(val + n * unit, next)
  }

  lemma ShiftedStep(d: Decoded, val: nat, unit: nat, low: nat)
    ensures Shifted(match d case OutOfBytes => OutOfBytes case Value(n, next) => Value(low + 128 * n, next), val, unit)
            == Shifted(d, val + low * unit, 128 * unit)
  {
    if d.Value? {
      assert (low + 128 * d.n) * unit == low * unit + d.n * (128 * unit);
    }
  }

  lemma NewBitsAbove(val: nat, low: nat, unit: nat)
    requires val < unit && low < 128
    ensures 0 <= val + low * unit < 128 * unit
  {
    MulLe(low, 127, unit);
  }

  // --- the codec ---

  /** Decoding at the start of an encoding gives back the number and the offset just past it, whatever
      surrounds it. */
  lemma {:induction false} RoundTrip(n: nat, before: seq<Byte>, after: seq<Byte>)
    ensures Decode(before + Encode(n) + after, |before|) == Value(n, |before| + |Encode(n)|)
    decreases n
  {
    var bytes := before + Encode(n) + after;
    assert bytes[|before|] == Encode(n)[0];
    if n >= 128 {
      var head: Byte := n % 128 + 128;
      assert bytes == (before + [head]) + Encode(n / 128) + after;
      RoundTrip(n / 128, before + [head], after);
    }
  }

  function Pow128(i: nat): nat {
    if i == 0 then 1 else 128 * Pow128(i - 1)
  }

  /** Byte by byte: byte `i` carries the seven bits of the number from bit `7 * i` on, and its high bit says whether
      more bytes follow. */
  lemma {:induction false} EncodeBytes(n: nat, i: nat)
    requires i < |Encode(n)|
    ensures Pow128(i) > 0
    ensures Encode(n)[i] == (n / Pow128(i)) % 128 + (if i < |Encode(n)| - 1 then 128 else 0)
    decreases n
  {
    if n < 128 {
      assert n / 1 == n;
    } else if i == 0 {
      assert n / 1 == n;
    } else {
      EncodeBytes(n / 128, i - 1);
      DivideTwice(n, Pow128(i - 1));
    }
  }

  lemma DivideTwice(n: nat, d: nat)
    requires d > 0
    ensures (n / 128) / d == n / (128 * d)
  {
    var q := (n / 128) / d;
    FloorBounds(n / 128, d);
    assert (128 * d) * q == 128 * (q * d) && (128 * d) * (q + 1) == 128 * ((q + 1) * d);
    GreatestQuotient(n, 128 * d, q);
    GreatestQuotient(n, 128 * d, q + 1);
  }

  /** No encoding is a prefix of another. */
  lemma PrefixFree(m: nat, n: nat)
    requires Encode(m) <= Encode(n)
    ensures m == n
  {
    hide *;
    var rest := Encode(n)[|Encode(m)|..];
    assert [] + Encode(n) + [] == Encode(n);
    assert [] + Encode(m) + rest == Encode(n);
    RoundTrip(n, [], []);
    RoundTrip(m, [], rest);
  }

  /** The decoder also accepts padded forms; re-encoding gives the same bytes exactly when the last byte
      read is not a padding zero. */
  lemma {:induction false} ReencodeIffMinimal(bytes: seq<Byte>, off: nat)
    requires Decode(bytes, off).Value?
    ensures var d := Decode(bytes, off);
            && off < d.next <= |bytes|
            && (Encode(d.n) == bytes[off..d.next] <==> d.next == off + 1 || bytes[d.next - 1] != 0)
            && (d.n == 0 <==> forall i :: off <= i < d.next ==> bytes[i] % 128 == 0)
    decreases |bytes| - off
  {
    var d := Decode(bytes, off);
    if bytes[off] >= 128 {
      ReencodeIffMinimal(bytes, off + 1);
      var n := Decode(bytes, off + 1).n;
      assert bytes[off..d.next] == [bytes[off]] + bytes[off + 1..d.next];
      if d.n >= 128 {
        assert Encode(d.n) == [bytes[off]] + Encode(n);
        assert Encode(d.n)[1..] == Encode(n);
        assert bytes[off..d.next][1..] == bytes[off + 1..d.next];
      } else {
        assert n == 0;
        assert |Encode(d.n)| == 1;
      }
    }
  }
}

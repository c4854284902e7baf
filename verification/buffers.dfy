/** `ByteBufferFactory.alloc1`: a direct buffer `size + A` bytes long is
    allocated, and a slice of it starting at the first address that is a
    multiple of the alignment `A` is handed out. `A` is
    `VideoLan4J.LIBVLC_BUFFER_ALIGNMENT`, a power of two whose value is not
    part of this model, so it is the parameter `2^k`; the buffer's native
    address is a parameter too. */
module Buffers {
  import opened Wrappers
  import opened Versions

  function Pow2(k: nat): (r: nat)
    ensures r >= 1
  {
    if k == 0 then 1 else 2 * Pow2(k - 1)
  }

  /** Java's `&` on non-negative numbers, bit by bit from the lowest. */
  function BitAnd(x: nat, y: nat): nat
    decreases x
  {
    if x == 0 || y == 0 then 0
    else 2 * BitAnd(x / 2, y / 2) + (if x % 2 == 1 && y % 2 == 1 then 1 else 0)
  }

  /** Euclidean division is unique. */
  lemma DivModUnique(x: int, d: int, q: int, r: int)
    requires d > 0 && x == d * q + r && 0 <= r < d
    ensures x / d == q && x % d == r
  {
    var z := q - x / d;
    assert d * z == x % d - r;
    assert z >= 1 ==> d * z >= d;
    assert z <= -1 ==> d * z <= -d;
  }

  /** The remainder by `2m` from the remainder of the half by `m` and the
      lowest bit. */
  lemma ModDouble(x: nat, m: nat)
    requires m >= 1
    ensures x % (2 * m) == 2 * ((x / 2) % m) + x % 2
  {
    var h := x / 2;
    assert x == 2 * h + x % 2;
    assert h == m * (h / m) + h % m;
    assert x == (2 * m) * (h / m) + (2 * (h % m) + x % 2);
    DivModUnique(x, 2 * m, h / m, 2 * (h % m) + x % 2);
  }

  /** The low `k` bits of `x`, read off one at a time. */
  function LowBits(x: nat, k: nat): nat {
    if k == 0 then 0 else 2 * LowBits(x / 2, k - 1) + x % 2
  }

  /** One step of the mask: the lowest bit is kept, the rest is masked by
      the halved mask. */
  lemma BitAndOddMask(x: nat, m: nat)
    requires m >= 1
    ensures BitAnd(x, 2 * m - 1) == 2 * BitAnd(x / 2, m - 1) + x % 2
  {
    var y := 2 * m - 1;
    assert y / 2 == m - 1 && y % 2 == 1;
  }

  /** The mask `2^k - 1` selects the low `k` bits. */
  lemma {:induction false} MaskIsLowBits(x: nat, k: nat)
    ensures BitAnd(x, Pow2(k) - 1) == LowBits(x, k)
    decreases k
  {
    if k > 0 {
      BitAndOddMask(x, Pow2(k - 1));
      MaskIsLowBits(x / 2, k - 1);
    }
  }

  /** The low `k` bits are the remainder by `2^k`. */
  lemma {:induction false} LowBitsIsMod(x: nat, k: nat)
    ensures LowBits(x, k) == x % Pow2(k)
    decreases k
  {
    if k > 0 {
      LowBitsIsMod(x / 2, k - 1);
      ModDouble(x, Pow2(k - 1));
    }
  }

  /** Masking with `2^k - 1` keeps the low `k` bits: it is the remainder by
      `2^k`. */
  lemma MaskIsMod(x: nat, k: nat)
    ensures BitAnd(x, Pow2(k) - 1) == x % Pow2(k)
  {
    MaskIsLowBits(x, k);
    LowBitsIsMod(x, k);
  }

  /** `isAligned(address)`. */
  function IsAligned(k: nat, address: nat): bool {
    BitAnd(address, Pow2(k) - 1) == 0
  }

  /** An address is aligned exactly when it is a multiple of `2^k`. */
  lemma IsAlignedIff(k: nat, address: nat)
    ensures IsAligned(k, address) <==> address % Pow2(k) == 0
  {
    MaskIsMod(address, k);
  }

  const IntMin: int := -0x8000_0000

  /** `int` arithmetic: the result wrapped into the 32-bit range. */
  function Wrap32(v: int): (r: int)
    ensures IntMin <= r <= IntMax
    ensures IntMin <= v <= IntMax ==> r == v
    ensures IntMax < v <= 2 * IntMax + 1 ==> r == v - 0x1_0000_0000
  {
    (v - IntMin) % 0x1_0000_0000 + IntMin
  }

  /** The three counters of a `java.nio.Buffer`; `0 <= position <= limit
      <= capacity` always holds. */
  datatype Buffer = Buffer(capacity: nat, position: nat, limit: nat)

  /** The `IllegalArgumentException`s the buffer methods throw. */
  datatype BufferError = NegativeCapacity | BadPosition | BadLimit

  predicate Valid(b: Buffer) {
    b.position <= b.limit <= b.capacity
  }

  /** `ByteBuffer.allocateDirect(capacity)`. */
  function AllocateDirect(capacity: int): (r: Result<Buffer, BufferError>)
    ensures r.Ok? ==> Valid(r.value)
  {
    if capacity < 0 then Err(NegativeCapacity) else Ok(Buffer(capacity, 0, capacity))
  }

  /** `Buffer.position(p)`: rejected beyond the limit or below zero. */
  function SetPosition(b: Buffer, p: int): (r: Result<Buffer, BufferError>)
    requires Valid(b)
    ensures r.Ok? ==> Valid(r.value)
  {
    if p < 0 || p > b.limit then Err(BadPosition) else Ok(b.(position := p))
  }

  /** `Buffer.limit(l)`: rejected beyond the capacity or below zero; a
      position beyond the new limit is pulled back to it. */
  function SetLimit(b: Buffer, l: int): (r: Result<Buffer, BufferError>)
    requires Valid(b)
    ensures r.Ok? ==> Valid(r.value)
  {
    if l < 0 || l > b.capacity then Err(BadLimit)
    else Ok(Buffer(b.capacity, if b.position > l then l else b.position, l))
  }

  /** The slice handed out: where it starts in the allocation, its native
      address, its length, and the allocation's capacity. */
  datatype Slice = Slice(offset: nat, address: nat, length: nat, capacity: nat)

  /** `buffer.slice()`: from the position to the limit. */
  function SliceOf(address: nat, b: Buffer): Slice
    requires Valid(b)
  {
    Slice(b.position, address + b.position, b.limit - b.position, b.capacity)
  }

  /** `alloc1(size)` for a buffer whose native address turns out to be
      `address`, with alignment `2^k`, itself an `int`. */
  function Alloc1(k: nat, address: nat, size: int): Result<Slice, BufferError>
    requires Pow2(k) <= IntMax && IntMin <= size <= IntMax
  {
    var a := Pow2(k);
    var b :- AllocateDirect(Wrap32(size + a));
    if IsAligned(k, address) then
      var limited :- SetLimit(b, size);
      Ok(SliceOf(address, limited))
    else
      var newPosition := a - BitAnd(address, a - 1);
      var moved :- SetPosition(b, newPosition);
      var limited :- SetLimit(moved, Wrap32(size + newPosition));
      Ok(SliceOf(address, limited))
  }

  /** For an address that is not a multiple of `A`, the offset
      `A - (address mod A)` is between 1 and `A - 1` and reaches the next
      multiple. */
  lemma UnalignedOffset(k: nat, address: nat)
    requires address % Pow2(k) != 0
    ensures var o := Pow2(k) - address % Pow2(k);
            0 < o < Pow2(k) && (address + o) % Pow2(k) == 0
  {
    var a := Pow2(k);
    var low := address % a;
    assert address == a * (address / a) + low;
    assert address + (a - low) == a * (address / a + 1);
    DivModUnique(address + (a - low), a, address / a + 1, 0);
  }

  /** For every size the allocation can hold (`0 <= size` and `size + A`
      still an `int`) the slice has exactly `size` bytes, starts at an
      aligned address, starts less than `A` bytes into an allocation of
      `size + A` bytes and so fits in it, and starts at the very beginning
      exactly when the allocation was already aligned. */
  lemma Alloc1Aligned(k: nat, address: nat, size: int)
    requires Pow2(k) <= IntMax && 0 <= size <= IntMax - Pow2(k)
    ensures Alloc1(k, address, size).Ok?
    ensures var s := Alloc1(k, address, size).value;
            s.length == size && s.capacity == size + Pow2(k)
            && s.address % Pow2(k) == 0
            && s.offset < Pow2(k) && s.offset + s.length <= s.capacity
            && (s.offset == 0 <==> address % Pow2(k) == 0)
  {
    var a := Pow2(k);
    var b := Buffer(size + a, 0, size + a);
    assert AllocateDirect(Wrap32(size + a)) == Ok(b);
    IsAlignedIff(k, address);
    if IsAligned(k, address) {
      assert SetLimit(b, size) == Ok(Buffer(size + a, 0, size));
    } else {
      MaskIsMod(address, k);
      UnalignedOffset(k, address);
      var o := a - BitAnd(address, a - 1);
      assert SetPosition(b, o) == Ok(Buffer(size + a, o, size + a));
      assert SetLimit(Buffer(size + a, o, size + a), Wrap32(size + o)) == Ok(Buffer(size + a, o, size + o));
    }
  }

  /** Sizes whose allocation overflows `int` make `allocateDirect` throw. */
  lemma Alloc1Overflow(k: nat, address: nat, size: int)
    requires Pow2(k) <= IntMax && IntMax - Pow2(k) < size <= IntMax
    ensures Alloc1(k, address, size) == Err(NegativeCapacity)
  {
    assert Wrap32(size + Pow2(k)) < 0;
  }

  /** A negative size no larger than `A` in magnitude is refused by `limit`
      on an aligned allocation. On an unaligned one, with `m = address mod A`,
      the offset `A - m` must fit in the `size + A` bytes (else `position`
      throws), and the new limit `size + A - m` must not be negative (else
      `limit` throws); when both hold, the limit falls below the position,
      which is pulled back to it, and an empty slice comes out instead of an
      exception. */
  lemma Alloc1NegativeSize(k: nat, address: nat, size: int)
    requires Pow2(k) <= IntMax && -(Pow2(k) as int) <= size < 0
    ensures address % Pow2(k) == 0 ==> Alloc1(k, address, size) == Err(BadLimit)
    ensures address % Pow2(k) != 0 && address % Pow2(k) < -size ==> Alloc1(k, address, size) == Err(BadPosition)
    ensures address % Pow2(k) != 0 && -size <= address % Pow2(k) ==>
              var limit := size + Pow2(k) - address % Pow2(k);
              Alloc1(k, address, size)
                == if limit >= 0 then Ok(Slice(limit, address + limit, 0, size + Pow2(k))) else Err(BadLimit)
  {
    var a := Pow2(k);
    IsAlignedIff(k, address);
    var b := Buffer(size + a, 0, size + a);
    assert AllocateDirect(Wrap32(size + a)) == Ok(b);
    if address % a != 0 {
      MaskIsMod(address, k);
      var o := a - address % a;
      if address % a >= -size {
        var moved := Buffer(size + a, o, size + a);
        assert SetPosition(b, o) == Ok(moved);
        assert Wrap32(size + o) == size + o;
      }
    }
  }

  /** With `A = 16` and an address 10 past a multiple of 16, `alloc1(-3)`
      gives an empty slice at address 13; 2 past a multiple, it throws. */
  lemma Alloc1NegativeExamples()
    ensures Alloc1(4, 10, -3) == Ok(Slice(3, 13, 0, 13))
    ensures Alloc1(4, 2, -3) == Err(BadPosition)
  {
    assert Pow2(4) == 16;
    Alloc1NegativeSize(4, 10, -3);
    Alloc1NegativeSize(4, 2, -3);
  }
}

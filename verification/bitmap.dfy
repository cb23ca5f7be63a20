/** Header pages are bitmaps: bit `j` of byte `i` (least-significant bit first) records
    whether data page `i * 8 + j` of that header's region is allocated. */
module Bitmap {
  import opened Results

  /** The single-bit mask `1 << j`, spelled out as a table. */
  function Mask(j: nat): bv8
    requires j < 8
  {
    if j == 0 then 0x01 else if j == 1 then 0x02 else if j == 2 then 0x04 else if j == 3 then 0x08
    else if j == 4 then 0x10 else if j == 5 then 0x20 else if j == 6 then 0x40 else 0x80
  }

  lemma MaskIsShift(j: nat)
    requires j < 8
    ensures Mask(j) == 1 << j
  {
  }

  /** Bit `j` of `b`: the one the mask `1 << j` selects. */
  predicate BitOf(b: bv8, j: nat)
    requires j < 8
  {
    b & Mask(j) != 0
  }

  /** Number of set bits of `b` among bits `0 .. j-1`. */
  function CountBits(b: bv8, j: nat): (n: nat)
    requires j <= 8
    ensures n <= j
  {
    if j == 0 then 0 else CountBits(b, j - 1) + (if BitOf(b, j - 1) then 1 else 0)
  }

  /** Population count of one byte. */
  function ByteCount(b: bv8): nat
  {
    CountBits(b, 8)
  }

  /** Population count of a bitmap. */
  function PopCount(bytes: seq<bv8>): (n: nat)
    ensures n <= 8 * |bytes|
  {
    if |bytes| == 0 then 0 else ByteCount(bytes[0]) + PopCount(bytes[1..])
  }

  /** Bit `k` of a bitmap: bit `k % 8` of byte `k / 8`. */
  predicate HeaderBit(bytes: seq<bv8>, k: nat)
    requires k < 8 * |bytes|
  {
    BitOf(bytes[k / 8], k % 8)
  }

  /** `b` with bit `j` set (`_alloc_page`'s `|= 1 << j`). */
  function SetBit(b: bv8, j: nat): (r: bv8)
    requires j < 8
    ensures BitOf(r, j)
    ensures forall i :: 0 <= i < 8 && i != j ==> (BitOf(r, i) <==> BitOf(b, i))
  {
    b | Mask(j)
  }

  /** `b` with bit `j` cleared (`free_page`'s `&= !(1 << j)`). */
  function ClearBit(b: bv8, j: nat): (r: bv8)
    requires j < 8
    ensures !BitOf(r, j)
    ensures forall i :: 0 <= i < 8 && i != j ==> (BitOf(r, i) <==> BitOf(b, i))
  {
    b & !Mask(j)
  }

  /** Two bytes with the same bits are the same byte. */
  lemma BitsDetermineByte(a: bv8, b: bv8)
    requires forall i :: 0 <= i < 8 ==> (BitOf(a, i) <==> BitOf(b, i))
    ensures a == b
  {
    assert BitOf(a, 0) == BitOf(b, 0) && BitOf(a, 1) == BitOf(b, 1);
    assert BitOf(a, 2) == BitOf(b, 2) && BitOf(a, 3) == BitOf(b, 3);
    assert BitOf(a, 4) == BitOf(b, 4) && BitOf(a, 5) == BitOf(b, 5);
    assert BitOf(a, 6) == BitOf(b, 6) && BitOf(a, 7) == BitOf(b, 7);
  }

  /** Setting a clear bit adds one to the count of every prefix that contains it. */
  lemma {:induction false} CountBitsSet(b: bv8, j: nat, n: nat)
    requires j < 8 && n <= 8 && !BitOf(b, j)
    ensures CountBits(SetBit(b, j), n) == CountBits(b, n) + (if j < n then 1 else 0)
  {
    if n > 0 {
      CountBitsSet(b, j, n - 1);
    }
  }

  /** Clearing a set bit removes one from the count of every prefix that contains it. */
  lemma {:induction false} CountBitsClear(b: bv8, j: nat, n: nat)
    requires j < 8 && n <= 8 && BitOf(b, j)
    ensures CountBits(ClearBit(b, j), n) + (if j < n then 1 else 0) == CountBits(b, n)
  {
    if n > 0 {
      CountBitsClear(b, j, n - 1);
    }
  }

  lemma SetBitCount(b: bv8, j: nat)
    requires j < 8
    ensures !BitOf(b, j) ==> ByteCount(SetBit(b, j)) == ByteCount(b) + 1
  {
    if !BitOf(b, j) {
      CountBitsSet(b, j, 8);
    }
  }

  lemma ClearBitCount(b: bv8, j: nat)
    requires j < 8
    ensures BitOf(b, j) ==> ByteCount(ClearBit(b, j)) + 1 == ByteCount(b)
  {
    if BitOf(b, j) {
      CountBitsClear(b, j, 8);
    }
  }

  /** A byte whose bits `0 .. n-1` are all set counts `n` there, and conversely. */
  lemma {:induction false} CountBitsFull(b: bv8, n: nat)
    requires n <= 8
    ensures CountBits(b, n) == n <==> forall i :: 0 <= i < n ==> BitOf(b, i)
  {
    if n > 0 {
      CountBitsFull(b, n - 1);
    }
  }

  lemma {:induction false} CountBitsZero(n: nat)
    requires n <= 8
    ensures CountBits(0, n) == 0
  {
    if n > 0 {
      CountBitsZero(n - 1);
      assert !BitOf(0, n - 1);
    }
  }

  /** Replacing byte `i` changes the bitmap's count by the difference of the two bytes' counts. */
  lemma {:induction false} PopCountUpdate(bytes: seq<bv8>, i: nat, x: bv8)
    requires i < |bytes|
    ensures PopCount(bytes[i := x]) + ByteCount(bytes[i]) == PopCount(bytes) + ByteCount(x)
  {
    if i == 0 {
      assert bytes[i := x][1..] == bytes[1..];
    } else {
      PopCountUpdate(bytes[1..], i - 1, x);
      assert bytes[i := x][1..] == bytes[1..][i - 1 := x];
    }
  }

  /** A bitmap counts `8 * |bytes|` exactly when every one of its bits is set. */
  lemma {:induction false} PopCountFull(bytes: seq<bv8>)
    ensures PopCount(bytes) == 8 * |bytes| <==> forall k :: 0 <= k < 8 * |bytes| ==> HeaderBit(bytes, k)
  {
    if |bytes| > 0 {
      PopCountFull(bytes[1..]);
      CountBitsFull(bytes[0], 8);
      var rest := bytes[1..];
      if PopCount(bytes) == 8 * |bytes| {
        forall k | 0 <= k < 8 * |bytes|
          ensures HeaderBit(bytes, k)
        {
          if k >= 8 {
            assert HeaderBit(rest, k - 8);
            assert (k - 8) / 8 == k / 8 - 1 && (k - 8) % 8 == k % 8;
          }
        }
      } else if forall k :: 0 <= k < 8 * |bytes| ==> HeaderBit(bytes, k) {
        forall i | 0 <= i < 8
          ensures BitOf(bytes[0], i)
        {
          assert HeaderBit(bytes, i);
        }
        forall k | 0 <= k < 8 * |rest|
          ensures HeaderBit(rest, k)
        {
          assert HeaderBit(bytes, k + 8);
          assert (k + 8) / 8 == k / 8 + 1 && (k + 8) % 8 == k % 8;
        }
        assert false;
      }
    }
  }

  /** An all-zero bitmap counts zero. */
  lemma {:induction false} PopCountZero(bytes: seq<bv8>)
    requires forall i :: 0 <= i < |bytes| ==> bytes[i] == 0
    ensures PopCount(bytes) == 0
  {
    if |bytes| > 0 {
      CountBitsZero(8);
      PopCountZero(bytes[1..]);
    }
  }

  /** The lowest clear bit of byte `b` at position `j` or above. */
  function FirstClearInByteFrom(b: bv8, j: nat): (r: Option<nat>)
    requires j <= 8
    ensures r.Some? ==> j <= r.value < 8
    decreases 8 - j
  {
    if j == 8 then None
    else if !BitOf(b, j) then Some(j)
    else FirstClearInByteFrom(b, j + 1)
  }

  /** The bit `FirstClearInByteFrom` finds is clear and every bit it passes over is set; when
      it finds none, all bits from `j` up are set. */
  lemma {:induction false} FirstClearInByteFromSpec(b: bv8, j: nat)
    requires j <= 8
    ensures var r := FirstClearInByteFrom(b, j);
            && (r.Some? ==> !BitOf(b, r.value) && forall i :: j <= i < r.value ==> BitOf(b, i))
            && (r.None? ==> forall i :: j <= i < 8 ==> BitOf(b, i))
    decreases 8 - j
  {
    if j < 8 && BitOf(b, j) {
      FirstClearInByteFromSpec(b, j + 1);
    }
  }

  /** The lowest clear bit of a bitmap at byte `i` or later, scanning bytes in ascending
      order and the bits of each byte from the least significant up. */
  function FirstClearFrom(bytes: seq<bv8>, i: nat): (r: Option<nat>)
    requires i <= |bytes|
    ensures r.Some? ==> 8 * i <= r.value < 8 * |bytes|
    decreases |bytes| - i
  {
    if i == |bytes| then None
    else
      match FirstClearInByteFrom(bytes[i], 0)
      case Some(j) => Some(i * 8 + j)
      case None => FirstClearFrom(bytes, i + 1)
  }

  /** The bit `FirstClearFrom` finds is clear and every bit it passes over is set; when it
      finds none, all bits from byte `i` on are set. */
  lemma {:induction false} FirstClearFromSpec(bytes: seq<bv8>, i: nat)
    requires i <= |bytes|
    ensures var r := FirstClearFrom(bytes, i);
            && (r.Some? ==> !HeaderBit(bytes, r.value) && forall k :: 8 * i <= k < r.value ==> HeaderBit(bytes, k))
            && (r.None? ==> forall k :: 8 * i <= k < 8 * |bytes| ==> HeaderBit(bytes, k))
    decreases |bytes| - i
  {
    if i < |bytes| {
      FirstClearInByteFromSpec(bytes[i], 0);
      match FirstClearInByteFrom(bytes[i], 0)
      case Some(j) =>
        assert (i * 8 + j) / 8 == i && (i * 8 + j) % 8 == j;
        assert forall k :: 8 * i <= k < i * 8 + j ==> k / 8 == i && k % 8 < j && HeaderBit(bytes, k);
      case None =>
        FirstClearFromSpec(bytes, i + 1);
        assert forall k :: 8 * i <= k < 8 * (i + 1) ==> k / 8 == i && HeaderBit(bytes, k);
    }
  }

  /** First-fit within one header page: the lowest-numbered clear bit, if any. */
  function FirstClearBit(bytes: seq<bv8>): (r: Option<nat>)
    ensures r.Some? ==> r.value < 8 * |bytes| && !HeaderBit(bytes, r.value)
                        && forall k :: 0 <= k < r.value ==> HeaderBit(bytes, k)
    ensures r.None? <==> forall k :: 0 <= k < 8 * |bytes| ==> HeaderBit(bytes, k)
  {
    FirstClearFromSpec(bytes, 0);
    FirstClearFrom(bytes, 0)
  }

  /** The bitmap with bit `k` set: only that bit changes, and the count grows by one when
      the bit was clear. */
  function SetHeaderBit(bytes: seq<bv8>, k: nat): (r: seq<bv8>)
    requires k < 8 * |bytes|
    ensures |r| == |bytes|
    ensures HeaderBit(r, k)
    ensures forall i :: 0 <= i < 8 * |bytes| && i != k ==> (HeaderBit(r, i) <==> HeaderBit(bytes, i))
    ensures !HeaderBit(bytes, k) ==> PopCount(r) == PopCount(bytes) + 1
  {
    var b := bytes[k / 8];
    SetBitCount(b, k % 8);
    PopCountUpdate(bytes, k / 8, SetBit(b, k % 8));
    bytes[k / 8 := SetBit(b, k % 8)]
  }

  /** The bitmap with bit `k` cleared: only that bit changes, and the count drops by one when
      the bit was set. */
  function ClearHeaderBit(bytes: seq<bv8>, k: nat): (r: seq<bv8>)
    requires k < 8 * |bytes|
    ensures |r| == |bytes|
    ensures !HeaderBit(r, k)
    ensures forall i :: 0 <= i < 8 * |bytes| && i != k ==> (HeaderBit(r, i) <==> HeaderBit(bytes, i))
    ensures HeaderBit(bytes, k) ==> PopCount(r) + 1 == PopCount(bytes)
  {
    var b := bytes[k / 8];
    ClearBitCount(b, k % 8);
    PopCountUpdate(bytes, k / 8, ClearBit(b, k % 8));
    bytes[k / 8 := ClearBit(b, k % 8)]
  }

  /** Two bitmaps of one length with the same bits are equal. */
  lemma BitsDetermineBitmap(a: seq<bv8>, b: seq<bv8>)
    requires |a| == |b|
    requires forall k :: 0 <= k < 8 * |a| ==> (HeaderBit(a, k) <==> HeaderBit(b, k))
    ensures a == b
  {
    forall i | 0 <= i < |a|
      ensures a[i] == b[i]
    {
      forall j | 0 <= j < 8
        ensures BitOf(a[i], j) <==> BitOf(b[i], j)
      {
        var k := 8 * i + j;
        assert k / 8 == i && k % 8 == j;
        assert HeaderBit(a, k) <==> HeaderBit(b, k);
      }
      BitsDetermineByte(a[i], b[i]);
    }
  }

  /** Clearing a bit that was just set, where it had been clear, restores the bitmap. */
  lemma ClearUndoesSet(bytes: seq<bv8>, k: nat)
    requires k < 8 * |bytes| && !HeaderBit(bytes, k)
    ensures ClearHeaderBit(SetHeaderBit(bytes, k), k) == bytes
  {
    BitsDetermineBitmap(ClearHeaderBit(SetHeaderBit(bytes, k), k), bytes);
  }
}

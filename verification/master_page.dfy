/** The master page: one 16-bit allocated-page counter per header page, stored on disk as
    `MAX_HEADER_PAGES` consecutive little-endian pairs of bytes filling exactly one page.
    The codec is arithmetic (`to_le_bytes` / `from_le_bytes`), so its bytes are the
    numbers 0 to 255 rather than bit-vectors. */
module MasterPage {
  import opened Results
  import opened Layout

  const U16_LIMIT: nat := 0x1_0000

  /** One byte of the file, as a number. The codec does arithmetic on bytes (`lo + 256 * hi`,
      `c % 256`, `c / 256`), which is plain integer arithmetic on `int` and would need casts on
      `bv8`; the bitmaps, which only test and set bits, keep `bv8`. */
  type Byte = b: int | 0 <= b < 0x100

  /** An unsigned 16-bit counter. */
  type Counter = c: int | 0 <= c < 0x1_0000

  /** Value of a little-endian byte pair. */
  function FromLeBytes(lo: Byte, hi: Byte): (c: Counter)
    ensures c % 256 == lo && c / 256 == hi
  {
    lo + 256 * hi
  }

  /** The little-endian byte pair of one counter. */
  function ToLeBytes(c: Counter): (pair: seq<Byte>)
    ensures |pair| == U8_PER_U16
    ensures FromLeBytes(pair[0], pair[1]) == c
  {
    [c % 256, c / 256]
  }

  /** A byte pair is the encoding of the counter it decodes to. */
  lemma LeBytesDetermined(lo: Byte, hi: Byte)
    ensures ToLeBytes(FromLeBytes(lo, hi)) == [lo, hi]
  {
  }

  /** Serialisation of the counters, each as two little-endian bytes, in header order. */
  function ToBytes(m: seq<Counter>): (bytes: seq<Byte>)
    ensures |bytes| == U8_PER_U16 * |m|
    ensures forall i :: 0 <= i < |m| ==> FromLeBytes(bytes[2 * i], bytes[2 * i + 1]) == m[i]
  {
    if |m| == 0 then [] else ToLeBytes(m[0]) + ToBytes(m[1..])
  }

  /** The first `n` counters of a buffer, counter `i` taken from bytes `2i` and `2i + 1`. */
  function Counters(bytes: seq<Byte>, n: nat): (m: seq<Counter>)
    requires U8_PER_U16 * n <= |bytes|
    ensures |m| == n
    ensures forall i :: 0 <= i < n ==> m[i] % 256 == bytes[2 * i] && m[i] / 256 == bytes[2 * i + 1]
  {
    seq(n, i requires 0 <= i < n => FromLeBytes(bytes[2 * i], bytes[2 * i + 1]))
  }

  lemma CounterAt(bytes: seq<Byte>, n: nat, i: nat)
    requires U8_PER_U16 * n <= |bytes| && i < n
    ensures Counters(bytes, n)[i] == FromLeBytes(bytes[2 * i], bytes[2 * i + 1])
  {
  }

  /** Reading the master page back from a file image: the first page is read whole
      (a shorter file is an I/O error) and decoded counter by counter. */
  function ReadFromFile(file: seq<Byte>): (r: Result<seq<Counter>>)
    ensures r.Err? <==> |file| < PAGE_SIZE
    ensures r.Err? ==> r.error == IoError
    ensures r.Ok? ==> |r.value| == MAX_HEADER_PAGES
  {
    if |file| < PAGE_SIZE then Err(IoError)
    else Ok(Counters(file[..PAGE_SIZE], MAX_HEADER_PAGES))
  }

  /** The master page fills exactly one page on disk. */
  lemma EncodedSizeIsOnePage(m: seq<Counter>)
    requires |m| == MAX_HEADER_PAGES
    ensures |ToBytes(m)| == PAGE_SIZE
  {
  }

  /** Decoding the serialised master page (followed by anything else in the file) gives back
      the original counters. */
  lemma RoundTrip(m: seq<Counter>, rest: seq<Byte>)
    requires |m| == MAX_HEADER_PAGES
    ensures ReadFromFile(ToBytes(m) + rest) == Ok(m)
  {
    var file := ToBytes(m) + rest;
    assert file[..PAGE_SIZE] == ToBytes(m);
    DecodeEncoded(m);
  }

  lemma DecodeEncoded(m: seq<Counter>)
    ensures Counters(ToBytes(m), |m|) == m
  {
    var e := ToBytes(m);
    var d := Counters(e, |m|);
    forall i | 0 <= i < |m|
      ensures d[i] == m[i]
    {
      CounterAt(e, |m|, i);
    }
  }

  /** Conversely, every page-sized buffer is the serialisation of the counters it decodes to. */
  lemma EncodeDecoded(file: seq<Byte>)
    requires |file| >= PAGE_SIZE
    ensures ReadFromFile(file).Ok? && ToBytes(ReadFromFile(file).value) == file[..PAGE_SIZE]
  {
    var f := file[..PAGE_SIZE];
    var m := Counters(f, MAX_HEADER_PAGES);
    var e := ToBytes(m);
    forall k | 0 <= k < PAGE_SIZE
      ensures e[k] == f[k]
    {
      var i := k / 2;
      assert m[i] % 256 == f[2 * i] && m[i] / 256 == f[2 * i + 1];
      assert FromLeBytes(e[2 * i], e[2 * i + 1]) == m[i];
      assert k == 2 * i || k == 2 * i + 1;
    }
  }

  /** One more page allocated under header `h`; `MasterPage::up`'s `+= 1` on a `u16`
      panics on overflow. */
  function Up(m: seq<Counter>, h: nat): (r: seq<Counter>)
    requires h < |m| && m[h] + 1 < U16_LIMIT
    ensures |r| == |m| && r[h] == m[h] + 1
    ensures forall i :: 0 <= i < |m| && i != h ==> r[i] == m[i]
  {
    m[h := m[h] + 1]
  }

  /** One page fewer allocated under header `h`; `MasterPage::down`'s `-= 1` on a `u16`
      panics below zero. */
  function Down(m: seq<Counter>, h: nat): (r: seq<Counter>)
    requires h < |m| && m[h] > 0
    ensures |r| == |m| && r[h] == m[h] - 1
    ensures forall i :: 0 <= i < |m| && i != h ==> r[i] == m[i]
  {
    m[h := m[h] - 1]
  }

  /** `Down` undoes `Up`. */
  lemma DownUndoesUp(m: seq<Counter>, h: nat)
    requires h < |m| && m[h] + 1 < U16_LIMIT
    ensures Down(Up(m, h), h) == m
  {
  }
}

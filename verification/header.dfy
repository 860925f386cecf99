/** The fixed 32-byte LZ4P header and the block size table that follows it.
    Every word is read little-endian (the source casts the buffer to the
    header record, so its byte order is the platform's; this model fixes it). */
module Lz4pHeader {
  import opened Bytes

  const HEADER_SIZE: nat := 32
  /** The tag 'L', 'Z', '4', 'P'. */
  const MAGIC: seq<byte> := [0x4C, 0x5A, 0x34, 0x50]

  /** The header record: tag, original size, compressed size, block size,
      block count and three reserved words. */
  datatype Header = Header(magic: seq<byte>, osize: nat, csize: nat, bsize: nat,
                           nblock: nat, reserved: seq<nat>)

  ghost predicate WellFormed(h: Header) {
    |h.magic| == 4 && h.osize < TWO_32 && h.csize < TWO_32 && h.bsize < TWO_32
    && h.nblock < TWO_32 && |h.reserved| == 3
    && forall i :: 0 <= i < 3 ==> h.reserved[i] < TWO_32
  }

  /** The byte-wise comparison of the first four bytes with the tag. */
  predicate MagicOk(s: seq<byte>) {
    |s| >= 4 && s[..4] == MAGIC
  }

  /** C's `memcmp` over two byte strings of one length: 0 when they match,
      otherwise negative or positive as the first differing byte of `a` is
      below or above that of `b`. */
  function Memcmp(a: seq<byte>, b: seq<byte>): (r: int)
    requires |a| == |b|
    ensures r == 0 <==> a == b
    decreases |a|
  {
    if |a| == 0 then 0
    else if a[0] < b[0] then -1
    else if a[0] > b[0] then 1
    else
      assert a == [a[0]] + a[1..] && b == [b[0]] + b[1..];
      Memcmp(a[1..], b[1..])
  }

  /** The tag check is a `memcmp` of the first four bytes against `LZ4P`
      that returned 0. */
  lemma MagicIsMemcmp(s: seq<byte>)
    requires |s| >= 4
    ensures MagicOk(s) <==> Memcmp(s[..4], MAGIC) == 0
  {
  }

  /** The header at the start of `s`: the tag at offset 0 and the words at
      offsets 4, 8, 12, 16, 20, 24 and 28. */
  function ParseHeader(s: seq<byte>): (h: Header)
    requires |s| >= HEADER_SIZE
    ensures WellFormed(h)
    ensures MagicOk(s) <==> h.magic == MAGIC
  {
    Header(s[..4], U32At(s, 4), U32At(s, 8), U32At(s, 12), U32At(s, 16),
           [U32At(s, 20), U32At(s, 24), U32At(s, 28)])
  }

  /** The seven words after the tag, in header order. */
  function HeaderWords(h: Header): (w: seq<nat>)
    requires WellFormed(h)
    ensures |w| == 7 && forall i :: 0 <= i < 7 ==> w[i] < TWO_32
  {
    [h.osize, h.csize, h.bsize, h.nblock] + h.reserved
  }

  /** What an encoder writes for `h`. */
  function EncodeHeader(h: Header): (s: seq<byte>)
    requires WellFormed(h)
    ensures |s| == HEADER_SIZE
  {
    h.magic + EncodeTable(HeaderWords(h))
  }

  lemma WordAt(s: seq<byte>, off: nat, x: nat)
    requires off + 4 <= |s| && x < TWO_32 && s[off..off + 4] == LE32(x)
    ensures U32At(s, off) == x
  {
    U32AtSlice(s, off);
  }

  /** Parsing what the encoder wrote gives back the header, whatever follows it. */
  lemma ParseEncodeHeader(h: Header, rest: seq<byte>)
    requires WellFormed(h)
    ensures ParseHeader(EncodeHeader(h) + rest) == h
  {
    var s := EncodeHeader(h) + rest;
    var w := HeaderWords(h);
    assert s[..4] == h.magic;
    assert s[4..4 + 4 * |w|] == EncodeTable(w);
    TableEncodeTable(s, 4, w);
    TableAt(s, 4, 7, 0);
    TableAt(s, 4, 7, 1);
    TableAt(s, 4, 7, 2);
    TableAt(s, 4, 7, 3);
    TableAt(s, 4, 7, 4);
    TableAt(s, 4, 7, 5);
    TableAt(s, 4, 7, 6);
    assert w[4] == h.reserved[0] && w[5] == h.reserved[1] && w[6] == h.reserved[2];
    assert h.reserved == [w[4], w[5], w[6]];
  }

  /** The original size field, read without looking at the tag. */
  function GetDecompSize(buf: seq<byte>): (r: nat)
    requires |buf| >= 8
    ensures r < TWO_32
    ensures |buf| >= HEADER_SIZE ==> r == ParseHeader(buf).osize
  {
    U32At(buf, 4)
  }

  /** The original size of any encoded header comes back, whether or not its
      tag is the LZ4P tag. */
  lemma DecompSizeOfEncoded(h: Header, rest: seq<byte>)
    requires WellFormed(h)
    ensures GetDecompSize(EncodeHeader(h) + rest) == h.osize
  {
    ParseEncodeHeader(h, rest);
  }

  /** The byte length of the block size table: four bytes per block, computed
      in 32-bit unsigned arithmetic as the source does. */
  function TableBytes(nblock: nat): (r: nat)
    ensures r < TWO_32
    ensures nblock < TWO_32 / 4 ==> r == 4 * nblock
  {
    (4 * nblock) % TWO_32
  }

  /** `count` words stored one after another from offset `off`. */
  function Table(s: seq<byte>, off: nat, count: nat): (t: seq<nat>)
    requires off + 4 * count <= |s|
    ensures |t| == count
    ensures forall i :: 0 <= i < count ==> t[i] < TWO_32
    decreases count
  {
    if count == 0 then [] else [U32At(s, off)] + Table(s, off + 4, count - 1)
  }

  /** Entry `i` of the table is the word at offset `off + 4 * i`. */
  lemma {:induction false} TableAt(s: seq<byte>, off: nat, count: nat, i: nat)
    requires off + 4 * count <= |s| && i < count
    ensures Table(s, off, count)[i] == U32At(s, off + 4 * i)
    decreases count
  {
    if i > 0 {
      TableAt(s, off + 4, count - 1, i - 1);
    }
  }

  function EncodeTable(t: seq<nat>): (s: seq<byte>)
    requires forall i :: 0 <= i < |t| ==> t[i] < TWO_32
    ensures |s| == 4 * |t|
  {
    if t == [] then [] else LE32(t[0]) + EncodeTable(t[1..])
  }

  /** Reading back an encoded table gives the table. */
  lemma {:induction false} TableEncodeTable(s: seq<byte>, off: nat, t: seq<nat>)
    requires forall i :: 0 <= i < |t| ==> t[i] < TWO_32
    requires off + 4 * |t| <= |s| && s[off..off + 4 * |t|] == EncodeTable(t)
    ensures Table(s, off, |t|) == t
    decreases |t|
  {
    if t != [] {
      var e := EncodeTable(t);
      assert s[off..off + 4] == e[..4] == LE32(t[0]);
      WordAt(s, off, t[0]);
      assert s[off + 4..off + 4 + 4 * |t[1..]|] == e[4..] == EncodeTable(t[1..]);
      TableEncodeTable(s, off + 4, t[1..]);
    }
  }
}

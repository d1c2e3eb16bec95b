/**
 * The byte layout of a compiled gettext catalog ("The Format of GNU MO Files",
 * section 10.3 of the GNU gettext manual), as the writer produces it from the
 * serialized keys and values of a catalog, already in table order:
 *
 *   magic (4 bytes) | six header words | N (length, offset) rows for the keys
 *   | N (length, offset) rows for the values | the keys, each NUL-terminated
 *   | the values, each NUL-terminated
 *
 * All words are unsigned 32-bit values in the chosen byte order. No hashing
 * table is written: its size is 0 and its offset is the end of the second table.
 */
module MoLayout {
  import opened Bytes

  /** The MO magic number 0x950412de, most significant byte first. */
  const BE_MAGIC: seq<byte> := [0x95, 0x04, 0x12, 0xde]

  /** Magic number and six header words: the offset at which the first table starts. */
  const HEADER_SIZE_IN_BYTES: nat := 28

  /** The magic bytes of a file in the given byte order: the same number, read in that order. */
  function MagicBytes(bigEndian: bool): (r: seq<byte>)
    ensures |r| == 4 && DecodeU32(r[0], r[1], r[2], r[3], bigEndian) == 0x950412de
  {
    if bigEndian then BE_MAGIC else Reversed(BE_MAGIC)
  }

  /** Bytes taken by the strings `ss` when each is followed by a NUL: the sum of `|s| + 1`. */
  function Span(ss: seq<seq<byte>>): nat
    decreases |ss|
  {
    if ss == [] then 0 else Span(ss[..|ss| - 1]) + |ss[|ss| - 1]| + 1
  }

  lemma SpanStep(ss: seq<seq<byte>>, i: nat)
    requires i < |ss|
    ensures Span(ss[..i + 1]) == Span(ss[..i]) + |ss[i]| + 1
  {
    assert ss[..i + 1][..i] == ss[..i];
  }

  lemma {:induction false} SpanMonotone(ss: seq<seq<byte>>, i: nat, j: nat)
    requires i <= j <= |ss|
    ensures Span(ss[..i]) <= Span(ss[..j])
    decreases j - i
  {
    if i < j {
      SpanStep(ss, j - 1);
      SpanMonotone(ss, i, j - 1);
    }
  }

  /** Size in bytes of the file holding `keys` and `vals`. */
  function MoSize(keys: seq<seq<byte>>, vals: seq<seq<byte>>): nat {
    HEADER_SIZE_IN_BYTES + 16 * |keys| + Span(keys) + Span(vals)
  }

  /** Every offset and length the file holds fits in an unsigned 32-bit word. */
  predicate Fits(keys: seq<seq<byte>>, vals: seq<seq<byte>>) {
    MoSize(keys, vals) < TWO32
  }

  /**
   * The six header words for `n` strings: revision 0, `n`, the offset of the key
   * table, the offset of the value table, hashing-table size 0, hashing-table offset.
   */
  function HeaderWords(n: nat): (ws: seq<u32>)
    requires HEADER_SIZE_IN_BYTES + 16 * n < TWO32
    ensures |ws| == 6 && ws[0] == 0 && ws[1] == n && ws[4] == 0
    ensures ws[2] == HEADER_SIZE_IN_BYTES
    ensures ws[3] == ws[2] + 8 * ws[1] && ws[5] == ws[3] + 8 * ws[1]
  {
    [0, n, HEADER_SIZE_IN_BYTES, HEADER_SIZE_IN_BYTES + 8 * n, 0, HEADER_SIZE_IN_BYTES + 16 * n]
  }

  /**
   * The (length, offset) rows for strings `ss` laid out from `base` on, each string
   * followed by a NUL.
   */
  function TableWords(ss: seq<seq<byte>>, base: nat): (ws: seq<u32>)
    requires base + Span(ss) < TWO32
    ensures |ws| == 2 * |ss|
    decreases |ss|
  {
    if ss == [] then []
    else
      var front := ss[..|ss| - 1];
      TableWords(front, base) + [|ss[|ss| - 1]|, base + Span(front)]
  }

  /** Row `i` of a table: the length of string `i` and its offset `base` + the span of the ones before it. */
  lemma {:induction false} TableRow(ss: seq<seq<byte>>, base: nat, i: nat)
    requires base + Span(ss) < TWO32
    requires i < |ss|
    ensures TableWords(ss, base)[2 * i] == |ss[i]|
    ensures TableWords(ss, base)[2 * i + 1] == base + Span(ss[..i])
    decreases |ss|
  {
    var front := ss[..|ss| - 1];
    if i < |ss| - 1 {
      TableRow(front, base, i);
      assert front[..i] == ss[..i];
    }
  }

  /** The strings `ss`, each followed by a NUL byte. */
  function Blob(ss: seq<seq<byte>>): (r: seq<byte>)
    ensures |r| == Span(ss)
    decreases |ss|
  {
    if ss == [] then [] else Blob(ss[..|ss| - 1]) + ss[|ss| - 1] + [0]
  }

  /** String `i` of a blob starts at the span of the strings before it and is followed by a NUL. */
  lemma {:induction false} BlobAt(ss: seq<seq<byte>>, i: nat)
    requires i < |ss|
    ensures Span(ss[..i]) + |ss[i]| < |Blob(ss)|
    ensures Blob(ss)[Span(ss[..i]) .. Span(ss[..i]) + |ss[i]|] == ss[i]
    ensures Blob(ss)[Span(ss[..i]) + |ss[i]|] == 0
    decreases |ss|
  {
    var n := |ss|;
    var front := ss[..n - 1];
    var at := Span(ss[..i]);
    if i < n - 1 {
      BlobAt(front, i);
      assert front[..i] == ss[..i];
      PrefixSlice(Blob(front), ss[n - 1] + [0], at, at + |ss[i]|);
    } else {
      assert ss[..i] == front;
      MiddleSlice(Blob(front), ss[n - 1], [0], 0, |ss[i]|);
    }
  }

  /** The word index of key row `i` is 6 + 2i, of value row `i` is 6 + 2N + 2i. */
  function AllWords(keys: seq<seq<byte>>, vals: seq<seq<byte>>): (ws: seq<u32>)
    requires Fits(keys, vals)
    ensures |ws| == 6 + 2 * |keys| + 2 * |vals|
  {
    var n := |keys|;
    var hashTableOffset := HEADER_SIZE_IN_BYTES + 16 * n;
    HeaderWords(n) + TableWords(keys, hashTableOffset) + TableWords(vals, hashTableOffset + Span(keys))
  }

  /**
   * The whole file for `keys` and their `vals`, row `i` of each table describing
   * `keys[i]` and `vals[i]`. Its size is `MoSize`: 28 + 16N + the spans of both blobs.
   */
  function Layout(keys: seq<seq<byte>>, vals: seq<seq<byte>>, bigEndian: bool): (out: seq<byte>)
    requires |keys| == |vals|
    requires Fits(keys, vals)
    ensures |out| == MoSize(keys, vals)
  {
    MagicBytes(bigEndian) + Words(AllWords(keys, vals), bigEndian) + Blob(keys) + Blob(vals)
  }

  // ---------------------------------------------------------------------------
  // Where each part of the layout lies
  // ---------------------------------------------------------------------------

  lemma AllWordsParts(keys: seq<seq<byte>>, vals: seq<seq<byte>>)
    requires Fits(keys, vals)
    ensures AllWords(keys, vals)
         == HeaderWords(|keys|)
          + TableWords(keys, HEADER_SIZE_IN_BYTES + 16 * |keys|)
          + TableWords(vals, HEADER_SIZE_IN_BYTES + 16 * |keys| + Span(keys))
  {
  }

  lemma RowOfConcat(front: seq<u32>, t: seq<u32>, n: nat, i: nat)
    requires |front| == 6 + 2 * n
    requires 2 * i + 1 < |t|
    ensures (front + t)[6 + 2 * n + 2 * i] == t[2 * i]
    ensures (front + t)[7 + 2 * n + 2 * i] == t[2 * i + 1]
  {
  }

  /** Where the key `keys[i]` is stored: after both tables and the keys before it. */
  function KeyOffset(keys: seq<seq<byte>>, i: nat): nat
    requires i <= |keys|
  {
    HEADER_SIZE_IN_BYTES + 16 * |keys| + Span(keys[..i])
  }

  /** Where the value `vals[i]` is stored: after all keys and the values before it. */
  function ValueOffset(keys: seq<seq<byte>>, vals: seq<seq<byte>>, i: nat): nat
    requires i <= |vals|
  {
    HEADER_SIZE_IN_BYTES + 16 * |keys| + Span(keys) + Span(vals[..i])
  }

  lemma AllWordsKeyRow(keys: seq<seq<byte>>, vals: seq<seq<byte>>, i: nat)
    requires |keys| == |vals| && Fits(keys, vals)
    requires i < |keys|
    ensures AllWords(keys, vals)[6 + 2 * i] == |keys[i]|
    ensures AllWords(keys, vals)[7 + 2 * i] == KeyOffset(keys, i)
  {
    var n := |keys|;
    var base := HEADER_SIZE_IN_BYTES + 16 * n;
    var t1 := TableWords(keys, base);
    var t2 := TableWords(vals, base + Span(keys));
    AllWordsParts(keys, vals);
    TableRow(keys, base, i);
    assert (HeaderWords(n) + t1 + t2)[6 + 2 * i] == (HeaderWords(n) + t1)[6 + 2 * i];
    assert (HeaderWords(n) + t1 + t2)[7 + 2 * i] == (HeaderWords(n) + t1)[7 + 2 * i];
    RowOfConcat(HeaderWords(n), t1, 0, i);
  }

  lemma AllWordsValueRow(keys: seq<seq<byte>>, vals: seq<seq<byte>>, i: nat)
    requires |keys| == |vals| && Fits(keys, vals)
    requires i < |vals|
    ensures AllWords(keys, vals)[6 + 2 * |keys| + 2 * i] == |vals[i]|
    ensures AllWords(keys, vals)[7 + 2 * |keys| + 2 * i] == ValueOffset(keys, vals, i)
  {
    var n := |keys|;
    var base := HEADER_SIZE_IN_BYTES + 16 * n;
    var front := HeaderWords(n) + TableWords(keys, base);
    var valueBase := base + Span(keys);
    var t2 := TableWords(vals, valueBase);
    AllWordsParts(keys, vals);
    assert valueBase + Span(vals) < TWO32;
    TableRow(vals, valueBase, i);
    assert t2[2 * i + 1] == valueBase + Span(vals[..i]);
    RowOfConcat(front, t2, n, i);
  }

  /**
   * In a file made of a 4-byte magic `a`, the words `ws` and two more parts, word `k`
   * is read back at byte 4 + 4k.
   */
  lemma ReadWordOfParts(a: seq<byte>, w: seq<byte>, c: seq<byte>, d: seq<byte>, ws: seq<u32>, bigEndian: bool,
                        k: nat, pos: nat)
    requires |a| == 4 && w == Words(ws, bigEndian)
    requires k < |ws| && pos == 4 + 4 * k
    ensures pos + 4 <= |a + w + c + d|
    ensures ReadWord(a + w + c + d, pos, bigEndian) == ws[k]
  {
    var b := a + w + c + d;
    WordAt(ws, k, bigEndian);
    assert b[pos .. pos + 4] == w[4 * k .. 4 * k + 4];
    ReadWrittenWord(b, pos, ws[k], bigEndian);
  }

  /** Word `k` of `AllWords`, `v`, is read back at byte 4 + 4k of the file. */
  lemma LayoutWord(keys: seq<seq<byte>>, vals: seq<seq<byte>>, bigEndian: bool, k: nat, pos: nat, v: u32)
    requires |keys| == |vals| && Fits(keys, vals)
    requires k < |AllWords(keys, vals)| && pos == 4 + 4 * k && AllWords(keys, vals)[k] == v
    ensures pos + 4 <= |Layout(keys, vals, bigEndian)|
    ensures ReadWord(Layout(keys, vals, bigEndian), pos, bigEndian) == v
  {
    ReadWordOfParts(MagicBytes(bigEndian), Words(AllWords(keys, vals), bigEndian), Blob(keys), Blob(vals),
                    AllWords(keys, vals), bigEndian, k, pos);
  }

  /** The file starts with `BE_MAGIC` when big-endian and with `BE_MAGIC` reversed otherwise. */
  lemma LayoutMagic(keys: seq<seq<byte>>, vals: seq<seq<byte>>, bigEndian: bool)
    requires |keys| == |vals| && Fits(keys, vals)
    ensures Layout(keys, vals, bigEndian)[..4] == MagicBytes(bigEndian)
  {
    var magic := MagicBytes(bigEndian);
    var rest := Words(AllWords(keys, vals), bigEndian) + Blob(keys) + Blob(vals);
    assert Layout(keys, vals, bigEndian) == magic + rest;
    assert (magic + rest)[..4] == magic;
  }

  /**
   * The six header words follow the magic number: revision 0, N, the key table
   * offset 28, the value table offset 28 + 8N, hashing-table size 0 and
   * hashing-table offset 28 + 16N. Magic and header end exactly where the key table
   * starts (`HEADER_SIZE_IN_BYTES`).
   */
  lemma LayoutHeader(keys: seq<seq<byte>>, vals: seq<seq<byte>>, bigEndian: bool)
    requires |keys| == |vals| && Fits(keys, vals)
    ensures |MagicBytes(bigEndian) + Words(HeaderWords(|keys|), bigEndian)| == HEADER_SIZE_IN_BYTES
    ensures HEADER_SIZE_IN_BYTES <= |Layout(keys, vals, bigEndian)|
    ensures ReadWord(Layout(keys, vals, bigEndian), 4, bigEndian) == 0
    ensures ReadWord(Layout(keys, vals, bigEndian), 8, bigEndian) == |keys|
    ensures ReadWord(Layout(keys, vals, bigEndian), 12, bigEndian) == HEADER_SIZE_IN_BYTES
    ensures ReadWord(Layout(keys, vals, bigEndian), 16, bigEndian) == HEADER_SIZE_IN_BYTES + 8 * |keys|
    ensures ReadWord(Layout(keys, vals, bigEndian), 20, bigEndian) == 0
    ensures ReadWord(Layout(keys, vals, bigEndian), 24, bigEndian) == HEADER_SIZE_IN_BYTES + 16 * |keys|
  {
    AllWordsParts(keys, vals);
    assert AllWords(keys, vals)[..6] == HeaderWords(|keys|);
    LayoutWord(keys, vals, bigEndian, 0, 4, 0);
    LayoutWord(keys, vals, bigEndian, 1, 8, |keys|);
    LayoutWord(keys, vals, bigEndian, 2, 12, HEADER_SIZE_IN_BYTES);
    LayoutWord(keys, vals, bigEndian, 3, 16, HEADER_SIZE_IN_BYTES + 8 * |keys|);
    LayoutWord(keys, vals, bigEndian, 4, 20, 0);
    LayoutWord(keys, vals, bigEndian, 5, 24, HEADER_SIZE_IN_BYTES + 16 * |keys|);
  }

  /** Key row `i` starts at byte 28 + 8i with the length of `keys[i]`. */
  lemma LayoutKeyLength(keys: seq<seq<byte>>, vals: seq<seq<byte>>, bigEndian: bool, i: nat)
    requires |keys| == |vals| && Fits(keys, vals)
    requires i < |keys|
    ensures HEADER_SIZE_IN_BYTES + 8 * i + 4 <= |Layout(keys, vals, bigEndian)|
    ensures ReadWord(Layout(keys, vals, bigEndian), HEADER_SIZE_IN_BYTES + 8 * i, bigEndian) == |keys[i]|
  {
    AllWordsKeyRow(keys, vals, i);
    LayoutWord(keys, vals, bigEndian, 6 + 2 * i, HEADER_SIZE_IN_BYTES + 8 * i, |keys[i]|);
  }

  /** Key row `i` continues at byte 32 + 8i with `KeyOffset(keys, i)`. */
  lemma LayoutKeyOffset(keys: seq<seq<byte>>, vals: seq<seq<byte>>, bigEndian: bool, i: nat)
    requires |keys| == |vals| && Fits(keys, vals)
    requires i < |keys|
    ensures HEADER_SIZE_IN_BYTES + 8 * i + 8 <= |Layout(keys, vals, bigEndian)|
    ensures ReadWord(Layout(keys, vals, bigEndian), HEADER_SIZE_IN_BYTES + 8 * i + 4, bigEndian) == KeyOffset(keys, i)
  {
    AllWordsKeyRow(keys, vals, i);
    LayoutWord(keys, vals, bigEndian, 7 + 2 * i, HEADER_SIZE_IN_BYTES + 8 * i + 4, KeyOffset(keys, i));
  }

  /** Value row `i` starts at byte 28 + 8N + 8i with the length of `vals[i]`. */
  lemma LayoutValueLength(keys: seq<seq<byte>>, vals: seq<seq<byte>>, bigEndian: bool, i: nat)
    requires |keys| == |vals| && Fits(keys, vals)
    requires i < |vals|
    ensures HEADER_SIZE_IN_BYTES + 8 * |keys| + 8 * i + 4 <= |Layout(keys, vals, bigEndian)|
    ensures ReadWord(Layout(keys, vals, bigEndian), HEADER_SIZE_IN_BYTES + 8 * |keys| + 8 * i, bigEndian)
         == |vals[i]|
  {
    AllWordsValueRow(keys, vals, i);
    LayoutWord(keys, vals, bigEndian, 6 + 2 * |keys| + 2 * i, HEADER_SIZE_IN_BYTES + 8 * |keys| + 8 * i, |vals[i]|);
  }

  /** Value row `i` continues at byte 32 + 8N + 8i with `ValueOffset(keys, vals, i)`. */
  lemma LayoutValueOffset(keys: seq<seq<byte>>, vals: seq<seq<byte>>, bigEndian: bool, i: nat)
    requires |keys| == |vals| && Fits(keys, vals)
    requires i < |vals|
    ensures HEADER_SIZE_IN_BYTES + 8 * |keys| + 8 * i + 8 <= |Layout(keys, vals, bigEndian)|
    ensures ReadWord(Layout(keys, vals, bigEndian), HEADER_SIZE_IN_BYTES + 8 * |keys| + 8 * i + 4, bigEndian)
         == ValueOffset(keys, vals, i)
  {
    AllWordsValueRow(keys, vals, i);
    LayoutWord(keys, vals, bigEndian, 7 + 2 * |keys| + 2 * i, HEADER_SIZE_IN_BYTES + 8 * |keys| + 8 * i + 4,
               ValueOffset(keys, vals, i));
  }

  /** The key offsets chain: each is the previous one plus the previous key's length plus 1. */
  lemma KeyOffsetsChain(keys: seq<seq<byte>>, i: nat)
    requires i < |keys|
    ensures KeyOffset(keys, 0) == HEADER_SIZE_IN_BYTES + 16 * |keys|
    ensures KeyOffset(keys, i + 1) == KeyOffset(keys, i) + |keys[i]| + 1
  {
    SpanStep(keys, i);
  }

  /**
   * The value offsets continue the same counter: value 0 starts where the last key's
   * NUL ends, and each next one at the previous offset plus length plus 1.
   */
  lemma ValueOffsetsChain(keys: seq<seq<byte>>, vals: seq<seq<byte>>, i: nat)
    requires i < |vals|
    ensures ValueOffset(keys, vals, 0) == KeyOffset(keys, |keys|)
    ensures ValueOffset(keys, vals, i + 1) == ValueOffset(keys, vals, i) + |vals[i]| + 1
  {
    assert keys[..|keys|] == keys;
    SpanStep(vals, i);
  }

  /** String `i` of blob `c`, the third part of a file, and the NUL after it. */
  lemma StringOfThirdPart(a: seq<byte>, c: seq<byte>, d: seq<byte>, ss: seq<seq<byte>>, i: nat, off: nat)
    requires c == Blob(ss) && i < |ss| && off == |a| + Span(ss[..i])
    ensures off + |ss[i]| < |a + c + d|
    ensures (a + c + d)[off .. off + |ss[i]|] == ss[i]
    ensures (a + c + d)[off + |ss[i]|] == 0
  {
    var at := Span(ss[..i]);
    BlobAt(ss, i);
    MiddleSlice(a, c, d, at, at + |ss[i]|);
    MiddleIndex(a, c, d, at + |ss[i]|);
  }

  /**
   * At `KeyOffset(keys, i)` the file holds exactly the bytes of `keys[i]`, followed
   * by a single NUL.
   */
  lemma LayoutKeyString(keys: seq<seq<byte>>, vals: seq<seq<byte>>, bigEndian: bool, i: nat)
    requires |keys| == |vals| && Fits(keys, vals)
    requires i < |keys|
    ensures KeyOffset(keys, i) + |keys[i]| < |Layout(keys, vals, bigEndian)|
    ensures Layout(keys, vals, bigEndian)[KeyOffset(keys, i) .. KeyOffset(keys, i) + |keys[i]|] == keys[i]
    ensures Layout(keys, vals, bigEndian)[KeyOffset(keys, i) + |keys[i]|] == 0
  {
    StringOfThirdPart(MagicBytes(bigEndian) + Words(AllWords(keys, vals), bigEndian), Blob(keys), Blob(vals),
                      keys, i, KeyOffset(keys, i));
  }

  /**
   * At `ValueOffset(keys, vals, i)` the file holds exactly the bytes of `vals[i]`,
   * followed by a single NUL.
   */
  lemma LayoutValueString(keys: seq<seq<byte>>, vals: seq<seq<byte>>, bigEndian: bool, i: nat)
    requires |keys| == |vals| && Fits(keys, vals)
    requires i < |vals|
    ensures ValueOffset(keys, vals, i) + |vals[i]| < |Layout(keys, vals, bigEndian)|
    ensures Layout(keys, vals, bigEndian)[ValueOffset(keys, vals, i) .. ValueOffset(keys, vals, i) + |vals[i]|]
         == vals[i]
    ensures Layout(keys, vals, bigEndian)[ValueOffset(keys, vals, i) + |vals[i]|] == 0
  {
    StringOfThirdPart(MagicBytes(bigEndian) + Words(AllWords(keys, vals), bigEndian) + Blob(keys), Blob(vals), [],
                      vals, i, ValueOffset(keys, vals, i));
    assert Layout(keys, vals, bigEndian) + [] == Layout(keys, vals, bigEndian);
  }
}

/**
 * The MO catalog writer: sorts the message identities of a catalog by the writer's
 * key order and writes magic number, header, the two (length, offset) tables and
 * the two string blobs, advancing one running offset through both tables.
 *
 * The output stream is modelled by the sequence of bytes written to it, in order.
 */
module MoWriter {
  import opened Wrappers
  import opened Bytes
  import opened Messages
  import opened MoLayout
  import opened MoDecoder

  /** A catalog: each message identity with its translation. */
  type Catalog = map<MsgId, MsgStr>

  /** Every identity and every translation of `m` can be serialized and read back. */
  predicate ValidCatalog(m: Catalog) {
    forall k :: k in m ==> k.Valid() && m[k].Valid()
  }

  /**
   * The order the writer sorts keys by, applied to their serialized bytes. The
   * writer compares the bytes decoded as strings; that comparison is abstracted to
   * any `KeyOrder` that orders the keys at hand strictly and totally.
   */
  type KeyOrder = (seq<byte>, seq<byte>) -> bool

  /** `a` is written before `b`. */
  predicate Before(less: KeyOrder, a: MsgId, b: MsgId) {
    less(a.ToBytes(), b.ToBytes())
  }

  /** `less` orders the serialized forms of `keys` strictly and totally. */
  predicate StrictTotalOrderOn(less: KeyOrder, keys: set<MsgId>) {
    && (forall a :: a in keys ==> !Before(less, a, a))
    && (forall a, b, c :: a in keys && b in keys && c in keys && Before(less, a, b) && Before(less, b, c)
          ==> Before(less, a, c))
    && (forall a, b :: a in keys && b in keys && a != b ==> Before(less, a, b) || Before(less, b, a))
  }

  lemma OrderOnSubset(less: KeyOrder, keys: set<MsgId>, sub: set<MsgId>)
    requires StrictTotalOrderOn(less, keys) && sub <= keys
    ensures StrictTotalOrderOn(less, sub)
  {
  }

  /** Under such an order, different keys have different serialized forms. */
  lemma OrderedKeysDiffer(less: KeyOrder, keys: set<MsgId>, a: MsgId, b: MsgId)
    requires StrictTotalOrderOn(less, keys) && a in keys && b in keys && a != b
    ensures a.ToBytes() != b.ToBytes()
  {
    assert !Before(less, a, a) && !Before(less, b, b);
  }

  /** `k` is the least of `keys`. */
  predicate IsLeast(less: KeyOrder, k: MsgId, keys: set<MsgId>) {
    k in keys && forall o :: o in keys && o != k ==> Before(less, k, o)
  }

  lemma {:induction false} LeastExists(less: KeyOrder, keys: set<MsgId>)
    requires keys != {} && StrictTotalOrderOn(less, keys)
    ensures exists k :: IsLeast(less, k, keys)
    decreases |keys|
  {
    var x :| x in keys;
    var rest := keys - {x};
    if rest == {} {
      assert keys == {x};
      assert IsLeast(less, x, keys);
    } else {
      OrderOnSubset(less, keys, rest);
      LeastExists(less, rest);
      var y :| IsLeast(less, y, rest);
      if Before(less, x, y) {
        forall o | o in keys && o != x
          ensures Before(less, x, o)
        {
          if o != y {
            assert Before(less, y, o);
          }
        }
        assert IsLeast(less, x, keys);
      } else {
        assert IsLeast(less, y, keys);
      }
    }
  }

  lemma LeastUnique(less: KeyOrder, keys: set<MsgId>, a: MsgId, b: MsgId)
    requires StrictTotalOrderOn(less, keys)
    requires IsLeast(less, a, keys) && IsLeast(less, b, keys)
    ensures a == b
  {
    assert a != b ==> Before(less, a, b) && Before(less, b, a);
    assert !(Before(less, a, b) && Before(less, b, a)) by {
      assert !Before(less, a, a);
    }
  }

  /** `s` lists its elements in strictly ascending order. */
  predicate Ascending(less: KeyOrder, s: seq<MsgId>) {
    forall i, j :: 0 <= i < j < |s| ==> Before(less, s[i], s[j])
  }

  /**
   * The keys in the order the writer emits them (`toSortedMap`): a permutation of
   * `keys`, strictly ascending.
   */
  function SortedKeys(keys: set<MsgId>, less: KeyOrder): (s: seq<MsgId>)
    requires StrictTotalOrderOn(less, keys)
    ensures |s| == |keys|
    ensures forall k :: k in s <==> k in keys
    ensures Ascending(less, s)
    decreases |keys|
  {
    if keys == {} then []
    else
      LeastExists(less, keys);
      LeastIsUnique(less, keys);
      var k :| k in keys && IsLeast(less, k, keys);
      OrderOnSubset(less, keys, keys - {k});
      var rest := SortedKeys(keys - {k}, less);
      LeastThenAscending(less, keys, k, rest);
      [k] + rest
  }

  lemma LeastIsUnique(less: KeyOrder, keys: set<MsgId>)
    requires StrictTotalOrderOn(less, keys)
    ensures forall a, b :: IsLeast(less, a, keys) && IsLeast(less, b, keys) ==> a == b
  {
    forall a, b | IsLeast(less, a, keys) && IsLeast(less, b, keys) {
      LeastUnique(less, keys, a, b);
    }
  }

  /** The least key followed by the others in ascending order is ascending. */
  lemma LeastThenAscending(less: KeyOrder, keys: set<MsgId>, k: MsgId, rest: seq<MsgId>)
    requires IsLeast(less, k, keys)
    requires (forall o :: o in rest <==> o in keys - {k}) && Ascending(less, rest)
    ensures Ascending(less, [k] + rest)
  {
    var s := [k] + rest;
    forall i, j | 0 <= i < j < |s|
      ensures Before(less, s[i], s[j])
    {
      assert s[j] == rest[j - 1] && rest[j - 1] in rest;
      if i > 0 {
        assert s[i] == rest[i - 1];
      }
    }
  }

  /** Any strictly ascending listing of exactly `keys` is the writer's order: the order is determined by the keys. */
  lemma {:induction false} SortedKeysUnique(less: KeyOrder, keys: set<MsgId>, s: seq<MsgId>)
    requires StrictTotalOrderOn(less, keys)
    requires (forall k :: k in s <==> k in keys) && Ascending(less, s)
    ensures s == SortedKeys(keys, less)
    decreases |keys|
  {
    if s == [] {
      assert keys == {};
    } else {
      HeadsAgree(less, keys, s);
      SortedKeysUnique(less, keys - {s[0]}, s[1..]);
      HeadAndTail(s);
    }
  }

  lemma HeadAndTail<T>(s: seq<T>)
    requires s != []
    ensures s == [s[0]] + s[1..]
  {
  }

  /**
   * An ascending listing of `keys` and the writer's order start with the same key,
   * and the rest of the listing lists the other keys, ascending.
   */
  lemma HeadsAgree(less: KeyOrder, keys: set<MsgId>, s: seq<MsgId>)
    requires StrictTotalOrderOn(less, keys)
    requires (forall k :: k in s <==> k in keys) && Ascending(less, s) && s != []
    ensures keys != {} && StrictTotalOrderOn(less, keys - {s[0]})
    ensures SortedKeys(keys, less) == [s[0]] + SortedKeys(keys - {s[0]}, less)
    ensures (forall k :: k in s[1..] <==> k in keys - {s[0]}) && Ascending(less, s[1..])
  {
    assert s[0] in keys;
    var t := SortedKeys(keys, less);
    SortedKeysCons(less, keys);
    FirstIsLeast(less, keys, s);
    FirstIsLeast(less, keys, t);
    LeastUnique(less, keys, s[0], t[0]);
    TailListsRest(less, keys, s);
  }

  /** The writer's order starts with some key and continues with the writer's order of the others. */
  lemma SortedKeysCons(less: KeyOrder, keys: set<MsgId>)
    requires StrictTotalOrderOn(less, keys) && keys != {}
    ensures var t := SortedKeys(keys, less);
            t != [] && StrictTotalOrderOn(less, keys - {t[0]}) && t == [t[0]] + SortedKeys(keys - {t[0]}, less)
  {
    var t := SortedKeys(keys, less);
    assert t != [] by {
      var x :| x in keys;
      assert x in t;
    }
    OrderOnSubset(less, keys, keys - {t[0]});
  }

  /** The first element of an ascending listing of `keys` is their least. */
  lemma FirstIsLeast(less: KeyOrder, keys: set<MsgId>, s: seq<MsgId>)
    requires (forall k :: k in s <==> k in keys) && Ascending(less, s) && s != []
    ensures IsLeast(less, s[0], keys)
  {
    forall o | o in keys && o != s[0]
      ensures Before(less, s[0], o)
    {
      var j :| 0 <= j < |s| && s[j] == o;
    }
  }

  /** The rest of an ascending listing of `keys` lists the other keys, ascending. */
  lemma TailListsRest(less: KeyOrder, keys: set<MsgId>, s: seq<MsgId>)
    requires StrictTotalOrderOn(less, keys)
    requires (forall k :: k in s <==> k in keys) && Ascending(less, s) && s != []
    ensures (forall k :: k in s[1..] <==> k in keys - {s[0]}) && Ascending(less, s[1..])
  {
    forall k | k in s[1..]
      ensures k != s[0]
    {
      var j :| 1 <= j < |s| && s[j] == k;
      assert Before(less, s[0], s[j]);
      assert !Before(less, s[0], s[0]);
    }
    forall k | k in keys - {s[0]}
      ensures k in s[1..]
    {
      var j :| 0 <= j < |s| && s[j] == k;
      assert s[1..][j - 1] == k;
    }
    forall i, j | 0 <= i < j < |s| - 1
      ensures Before(less, s[1..][i], s[1..][j])
    {
      assert Before(less, s[i + 1], s[j + 1]);
    }
  }

  /**
   * The string `compareTo` of the writer puts the empty string before every other
   * one; a non-empty byte array never decodes to the empty string.
   */
  ghost predicate EmptyFirst(less: KeyOrder) {
    forall b: seq<byte> :: b != [] ==> less([], b)
  }

  /** When the catalog holds the metadata key (the empty identity), it is written as row 0. */
  lemma MetadataFirst(m: Catalog, less: KeyOrder)
    requires StrictTotalOrderOn(less, m.Keys) && EmptyFirst(less)
    requires METADATA_KEY in m
    ensures SortedKeys(m.Keys, less)[0] == METADATA_KEY
  {
    var s := SortedKeys(m.Keys, less);
    assert METADATA_KEY.ToBytes() == [];
    forall o | o in m.Keys && o != METADATA_KEY
      ensures Before(less, METADATA_KEY, o)
    {
      OrderedKeysDiffer(less, m.Keys, o, METADATA_KEY);
    }
    assert s != [] by {
      assert METADATA_KEY in s;
    }
    FirstIsLeast(less, m.Keys, s);
    LeastUnique(less, m.Keys, s[0], METADATA_KEY);
  }

  // ---------------------------------------------------------------------------
  // The catalog as written
  // ---------------------------------------------------------------------------

  /** The serialized keys, in the order of `ids`. */
  function KeyBytes(ids: seq<MsgId>): (r: seq<seq<byte>>)
    ensures |r| == |ids|
    ensures forall i :: 0 <= i < |ids| ==> r[i] == ids[i].ToBytes()
  {
    seq(|ids|, i requires 0 <= i < |ids| => ids[i].ToBytes())
  }

  /** The serialized translations of `ids`, in the same order. */
  function ValueBytes(m: Catalog, ids: seq<MsgId>): (r: seq<seq<byte>>)
    requires forall k :: k in ids ==> k in m
    ensures |r| == |ids|
    ensures forall i :: 0 <= i < |ids| ==> r[i] == m[ids[i]].ToBytes()
  {
    seq(|ids|, i requires 0 <= i < |ids| => m[ids[i]].ToBytes())
  }

  /** Every offset and size of the file written for `m` fits in an unsigned 32-bit word. */
  predicate FitsCatalog(m: Catalog, less: KeyOrder)
    requires StrictTotalOrderOn(less, m.Keys)
  {
    var ids := SortedKeys(m.Keys, less);
    Fits(KeyBytes(ids), ValueBytes(m, ids))
  }

  /**
   * The file written for `m`: the layout of its keys, in the writer's order, and their
   * translations. It holds at least the header and two 8-byte rows per entry.
   */
  function EncodeMo(m: Catalog, bigEndian: bool, less: KeyOrder): (out: seq<byte>)
    requires StrictTotalOrderOn(less, m.Keys) && FitsCatalog(m, less)
    ensures |out| >= HEADER_SIZE_IN_BYTES + 16 * |m|
  {
    var ids := SortedKeys(m.Keys, less);
    Layout(KeyBytes(ids), ValueBytes(m, ids), bigEndian)
  }

  // ---------------------------------------------------------------------------
  // The writer
  // ---------------------------------------------------------------------------

  lemma AppendTwo(a: seq<byte>, w: seq<byte>, x: seq<byte>, y: seq<byte>)
    ensures a + w + x + y == a + (w + x + y)
  {
  }

  /** Two more words written after `ws`. */
  lemma WordsPair(ws: seq<u32>, x: u32, y: u32, bigEndian: bool)
    ensures Words(ws + [x, y], bigEndian) == Words(ws, bigEndian) + FourBytes(x, bigEndian) + FourBytes(y, bigEndian)
  {
    assert (ws + [x, y])[..|ws| + 1] == ws + [x];
    assert (ws + [x])[..|ws|] == ws;
  }

  /** The prefixes of strings that fit in the word range fit too. */
  lemma PrefixFits(ss: seq<seq<byte>>, base: nat, i: nat)
    requires i <= |ss| && base + Span(ss) < TWO32
    ensures base + Span(ss[..i]) < TWO32
  {
    SpanMonotone(ss, i, |ss|);
    assert ss[..|ss|] == ss;
  }

  /** One more row of a table, as words. */
  lemma TableWordsStep(ss: seq<seq<byte>>, base: nat, i: nat)
    requires i < |ss| && base + Span(ss[..i + 1]) < TWO32
    ensures base + Span(ss[..i]) < TWO32
    ensures TableWords(ss[..i + 1], base) == TableWords(ss[..i], base) + [|ss[i]|, base + Span(ss[..i])]
  {
    SpanStep(ss, i);
    assert ss[..i + 1][..i] == ss[..i];
  }

  lemma AppendRow(ws: seq<u32>, t: seq<u32>, t': seq<u32>, x: u32, y: u32)
    requires t' == t + [x, y]
    ensures ws + t' == (ws + t) + [x, y]
  {
  }

  /**
   * One more row of a table written after the words `ws`: the length of `ss[i]` and
   * its offset, `base` plus the span of the strings before it.
   */
  lemma TableStep(ws: seq<u32>, ss: seq<seq<byte>>, base: nat, i: nat, numBytes: nat, offset: nat, bigEndian: bool)
    requires i < |ss| && base + Span(ss) < TWO32
    requires numBytes == |ss[i]| && offset == base + Span(ss[..i])
    ensures numBytes < TWO32 && offset < TWO32 && base + Span(ss[..i + 1]) < TWO32
    ensures Words(ws + TableWords(ss[..i + 1], base), bigEndian)
         == Words(ws + TableWords(ss[..i], base), bigEndian) + FourBytes(numBytes, bigEndian) + FourBytes(offset, bigEndian)
  {
    PrefixFits(ss, base, i + 1);
    TableWordsStep(ss, base, i);
    AppendRow(ws, TableWords(ss[..i], base), TableWords(ss[..i + 1], base), numBytes, offset);
    WordsPair(ws + TableWords(ss[..i], base), numBytes, offset, bigEndian);
  }

  /**
   * The writer's step in a table: after the words `ws` and the rows of `ss[..i]`,
   * it writes the length of `ss[i]` and the running `offset`, then advances
   * `offset` past `ss[i]` and its NUL.
   */
  lemma RowStep(magic: seq<byte>, ws: seq<u32>, ss: seq<seq<byte>>, base: nat, i: nat,
                out: seq<byte>, offset: nat, numBytes: nat, bigEndian: bool)
    requires i < |ss| && base + Span(ss) < TWO32 && numBytes == |ss[i]|
    requires base + Span(ss[..i]) < TWO32
    requires offset == base + Span(ss[..i])
    requires out == magic + Words(ws + TableWords(ss[..i], base), bigEndian)
    ensures numBytes < TWO32 && offset < TWO32
    ensures base + Span(ss[..i + 1]) < TWO32
    ensures offset + numBytes + 1 == base + Span(ss[..i + 1])
    ensures out + FourBytes(numBytes, bigEndian) + FourBytes(offset, bigEndian)
         == magic + Words(ws + TableWords(ss[..i + 1], base), bigEndian)
  {
    SpanStep(ss, i);
    TableStep(ws, ss, base, i, numBytes, offset, bigEndian);
    AppendTwo(magic, Words(ws + TableWords(ss[..i], base), bigEndian),
              FourBytes(numBytes, bigEndian), FourBytes(offset, bigEndian));
  }

  /** Before the first row: nothing of the table is written yet. */
  lemma TableStart(magic: seq<byte>, ws: seq<u32>, ss: seq<seq<byte>>, base: nat, out: seq<byte>, bigEndian: bool)
    requires base + Span(ss) < TWO32
    requires out == magic + Words(ws, bigEndian)
    ensures base + Span(ss[..0]) == base
    ensures out == magic + Words(ws + TableWords(ss[..0], base), bigEndian)
  {
    assert ss[..0] == [];
    assert ws + [] == ws;
  }

  /** After the last row: the whole table is written. */
  lemma TableDone(magic: seq<byte>, ws: seq<u32>, ss: seq<seq<byte>>, base: nat, i: nat,
                  out: seq<byte>, offset: nat, bigEndian: bool)
    requires i == |ss| && base + Span(ss) < TWO32 && base + Span(ss[..i]) < TWO32
    requires offset == base + Span(ss[..i])
    requires out == magic + Words(ws + TableWords(ss[..i], base), bigEndian)
    ensures offset == base + Span(ss)
    ensures out == magic + Words(ws + TableWords(ss, base), bigEndian)
  {
    assert ss[..i] == ss;
  }

  /** The writer's step in a blob: string `ss[i]`, then a NUL. */
  lemma StringStep(front: seq<byte>, ss: seq<seq<byte>>, i: nat, out: seq<byte>, s: seq<byte>)
    requires i < |ss| && s == ss[i]
    requires out == front + Blob(ss[..i])
    ensures out + s + [0] == front + Blob(ss[..i + 1])
  {
    assert ss[..i + 1][..i] == ss[..i];
    AppendTwo(front, Blob(ss[..i]), s, [0]);
  }

  lemma BlobDone(front: seq<byte>, ss: seq<seq<byte>>, i: nat, out: seq<byte>)
    requires i == |ss| && out == front + Blob(ss[..i])
    ensures out == front + Blob(ss)
  {
    assert ss[..i] == ss;
  }

  /** The header words the writer lists are those of the layout. */
  lemma HeaderOffsets(n: nat, stringsOffset: nat, translationStringsOffset: nat, hashTableOffset: nat, hw: seq<u32>)
    requires stringsOffset == HEADER_SIZE_IN_BYTES
    requires translationStringsOffset == stringsOffset + n * 8
    requires hashTableOffset == translationStringsOffset + n * 8 && hashTableOffset < TWO32
    requires hw == [0, n, stringsOffset, translationStringsOffset, 0, hashTableOffset]
    ensures hashTableOffset == HEADER_SIZE_IN_BYTES + 16 * n
    ensures hw == HeaderWords(n)
  {
  }

  /** What the writer has written, part by part, is the layout. */
  lemma WrittenIsLayout(keys: seq<seq<byte>>, vals: seq<seq<byte>>, bigEndian: bool, magic: seq<byte>, hw: seq<u32>,
                        base: nat, valueBase: nat, front: seq<byte>, out: seq<byte>)
    requires |keys| == |vals| && Fits(keys, vals)
    requires magic == MagicBytes(bigEndian)
    requires base == HEADER_SIZE_IN_BYTES + 16 * |keys| && hw == HeaderWords(|keys|)
    requires valueBase == base + Span(keys)
    requires front == magic + Words(hw + TableWords(keys, base) + TableWords(vals, valueBase), bigEndian)
    requires out == front + Blob(keys) + Blob(vals)
    ensures out == Layout(keys, vals, bigEndian)
  {
  }

  /**
   * One `forEach` over the sorted entries writing a table: for each string of `ss`,
   * its length and the running offset, which then moves past the string and its NUL.
   * Returns what has been written so far and the advanced offset.
   */
  method WriteOffsets(out: seq<byte>, ss: seq<seq<byte>>, offset: nat, isBigEndian: bool,
                      ghost magic: seq<byte>, ghost ws: seq<u32>) returns (written: seq<byte>, next: nat)
    requires offset + Span(ss) < TWO32
    requires out == magic + Words(ws, isBigEndian)
    ensures written == magic + Words(ws + TableWords(ss, offset), isBigEndian)
    ensures next == offset + Span(ss)
  {
    written := out;
    next := offset;
    TableStart(magic, ws, ss, offset, written, isBigEndian);
    var i := 0;
    while i < |ss|
      invariant i <= |ss|
      invariant offset + Span(ss[..i]) < TWO32 && next == offset + Span(ss[..i])
      invariant written == magic + Words(ws + TableWords(ss[..i], offset), isBigEndian)
    {
      var numBytes := |ss[i]|;
      RowStep(magic, ws, ss, offset, i, written, next, numBytes, isBigEndian);
      written := written + FourBytes(numBytes, isBigEndian) + FourBytes(next, isBigEndian);
      next := next + numBytes + 1;
      i := i + 1;
    }
    TableDone(magic, ws, ss, offset, i, written, next, isBigEndian);
  }

  /** One `forEach` over the sorted entries writing strings: each string of `ss`, then a NUL. */
  method WriteStrings(out: seq<byte>, ss: seq<seq<byte>>) returns (written: seq<byte>)
    ensures written == out + Blob(ss)
  {
    written := out;
    var i := 0;
    while i < |ss|
      invariant i <= |ss|
      invariant written == out + Blob(ss[..i])
    {
      StringStep(out, ss, i, written, ss[i]);
      written := written + ss[i] + [0];
      i := i + 1;
    }
    BlobDone(out, ss, i, written);
  }

  /**
   * The body of `writeStream` once the entries are sorted: magic number, header,
   * the offsets of the original and of the translated strings, then the strings.
   * `keys` and `vals` are the byte arrays of the sorted entries' keys and values.
   */
  method WriteSorted(keys: seq<seq<byte>>, vals: seq<seq<byte>>, isBigEndian: bool) returns (out: seq<byte>)
    requires |keys| == |vals| && Fits(keys, vals)
    ensures out == Layout(keys, vals, isBigEndian)
  {
    var magicBytes := if isBigEndian then BE_MAGIC else Reversed(BE_MAGIC);

    var numStrings := |keys|;
    var stringsOffset := HEADER_SIZE_IN_BYTES;
    var translationStringsOffset := stringsOffset + numStrings * 8;
    var hashTableOffset := translationStringsOffset + numStrings * 8;

    var headerWords: seq<u32> := [0, numStrings, stringsOffset, translationStringsOffset, 0, hashTableOffset];
    HeaderOffsets(numStrings, stringsOffset, translationStringsOffset, hashTableOffset, headerWords);
    var header := Words(headerWords, isBigEndian);
    assert |header| + |magicBytes| == stringsOffset;

    out := magicBytes + header;
    var offset := hashTableOffset;

    // Offsets of the original strings, then of the translated strings
    out, offset := WriteOffsets(out, keys, offset, isBigEndian, magicBytes, headerWords);
    ghost var valueBase := offset;
    out, offset := WriteOffsets(out, vals, offset, isBigEndian, magicBytes, headerWords + TableWords(keys, hashTableOffset));
    ghost var front := out;

    // The original strings, then the translated strings
    out := WriteStrings(out, keys);
    out := WriteStrings(out, vals);
    WrittenIsLayout(keys, vals, isBigEndian, magicBytes, headerWords, hashTableOffset, valueBase, front, out);
  }

  /**
   * `writeStream`: the bytes written for `translations` in the chosen byte order are
   * exactly the layout of its keys, sorted by `less`, and their translations.
   */
  method WriteStream(translations: Catalog, isBigEndian: bool, less: KeyOrder) returns (out: seq<byte>)
    requires StrictTotalOrderOn(less, translations.Keys)
    requires FitsCatalog(translations, less)
    ensures out == EncodeMo(translations, isBigEndian, less)
  {
    var sortedOriginalMsgIds := SortedKeys(translations.Keys, less);
    out := WriteSorted(KeyBytes(sortedOriginalMsgIds), ValueBytes(translations, sortedOriginalMsgIds), isBigEndian);
  }

  // ---------------------------------------------------------------------------
  // Properties of the written file
  // ---------------------------------------------------------------------------

  /**
   * The file starts with the magic number in the chosen byte order, then revision 0,
   * the number of entries of the catalog, the offsets of the two tables, an empty
   * hash table and the offset where the hash table would start.
   */
  lemma EncodeMoHeader(m: Catalog, bigEndian: bool, less: KeyOrder)
    requires StrictTotalOrderOn(less, m.Keys) && FitsCatalog(m, less)
    ensures HEADER_SIZE_IN_BYTES <= |EncodeMo(m, bigEndian, less)|
    ensures EncodeMo(m, bigEndian, less)[..4] == MagicBytes(bigEndian)
    ensures ReadWord(EncodeMo(m, bigEndian, less), 4, bigEndian) == 0
    ensures ReadWord(EncodeMo(m, bigEndian, less), 8, bigEndian) == |m|
    ensures ReadWord(EncodeMo(m, bigEndian, less), 12, bigEndian) == HEADER_SIZE_IN_BYTES
    ensures ReadWord(EncodeMo(m, bigEndian, less), 16, bigEndian) == HEADER_SIZE_IN_BYTES + 8 * |m|
    ensures ReadWord(EncodeMo(m, bigEndian, less), 20, bigEndian) == 0
    ensures ReadWord(EncodeMo(m, bigEndian, less), 24, bigEndian) == HEADER_SIZE_IN_BYTES + 16 * |m|
  {
    var ids := SortedKeys(m.Keys, less);
    LayoutMagic(KeyBytes(ids), ValueBytes(m, ids), bigEndian);
    LayoutHeader(KeyBytes(ids), ValueBytes(m, ids), bigEndian);
  }

  /** With the metadata key in the catalog, the first original string of the file is empty. */
  lemma EncodeMoMetadataFirst(m: Catalog, bigEndian: bool, less: KeyOrder)
    requires StrictTotalOrderOn(less, m.Keys) && FitsCatalog(m, less) && EmptyFirst(less)
    requires METADATA_KEY in m
    ensures ReadString(EncodeMo(m, bigEndian, less), bigEndian, HEADER_SIZE_IN_BYTES, 0) == Success([])
  {
    var ids := SortedKeys(m.Keys, less);
    MetadataFirst(m, less);
    assert METADATA_KEY.ToBytes() == [];
    LayoutKeyReadsAs(KeyBytes(ids), ValueBytes(m, ids), bigEndian, 0);
  }

  /**
   * Row `i` of both tables of the written file describes the same entry: the
   * original string read through key row `i` is the serialization of the `i`-th
   * key in comparator order, and the translation read through value row `i` is the
   * serialization of that key's translation.
   */
  lemma EncodeMoRows(m: Catalog, bigEndian: bool, less: KeyOrder, i: nat)
    requires StrictTotalOrderOn(less, m.Keys) && FitsCatalog(m, less)
    requires i < |m|
    ensures ReadString(EncodeMo(m, bigEndian, less), bigEndian, HEADER_SIZE_IN_BYTES, i)
      == Success(SortedKeys(m.Keys, less)[i].ToBytes())
    ensures ReadString(EncodeMo(m, bigEndian, less), bigEndian, HEADER_SIZE_IN_BYTES + 8 * |m|, i)
      == Success(m[SortedKeys(m.Keys, less)[i]].ToBytes())
  {
    var ids := SortedKeys(m.Keys, less);
    LayoutReadsAs(KeyBytes(ids), ValueBytes(m, ids), bigEndian);
    RowOfSerialized(m, ids, bigEndian, EncodeMo(m, bigEndian, less), i);
  }

  /** In a file read as the serialized `ids` and their translations in `m`, row `i` holds key `i` and its translation. */
  lemma RowOfSerialized(m: Catalog, ids: seq<MsgId>, bigEndian: bool, b: seq<byte>, i: nat)
    requires |ids| == |m| && forall k :: k in ids ==> k in m
    requires ReadsAs(b, KeyBytes(ids), ValueBytes(m, ids), bigEndian)
    requires i < |ids|
    ensures ReadString(b, bigEndian, HEADER_SIZE_IN_BYTES, i) == Success(ids[i].ToBytes())
    ensures ReadString(b, bigEndian, HEADER_SIZE_IN_BYTES + 8 * |m|, i) == Success(m[ids[i]].ToBytes())
  {
    var keys := KeyBytes(ids);
    var vals := ValueBytes(m, ids);
    RowOfReadsAs(b, keys, vals, bigEndian, HEADER_SIZE_IN_BYTES + 8 * |m|, i);
  }

  /** Row `i` of both tables of a file read as `keys` and `vals`. */
  lemma RowOfReadsAs(b: seq<byte>, keys: seq<seq<byte>>, vals: seq<seq<byte>>, bigEndian: bool, table: nat, i: nat)
    requires ReadsAs(b, keys, vals, bigEndian)
    requires i < |keys| && i < |vals| && table == HEADER_SIZE_IN_BYTES + 8 * |keys|
    ensures ReadString(b, bigEndian, HEADER_SIZE_IN_BYTES, i) == Success(keys[i])
    ensures ReadString(b, bigEndian, table, i) == Success(vals[i])
  {
  }

  /**
   * Conversely, in the file written for a valid catalog, an empty first original
   * string means the catalog holds the metadata key: no other valid identity
   * serializes to no bytes, and an empty catalog has no row 0.
   */
  lemma EmptyFirstRowIsMetadata(m: Catalog, bigEndian: bool, less: KeyOrder)
    requires ValidCatalog(m) && StrictTotalOrderOn(less, m.Keys) && FitsCatalog(m, less)
    requires ReadString(EncodeMo(m, bigEndian, less), bigEndian, HEADER_SIZE_IN_BYTES, 0) == Success([])
    ensures METADATA_KEY in m
  {
    var ids := SortedKeys(m.Keys, less);
    if |m| == 0 {
      assert false;
    } else {
      EncodeMoRows(m, bigEndian, less, 0);
      assert ids[0] in m;
      EmptyBytesIsMetadata(ids[0]);
    }
  }

  /** `keys` and `vals` are the serialized identities `ids` and their translations in `m`. */
  ghost predicate Serializes(m: Catalog, ids: seq<MsgId>, keys: seq<seq<byte>>, vals: seq<seq<byte>>) {
    && |keys| == |ids| && |vals| == |ids|
    && forall i :: 0 <= i < |ids| ==> ids[i] in m && keys[i] == ids[i].ToBytes() && vals[i] == m[ids[i]].ToBytes()
  }

  lemma BytesSerialize(m: Catalog, ids: seq<MsgId>)
    requires forall k :: k in ids ==> k in m
    ensures Serializes(m, ids, KeyBytes(ids), ValueBytes(m, ids))
  {
  }

  /** The part of `m` whose identities are listed in `ids`. */
  function CatalogOf(m: Catalog, ids: seq<MsgId>): (r: Catalog)
    requires forall k :: k in ids ==> k in m
  {
    map k | k in ids :: m[k]
  }

  /** Listing one more identity adds its entry. */
  lemma CatalogOfSnoc(m: Catalog, ids: seq<MsgId>)
    requires ids != [] && forall k :: k in ids ==> k in m
    ensures forall k :: k in ids[..|ids| - 1] ==> k in m
    ensures CatalogOf(m, ids) == CatalogOf(m, ids[..|ids| - 1])[ids[|ids| - 1] := m[ids[|ids| - 1]]]
  {
    var front := ids[..|ids| - 1];
    assert ids == front + [ids[|ids| - 1]];
  }

  /** Listing every identity of `m` gives all of `m`. */
  lemma CatalogOfAll(m: Catalog, ids: seq<MsgId>)
    requires forall k :: k in ids <==> k in m
    ensures CatalogOf(m, ids) == m
  {
  }

  /** Reading back the entries of a valid catalog, in any listing, gives the listed part of the catalog. */
  lemma {:induction false} ToCatalogOfSerialized(m: Catalog, ids: seq<MsgId>, keys: seq<seq<byte>>, vals: seq<seq<byte>>)
    requires ValidCatalog(m) && Serializes(m, ids, keys, vals)
    ensures forall k :: k in ids ==> k in m
    ensures ToCatalog(Entries(keys, vals)) == CatalogOf(m, ids)
    decreases |ids|
  {
    if ids == [] {
      assert Entries(keys, vals) == [];
    } else {
      var j := |ids| - 1;
      assert Serializes(m, ids[..j], keys[..j], vals[..j]);
      ToCatalogOfSerialized(m, ids[..j], keys[..j], vals[..j]);
      EntriesStep(keys, vals, j);
      assert keys[..j + 1] == keys && vals[..j + 1] == vals;
      ParseMsgIdInverse(ids[j]);
      ParseMsgStrInverse(m[ids[j]]);
      CatalogOfSnoc(m, ids);
    }
  }

  /**
   * Round trip: reading the file written for a valid catalog gives the catalog back,
   * in either byte order.
   */
  lemma DecodeEncodeMo(m: Catalog, bigEndian: bool, less: KeyOrder)
    requires ValidCatalog(m) && StrictTotalOrderOn(less, m.Keys) && FitsCatalog(m, less)
    ensures DecodeMo(EncodeMo(m, bigEndian, less)) == Success(m)
  {
    var ids := SortedKeys(m.Keys, less);
    DecodeLayout(KeyBytes(ids), ValueBytes(m, ids), bigEndian);
    BytesSerialize(m, ids);
    ToCatalogOfSerialized(m, ids, KeyBytes(ids), ValueBytes(m, ids));
    CatalogOfAll(m, ids);
  }

  /**
   * Write, read, write again and read again: the second file is byte for byte the
   * first one, and both read back as the same catalog.
   */
  lemma ReadWriteRead(m: Catalog, bigEndian: bool, less: KeyOrder)
    requires ValidCatalog(m) && StrictTotalOrderOn(less, m.Keys) && FitsCatalog(m, less)
    ensures DecodeMo(EncodeMo(m, bigEndian, less)).Success?
    ensures var m1 := DecodeMo(EncodeMo(m, bigEndian, less)).value;
            && ValidCatalog(m1) && StrictTotalOrderOn(less, m1.Keys) && FitsCatalog(m1, less)
            && EncodeMo(m1, bigEndian, less) == EncodeMo(m, bigEndian, less)
            && DecodeMo(EncodeMo(m1, bigEndian, less)) == Success(m1)
  {
    DecodeEncodeMo(m, bigEndian, less);
  }
}

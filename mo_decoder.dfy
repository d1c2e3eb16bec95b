/**
 * A reference reader for MO files, following "The Format of GNU MO Files" (section
 * 10.3 of the GNU gettext manual): the byte order comes from the magic number, the
 * entry count and the two table offsets from the header, and each table row gives
 * the length and offset of one string. It is the partner of the writer: reading
 * back a `Layout` gives exactly the strings that were laid out.
 */
module MoDecoder {
  import opened Wrappers
  import opened Bytes
  import opened Messages
  import opened MoLayout

  datatype MoError =
    | TooShort
    | BadMagic
    | RowOutOfBounds(row: nat)
    | StringOutOfBounds(row: nat)

  /** A serialized key and its serialized translation, as read from row `i` of both tables. */
  type Entry = (seq<byte>, seq<byte>)

  /** The byte order announced by the magic number; a file shorter than the header is rejected. */
  function ByteOrder(b: seq<byte>): (r: Result<bool, MoError>)
    ensures r.Success? <==> |b| >= HEADER_SIZE_IN_BYTES && (b[..4] == BE_MAGIC || b[..4] == Reversed(BE_MAGIC))
    ensures r.Success? ==> b[..4] == MagicBytes(r.value)
  {
    if |b| < HEADER_SIZE_IN_BYTES then Failure(TooShort)
    else if b[..4] == BE_MAGIC then Success(true)
    else if b[..4] == Reversed(BE_MAGIC) then Success(false)
    else Failure(BadMagic)
  }

  /**
   * String `i` of the table starting at byte `table`: row `i` holds its length and
   * then its offset.
   */
  function ReadString(b: seq<byte>, bigEndian: bool, table: nat, i: nat): (r: Result<seq<byte>, MoError>)
    ensures r.Success? ==> table + 8 * i + 8 <= |b| && |r.value| == ReadWord(b, table + 8 * i, bigEndian)
  {
    var row := table + 8 * i;
    if row + 8 > |b| then Failure(RowOutOfBounds(i))
    else
      var len := ReadWord(b, row, bigEndian);
      var off := ReadWord(b, row + 4, bigEndian);
      if off + len > |b| then Failure(StringOutOfBounds(i))
      else Success(b[off .. off + len])
  }

  /** The first `n` entries, in table order; the first row that cannot be read is the error. */
  function ReadEntries(b: seq<byte>, bigEndian: bool, keyTable: nat, valueTable: nat, n: nat)
    : (r: Result<seq<Entry>, MoError>)
    ensures r.Success? ==> |r.value| == n
    decreases n
  {
    if n == 0 then Success([])
    else
      var front :- ReadEntries(b, bigEndian, keyTable, valueTable, n - 1);
      var key :- ReadString(b, bigEndian, keyTable, n - 1);
      var value :- ReadString(b, bigEndian, valueTable, n - 1);
      Success(front + [(key, value)])
  }

  /** The catalog of the entries, each key and translation parsed; its keys are exactly the parsed keys. */
  function ToCatalog(entries: seq<Entry>): (m: map<MsgId, MsgStr>)
    ensures m.Keys == set e | e in entries :: ParseMsgId(e.0)
    decreases |entries|
  {
    if entries == [] then map[]
    else
      var front := entries[..|entries| - 1];
      var last := entries[|entries| - 1];
      assert entries == front + [last];
      ToCatalog(front)[ParseMsgId(last.0) := ParseMsgStr(last.1)]
  }

  /** Reads a whole file: byte order, entry count (offset 8), the two table offsets (12 and 16), then the entries. */
  function DecodeMo(b: seq<byte>): (r: Result<map<MsgId, MsgStr>, MoError>)
    ensures |b| < HEADER_SIZE_IN_BYTES ==> r == Failure(TooShort)
    ensures ByteOrder(b).Failure? ==> r == Failure(ByteOrder(b).error)
  {
    var bigEndian :- ByteOrder(b);
    var n := ReadWord(b, 8, bigEndian);
    var keyTable := ReadWord(b, 12, bigEndian);
    var valueTable := ReadWord(b, 16, bigEndian);
    var entries :- ReadEntries(b, bigEndian, keyTable, valueTable, n);
    Success(ToCatalog(entries))
  }

  // ---------------------------------------------------------------------------
  // Reading back a layout
  // ---------------------------------------------------------------------------

  /** Row `i` of the result pairs `keys[i]` with `vals[i]`. */
  function Entries(keys: seq<seq<byte>>, vals: seq<seq<byte>>): (es: seq<Entry>)
    requires |keys| == |vals|
    ensures |es| == |keys|
    ensures forall i :: 0 <= i < |es| ==> es[i] == (keys[i], vals[i])
  {
    seq(|keys|, i requires 0 <= i < |keys| => (keys[i], vals[i]))
  }

  lemma EntriesStep(keys: seq<seq<byte>>, vals: seq<seq<byte>>, i: nat)
    requires |keys| == |vals| && i < |keys|
    ensures Entries(keys[..i + 1], vals[..i + 1]) == Entries(keys[..i], vals[..i]) + [(keys[i], vals[i])]
  {
    var a := Entries(keys[..i + 1], vals[..i + 1]);
    var b := Entries(keys[..i], vals[..i]) + [(keys[i], vals[i])];
    forall j | 0 <= j < |a|
      ensures a[j] == b[j]
    {
      if j < i {
        assert a[j] == (keys[j], vals[j]);
      }
    }
  }

  /**
   * What a reader sees in `b` when it holds the catalog `keys`/`vals` in byte order
   * `bigEndian`: the magic number, N and the two table offsets in the header, and
   * row `i` of each table leading to `keys[i]` and `vals[i]`.
   */
  ghost predicate ReadsAs(b: seq<byte>, keys: seq<seq<byte>>, vals: seq<seq<byte>>, bigEndian: bool)
  {
    && ByteOrder(b) == Success(bigEndian)
    && ReadWord(b, 8, bigEndian) == |keys|
    && ReadWord(b, 12, bigEndian) == HEADER_SIZE_IN_BYTES
    && ReadWord(b, 16, bigEndian) == HEADER_SIZE_IN_BYTES + 8 * |keys|
    && (forall i :: 0 <= i < |keys| ==> ReadString(b, bigEndian, HEADER_SIZE_IN_BYTES, i) == Success(keys[i]))
    && (forall i :: 0 <= i < |vals| ==>
          ReadString(b, bigEndian, HEADER_SIZE_IN_BYTES + 8 * |keys|, i) == Success(vals[i]))
  }

  /**
   * Where row `i` (at byte `row`) holds the length of `s` and then (at byte `row4`)
   * an offset `off` at which `s` lies, `ReadString` reads `s`.
   */
  lemma ReadStringAt(b: seq<byte>, bigEndian: bool, table: nat, i: nat, s: seq<byte>, off: nat, row: nat, row4: nat)
    requires row == table + 8 * i && row4 == row + 4 && row4 + 4 <= |b|
    requires ReadWord(b, row, bigEndian) == |s|
    requires ReadWord(b, row4, bigEndian) == off
    requires off + |s| <= |b| && b[off .. off + |s|] == s
    ensures ReadString(b, bigEndian, table, i) == Success(s)
  {
  }

  /** Key row `i` of a layout reads back as `keys[i]`. */
  lemma LayoutKeyReadsAs(keys: seq<seq<byte>>, vals: seq<seq<byte>>, bigEndian: bool, i: nat)
    requires |keys| == |vals| && Fits(keys, vals)
    requires i < |keys|
    ensures ReadString(Layout(keys, vals, bigEndian), bigEndian, HEADER_SIZE_IN_BYTES, i) == Success(keys[i])
  {
    LayoutKeyLength(keys, vals, bigEndian, i);
    LayoutKeyOffset(keys, vals, bigEndian, i);
    LayoutKeyString(keys, vals, bigEndian, i);
    ReadStringAt(Layout(keys, vals, bigEndian), bigEndian, HEADER_SIZE_IN_BYTES, i, keys[i], KeyOffset(keys, i),
                 HEADER_SIZE_IN_BYTES + 8 * i, HEADER_SIZE_IN_BYTES + 8 * i + 4);
  }

  /** Value row `i` of a layout reads back as `vals[i]`. */
  lemma LayoutValueReadsAs(keys: seq<seq<byte>>, vals: seq<seq<byte>>, bigEndian: bool, i: nat)
    requires |keys| == |vals| && Fits(keys, vals)
    requires i < |vals|
    ensures ReadString(Layout(keys, vals, bigEndian), bigEndian, HEADER_SIZE_IN_BYTES + 8 * |keys|, i)
         == Success(vals[i])
  {
    LayoutValueLength(keys, vals, bigEndian, i);
    LayoutValueOffset(keys, vals, bigEndian, i);
    LayoutValueString(keys, vals, bigEndian, i);
    ReadStringAt(Layout(keys, vals, bigEndian), bigEndian, HEADER_SIZE_IN_BYTES + 8 * |keys|, i, vals[i],
                 ValueOffset(keys, vals, i),
                 HEADER_SIZE_IN_BYTES + 8 * |keys| + 8 * i, HEADER_SIZE_IN_BYTES + 8 * |keys| + 8 * i + 4);
  }

  /** A file starting with the magic number of either byte order announces that order. */
  lemma ByteOrderOfMagic(b: seq<byte>, bigEndian: bool)
    requires |b| >= HEADER_SIZE_IN_BYTES && b[..4] == MagicBytes(bigEndian)
    ensures ByteOrder(b) == Success(bigEndian)
  {
    assert Reversed(BE_MAGIC) != BE_MAGIC by {
      assert Reversed(BE_MAGIC)[0] == 0xde;
    }
  }

  /** The magic number and header of a layout read back as its byte order, N and the two table offsets. */
  lemma LayoutHeaderReadsAs(keys: seq<seq<byte>>, vals: seq<seq<byte>>, bigEndian: bool)
    requires |keys| == |vals| && Fits(keys, vals)
    ensures ByteOrder(Layout(keys, vals, bigEndian)) == Success(bigEndian)
    ensures ReadWord(Layout(keys, vals, bigEndian), 8, bigEndian) == |keys|
    ensures ReadWord(Layout(keys, vals, bigEndian), 12, bigEndian) == HEADER_SIZE_IN_BYTES
    ensures ReadWord(Layout(keys, vals, bigEndian), 16, bigEndian) == HEADER_SIZE_IN_BYTES + 8 * |keys|
  {
    LayoutMagic(keys, vals, bigEndian);
    LayoutHeader(keys, vals, bigEndian);
    ByteOrderOfMagic(Layout(keys, vals, bigEndian), bigEndian);
  }

  /** A layout is read as the catalog it was laid out from. */
  lemma LayoutReadsAs(keys: seq<seq<byte>>, vals: seq<seq<byte>>, bigEndian: bool)
    requires |keys| == |vals| && Fits(keys, vals)
    ensures ReadsAs(Layout(keys, vals, bigEndian), keys, vals, bigEndian)
  {
    var out := Layout(keys, vals, bigEndian);
    LayoutHeaderReadsAs(keys, vals, bigEndian);
    forall i | 0 <= i < |keys|
      ensures ReadString(out, bigEndian, HEADER_SIZE_IN_BYTES, i) == Success(keys[i])
    {
      LayoutKeyReadsAs(keys, vals, bigEndian, i);
    }
    forall i | 0 <= i < |vals|
      ensures ReadString(out, bigEndian, HEADER_SIZE_IN_BYTES + 8 * |keys|, i) == Success(vals[i])
    {
      LayoutValueReadsAs(keys, vals, bigEndian, i);
    }
  }

  /** The first `k` rows of such a file read back as the first `k` (key, value) pairs. */
  lemma {:induction false} ReadEntriesOf(b: seq<byte>, keys: seq<seq<byte>>, vals: seq<seq<byte>>, bigEndian: bool, k: nat)
    requires |keys| == |vals| && ReadsAs(b, keys, vals, bigEndian)
    requires k <= |keys|
    ensures ReadEntries(b, bigEndian, HEADER_SIZE_IN_BYTES, HEADER_SIZE_IN_BYTES + 8 * |keys|, k)
         == Success(Entries(keys[..k], vals[..k]))
    decreases k
  {
    if k > 0 {
      var i := k - 1;
      ReadEntriesOf(b, keys, vals, bigEndian, i);
      assert ReadString(b, bigEndian, HEADER_SIZE_IN_BYTES, i) == Success(keys[i]);
      assert ReadString(b, bigEndian, HEADER_SIZE_IN_BYTES + 8 * |keys|, i) == Success(vals[i]);
      EntriesStep(keys, vals, i);
    }
  }

  /** Decoding such a file gives the catalog of its (key, value) pairs. */
  lemma DecodeReadsAs(b: seq<byte>, keys: seq<seq<byte>>, vals: seq<seq<byte>>, bigEndian: bool)
    requires |keys| == |vals| && ReadsAs(b, keys, vals, bigEndian)
    ensures DecodeMo(b) == Success(ToCatalog(Entries(keys, vals)))
  {
    ReadEntriesOf(b, keys, vals, bigEndian, |keys|);
    assert keys[..|keys|] == keys && vals[..|vals|] == vals;
  }

  /** Decoding a layout gives the catalog of its (key, value) pairs, in either byte order. */
  lemma DecodeLayout(keys: seq<seq<byte>>, vals: seq<seq<byte>>, bigEndian: bool)
    requires |keys| == |vals| && Fits(keys, vals)
    ensures DecodeMo(Layout(keys, vals, bigEndian)) == Success(ToCatalog(Entries(keys, vals)))
  {
    LayoutReadsAs(keys, vals, bigEndian);
    DecodeReadsAs(Layout(keys, vals, bigEndian), keys, vals, bigEndian);
  }
}

/**
 * Byte-level building blocks of the catalog encoder: bytes, unsigned 32-bit words
 * in either byte order (the `FourBytes` helper of the i18n package), sequences of
 * such words, and joining/splitting byte strings at a separator byte.
 */
module Bytes {

  type byte = b: int | 0 <= b < 0x100

  const TWO32: int := 0x1_0000_0000

  /** An unsigned 32-bit value, the `UInt` of the writer. */
  type u32 = v: int | 0 <= v < 0x1_0000_0000

  // ---------------------------------------------------------------------------
  // Four-byte words
  // ---------------------------------------------------------------------------

  /** The elements of `s` in reverse order (Kotlin's `reversedArray`). */
  function Reversed<T>(s: seq<T>): seq<T> {
    seq(|s|, i requires 0 <= i < |s| => s[|s| - 1 - i])
  }

  /**
   * `FourBytes(v, bigEndian)`: the 4-byte encoding of `v`, most significant byte
   * first when `bigEndian` holds and least significant first otherwise.
   */
  function FourBytes(v: u32, bigEndian: bool): (r: seq<byte>)
    ensures |r| == 4
  {
    if bigEndian then [v / 0x100_0000, v / 0x1_0000 % 0x100, v / 0x100 % 0x100, v % 0x100]
    else [v % 0x100, v / 0x100 % 0x100, v / 0x1_0000 % 0x100, v / 0x100_0000]
  }

  /** The value of four bytes, the first one most significant when `bigEndian` holds and least significant otherwise. */
  function DecodeU32(b0: byte, b1: byte, b2: byte, b3: byte, bigEndian: bool): u32 {
    if bigEndian then b0 * 0x100_0000 + b1 * 0x1_0000 + b2 * 0x100 + b3
    else b3 * 0x100_0000 + b2 * 0x1_0000 + b1 * 0x100 + b0
  }

  /** Reading the four bytes of `v` back in the same byte order gives `v`. */
  lemma FourBytesRoundTrip(v: u32, bigEndian: bool)
    ensures var w := FourBytes(v, bigEndian); DecodeU32(w[0], w[1], w[2], w[3], bigEndian) == v
  {
    var q1 := v / 0x100;
    var q2 := q1 / 0x100;
    var q3 := q2 / 0x100;
    assert v == q1 * 0x100 + v % 0x100;
    assert q1 == q2 * 0x100 + q1 % 0x100;
    assert q2 == q3 * 0x100 + q2 % 0x100;
    assert v / 0x1_0000 == q2;
    assert v / 0x100_0000 == q3;
  }

  /** The word stored at byte `pos` of `b`, in the given byte order. */
  function ReadWord(b: seq<byte>, pos: nat, bigEndian: bool): u32
    requires pos + 4 <= |b|
  {
    DecodeU32(b[pos], b[pos + 1], b[pos + 2], b[pos + 3], bigEndian)
  }

  /** Where `FourBytes(v)` was written, `ReadWord` reads `v` back. */
  lemma ReadWrittenWord(b: seq<byte>, pos: nat, v: u32, bigEndian: bool)
    requires pos + 4 <= |b|
    requires b[pos..pos + 4] == FourBytes(v, bigEndian)
    ensures ReadWord(b, pos, bigEndian) == v
  {
    var w := FourBytes(v, bigEndian);
    assert b[pos] == w[0] && b[pos + 1] == w[1] && b[pos + 2] == w[2] && b[pos + 3] == w[3] by {
      assert b[pos..pos + 4][0] == b[pos] && b[pos..pos + 4][3] == b[pos + 3];
      assert b[pos..pos + 4][1] == b[pos + 1] && b[pos..pos + 4][2] == b[pos + 2];
    }
    FourBytesRoundTrip(v, bigEndian);
  }

  /** A sequence of words written one after another, each as `FourBytes`. */
  function Words(ws: seq<u32>, bigEndian: bool): (r: seq<byte>)
    ensures |r| == 4 * |ws|
    decreases |ws|
  {
    if ws == [] then []
    else Words(ws[..|ws| - 1], bigEndian) + FourBytes(ws[|ws| - 1], bigEndian)
  }

  /** Word `k` of `ws` occupies bytes `[4k, 4k + 4)` of `Words(ws)`. */
  lemma {:induction false} WordAt(ws: seq<u32>, k: nat, bigEndian: bool)
    requires k < |ws|
    ensures Words(ws, bigEndian)[4 * k .. 4 * k + 4] == FourBytes(ws[k], bigEndian)
    decreases |ws|
  {
    var n := |ws|;
    var front := Words(ws[..n - 1], bigEndian);
    if k < n - 1 {
      WordAt(ws[..n - 1], k, bigEndian);
      PrefixSlice(front, FourBytes(ws[n - 1], bigEndian), 4 * k, 4 * k + 4);
    } else {
      MiddleSlice(front, FourBytes(ws[n - 1], bigEndian), [], 0, 4);
    }
  }

  // ---------------------------------------------------------------------------
  // Slices of concatenations
  // ---------------------------------------------------------------------------

  lemma PrefixSlice<T>(a: seq<T>, b: seq<T>, lo: nat, hi: nat)
    requires lo <= hi <= |a|
    ensures (a + b)[lo..hi] == a[lo..hi]
  {
  }

  lemma MiddleSlice<T>(a: seq<T>, b: seq<T>, c: seq<T>, lo: nat, hi: nat)
    requires lo <= hi <= |b|
    ensures (a + b + c)[|a| + lo .. |a| + hi] == b[lo..hi]
  {
  }

  lemma MiddleIndex<T>(a: seq<T>, b: seq<T>, c: seq<T>, j: nat)
    requires j < |b|
    ensures (a + b + c)[|a| + j] == b[j]
  {
  }

  // ---------------------------------------------------------------------------
  // Joining and splitting at a separator byte
  // ---------------------------------------------------------------------------

  /** The position of the first `x` in `s`, or `|s|` when there is none. */
  function IndexOf(s: seq<byte>, x: byte): (i: nat)
    ensures i <= |s|
    ensures i < |s| ==> s[i] == x
    ensures x !in s[..i]
    decreases |s|
  {
    if s == [] then 0
    else if s[0] == x then 0
    else 1 + IndexOf(s[1..], x)
  }

  /** The parts, with one `sep` byte between each two neighbours. */
  function Join(parts: seq<seq<byte>>, sep: byte): seq<byte>
    decreases |parts|
  {
    if |parts| == 0 then []
    else if |parts| == 1 then parts[0]
    else parts[0] + [sep] + Join(parts[1..], sep)
  }

  /**
   * The maximal `sep`-free pieces of `s`, in order: at least one piece, none holding
   * `sep`, and joining them with `sep` gives back `s`.
   */
  function Split(s: seq<byte>, sep: byte): (parts: seq<seq<byte>>)
    ensures |parts| >= 1
    ensures forall p :: p in parts ==> sep !in p
    ensures Join(parts, sep) == s
    decreases |s|
  {
    var i := IndexOf(s, sep);
    if i == |s| then
      assert s[..i] == s;
      [s]
    else
      var rest := Split(s[i + 1..], sep);
      JoinCons(s[..i], rest, sep);
      assert s == s[..i] + [sep] + s[i + 1..];
      [s[..i]] + rest
  }

  /** Joining `first` in front of at least one more part puts one `sep` after it. */
  lemma JoinCons(first: seq<byte>, rest: seq<seq<byte>>, sep: byte)
    requires |rest| >= 1
    ensures Join([first] + rest, sep) == first + [sep] + Join(rest, sep)
    ensures forall p :: p in [first] + rest <==> p == first || p in rest
  {
    assert ([first] + rest)[1..] == rest;
  }

  /** A byte absent from every part, and different from the separator, is absent from the join. */
  lemma {:induction false} JoinAvoids(parts: seq<seq<byte>>, sep: byte, x: byte)
    requires x != sep
    requires forall p :: p in parts ==> x !in p
    ensures x !in Join(parts, sep)
    decreases |parts|
  {
    if |parts| > 1 {
      JoinAvoids(parts[1..], sep, x);
    }
  }

  /** Splitting a join of `sep`-free parts gives the parts back. */
  lemma {:induction false} SplitJoin(parts: seq<seq<byte>>, sep: byte)
    requires |parts| >= 1
    requires forall p :: p in parts ==> sep !in p
    ensures Split(Join(parts, sep), sep) == parts
    decreases |parts|
  {
    var s := Join(parts, sep);
    if |parts| == 1 {
      assert sep !in s;
      assert IndexOf(s, sep) == |s|;
    } else {
      var tail := Join(parts[1..], sep);
      assert s == parts[0] + [sep] + tail;
      var p := parts[0];
      assert sep !in p;
      assert s[|p|] == sep;
      assert s[..|p|] == p;
      assert IndexOf(s, sep) == |p|;
      assert s[|p| + 1..] == tail;
      SplitJoin(parts[1..], sep);
      assert [p] + parts[1..] == parts;
    }
  }
}

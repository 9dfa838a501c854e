/** The offsets-plus-bytes layout of a binary column, described on values.

    A column of N variable-length byte strings is stored as an offsets vector of
    N + 1 entries and one contiguous byte buffer; row i is the byte range
    [offsets[i], offsets[i+1]). `Decode` reads the rows out of a layout, and
    `Offsets`/`Concat` build the layout of a list of rows; the lemmas show that
    the two directions are inverse to each other. */
module ColumnLayout {

  /** `uint8_t`, one element of the byte buffer. */
  type uint8 = x: int | 0 <= x < 0x100

  /** `int32_t`, one element of the offsets vector. */
  type int32 = x: int | -0x8000_0000 <= x < 0x8000_0000

  /** `uint32_t`, one element of a row-index list. */
  type uint32 = x: int | 0 <= x < 0x1_0000_0000

  const INT32_MAX: int := 0x7fff_ffff

  /** The column invariant: offsets start at 0, never decrease, and the last one is
      the length of the byte buffer, which an `int32_t` offset must be able to hold. */
  predicate WellFormed(offsets: seq<int>, bytes: seq<uint8>)
  {
    && |offsets| >= 1
    && offsets[0] == 0
    && (forall p, q :: 0 <= p <= q < |offsets| ==> offsets[p] <= offsets[q])
    && offsets[|offsets| - 1] == |bytes|
    && |bytes| <= INT32_MAX
  }

  /** The rows a well-formed layout stores. */
  function Decode(offsets: seq<int>, bytes: seq<uint8>): (rows: seq<seq<uint8>>)
    requires WellFormed(offsets, bytes)
    ensures |rows| == |offsets| - 1
    ensures forall i :: 0 <= i < |rows| ==> |rows[i]| == offsets[i + 1] - offsets[i]
  {
    seq(|offsets| - 1, i requires 0 <= i < |offsets| - 1 => bytes[offsets[i]..offsets[i + 1]])
  }

  /** The byte buffer of a list of rows: the rows one after the other. */
  function Concat(rows: seq<seq<uint8>>): seq<uint8>
  {
    if |rows| == 0 then [] else Concat(rows[..|rows| - 1]) + rows[|rows| - 1]
  }

  /** The offsets vector of a list of rows: entry j is where row j starts, and the
      last entry is the total length. */
  function Offsets(rows: seq<seq<uint8>>): seq<int>
  {
    seq(|rows| + 1, j requires 0 <= j <= |rows| => |Concat(rows[..j])|)
  }

  /** The rows `indexes` selects from `rows`, in the order of `indexes`
      (repetitions and any order allowed). */
  function Gather(rows: seq<seq<uint8>>, indexes: seq<uint32>): seq<seq<uint8>>
    requires forall k :: 0 <= k < |indexes| ==> indexes[k] < |rows|
  {
    seq(|indexes|, k requires 0 <= k < |indexes| => rows[indexes[k]])
  }

  /** `std::vector::resize`: keeps the first `n` elements and pads with `fill`. */
  function Resize<T>(s: seq<T>, n: nat, fill: T): (r: seq<T>)
    ensures |r| == n
    ensures forall i :: 0 <= i < n && i < |s| ==> r[i] == s[i]
    ensures forall i :: |s| <= i < n ==> r[i] == fill
  {
    if n <= |s| then s[..n] else s + seq(n - |s|, _ => fill)
  }

  /** Laying out two lists of rows one after the other gives one buffer. */
  lemma {:induction false} ConcatAppend(a: seq<seq<uint8>>, b: seq<seq<uint8>>)
    ensures Concat(a + b) == Concat(a) + Concat(b)
    decreases |b|
  {
    if b == [] {
      assert a + b == a;
    } else {
      var b' := b[..|b| - 1];
      assert (a + b)[..|a + b| - 1] == a + b';
      ConcatAppend(a, b');
    }
  }

  /** Appending one row to a list appends it to the buffer. */
  lemma ConcatSnoc(rows: seq<seq<uint8>>, row: seq<uint8>)
    ensures Concat(rows + [row]) == Concat(rows) + row
  {
    assert (rows + [row])[..|rows|] == rows;
  }

  /** A prefix of the rows never needs more bytes than all of them. */
  lemma ConcatPrefixLength(rows: seq<seq<uint8>>, j: nat)
    requires j <= |rows|
    ensures |Concat(rows[..j])| <= |Concat(rows)|
  {
    assert rows == rows[..j] + rows[j..];
    ConcatAppend(rows[..j], rows[j..]);
  }

  /** Appending one row adds one offset: the old total plus the row's length. */
  lemma OffsetsSnoc(rows: seq<seq<uint8>>, row: seq<uint8>)
    ensures Offsets(rows + [row]) == Offsets(rows) + [|Concat(rows)| + |row|]
  {
    var r := rows + [row];
    forall j | 0 <= j <= |rows|
      ensures Offsets(r)[j] == Offsets(rows)[j]
    {
      assert r[..j] == rows[..j];
    }
    assert r[..|r|] == r;
    assert rows[..|rows|] == rows;
    ConcatSnoc(rows, row);
  }

  /** The layout built from any list of rows satisfies the column invariant,
      provided its total length fits an `int32_t` offset. */
  lemma EncodeWellFormed(rows: seq<seq<uint8>>)
    requires |Concat(rows)| <= INT32_MAX
    ensures WellFormed(Offsets(rows), Concat(rows))
  {
    var o := Offsets(rows);
    forall p, q | 0 <= p <= q < |o|
      ensures o[p] <= o[q]
    {
      assert rows[..q][..p] == rows[..p];
      ConcatPrefixLength(rows[..q], p);
    }
    assert rows[..|rows|] == rows;
  }

  /** Row i sits in the buffer right after the bytes of the rows before it. */
  lemma ConcatRowAt(rows: seq<seq<uint8>>, i: nat)
    requires i < |rows|
    ensures |Concat(rows[..i + 1])| == |Concat(rows[..i])| + |rows[i]| <= |Concat(rows)|
    ensures Concat(rows)[|Concat(rows[..i])|..|Concat(rows[..i])| + |rows[i]|] == rows[i]
  {
    assert rows == rows[..i + 1] + rows[i + 1..];
    ConcatAppend(rows[..i + 1], rows[i + 1..]);
    assert rows[..i + 1] == rows[..i] + [rows[i]];
    ConcatSnoc(rows[..i], rows[i]);
  }

  /** Decoding the layout of a list of rows gives the rows back. */
  lemma DecodeEncode(rows: seq<seq<uint8>>)
    requires |Concat(rows)| <= INT32_MAX
    ensures WellFormed(Offsets(rows), Concat(rows))
    ensures Decode(Offsets(rows), Concat(rows)) == rows
  {
    EncodeWellFormed(rows);
    var o, b := Offsets(rows), Concat(rows);
    var d := Decode(o, b);
    assert |d| == |rows|;
    forall i | 0 <= i < |rows|
      ensures d[i] == rows[i]
    {
      ConcatRowAt(rows, i);
    }
  }

  /** The bytes of the first j rows of a well-formed layout are its buffer up to offsets[j]. */
  lemma {:induction false} ConcatDecodePrefix(offsets: seq<int>, bytes: seq<uint8>, j: nat)
    requires WellFormed(offsets, bytes)
    requires j < |offsets|
    ensures Concat(Decode(offsets, bytes)[..j]) == bytes[..offsets[j]]
  {
    if j > 0 {
      var d := Decode(offsets, bytes);
      ConcatDecodePrefix(offsets, bytes, j - 1);
      assert Concat(d[..j]) == Concat(d[..j - 1]) + d[j - 1] by {
        assert d[..j] == d[..j - 1] + [d[j - 1]];
        ConcatSnoc(d[..j - 1], d[j - 1]);
      }
      assert offsets[j - 1] <= offsets[j];
      assert bytes[..offsets[j]] == bytes[..offsets[j - 1]] + bytes[offsets[j - 1]..offsets[j]];
    }
  }

  /** Every well-formed layout is the layout of the rows it decodes to. */
  lemma EncodeDecode(offsets: seq<int>, bytes: seq<uint8>)
    requires WellFormed(offsets, bytes)
    ensures Offsets(Decode(offsets, bytes)) == offsets
    ensures Concat(Decode(offsets, bytes)) == bytes
  {
    var d := Decode(offsets, bytes);
    assert Offsets(d) == offsets by {
      forall j | 0 <= j < |offsets|
        ensures Offsets(d)[j] == offsets[j]
      {
        ConcatDecodePrefix(offsets, bytes, j);
      }
    }
    assert Concat(d) == bytes by {
      ConcatDecodePrefix(offsets, bytes, |offsets| - 1);
      assert d[..|d|] == d;
      assert bytes[..|bytes|] == bytes;
    }
  }

  /** The length of row i, read off the offsets alone. */
  function RowLength(offsets: seq<int>, i: nat): int
    requires i + 1 < |offsets|
  {
    offsets[i + 1] - offsets[i]
  }

  /** The length of each row `indexes` selects. */
  function RowLengths(offsets: seq<int>, indexes: seq<uint32>): (lens: seq<int>)
    requires forall k :: 0 <= k < |indexes| ==> indexes[k] < |offsets| - 1
    ensures |lens| == |indexes|
  {
    seq(|indexes|, k requires 0 <= k < |indexes| => RowLength(offsets, indexes[k]))
  }

  /** The sum of the first j elements of `s`. */
  function PrefixSum(s: seq<int>, j: nat): int
    requires j <= |s|
  {
    if j == 0 then 0 else PrefixSum(s, j - 1) + s[j - 1]
  }

  /** The sum of all elements of `s`. */
  function Sum(s: seq<int>): int
  {
    PrefixSum(s, |s|)
  }

  /** Over non-negative elements, a longer prefix never sums to less. */
  lemma {:induction false} PrefixSumMonotone(s: seq<int>, i: nat, j: nat)
    requires i <= j <= |s|
    requires forall k :: 0 <= k < |s| ==> s[k] >= 0
    ensures PrefixSum(s, i) <= PrefixSum(s, j)
    decreases j
  {
    if i < j {
      PrefixSumMonotone(s, i, j - 1);
    }
  }

  /** Offsets that are monotone up to entry r and then grow by non-negative
      steps are monotone throughout. */
  lemma {:induction false} StepsMonotone(offsets: seq<int>, r: nat, lens: seq<int>, q: nat)
    requires r + |lens| + 1 == |offsets| && q < |offsets|
    requires forall p, p' :: 0 <= p <= p' <= r ==> offsets[p] <= offsets[p']
    requires forall k :: 0 <= k < |lens| ==> lens[k] >= 0 && offsets[r + k + 1] == offsets[r + k] + lens[k]
    ensures forall p :: 0 <= p <= q ==> offsets[p] <= offsets[q]
  {
    if q > r {
      StepsMonotone(offsets, r, lens, q - 1);
      assert offsets[q] == offsets[r + (q - 1 - r) + 1] == offsets[q - 1] + lens[q - 1 - r];
    }
  }

  /** Two buffers that agree up to `n` agree on every range below `n`. */
  lemma SlicePrefix(s: seq<uint8>, t: seq<uint8>, n: nat, a: nat, b: nat)
    requires n <= |s| && n <= |t| && s[..n] == t[..n]
    requires a <= b <= n
    ensures s[a..b] == t[a..b]
  {
    assert s[a..b] == s[..n][a..b];
    assert t[a..b] == t[..n][a..b];
  }

  /** A layout that keeps an old layout as its prefix and holds `added[k]` at its
      (old row count + k)-th row decodes to the old rows followed by `added`. */
  lemma DecodeAppend(oldOffsets: seq<int>, oldBytes: seq<uint8>,
                     offsets: seq<int>, bytes: seq<uint8>, added: seq<seq<uint8>>)
    requires WellFormed(oldOffsets, oldBytes) && WellFormed(offsets, bytes)
    requires |offsets| == |oldOffsets| + |added|
    requires offsets[..|oldOffsets|] == oldOffsets && bytes[..|oldBytes|] == oldBytes
    requires var r := |oldOffsets| - 1;
      forall k :: 0 <= k < |added| ==> bytes[offsets[r + k]..offsets[r + k + 1]] == added[k]
    ensures Decode(offsets, bytes) == Decode(oldOffsets, oldBytes) + added
  {
    var r := |oldOffsets| - 1;
    var d, oldD := Decode(offsets, bytes), Decode(oldOffsets, oldBytes);
    forall j | 0 <= j < |d|
      ensures d[j] == (oldD + added)[j]
    {
      if j < r {
        assert offsets[j] == oldOffsets[j] && offsets[j + 1] == oldOffsets[j + 1];
        SlicePrefix(bytes, oldBytes, |oldBytes|, oldOffsets[j], oldOffsets[j + 1]);
      } else {
        assert d[j] == bytes[offsets[r + (j - r)]..offsets[r + (j - r) + 1]];
      }
    }
  }
}

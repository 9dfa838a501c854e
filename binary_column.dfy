/** `BinaryColumnBase`: a column of variable-length byte strings kept as an `int32_t`
    offsets vector and one byte buffer, grown in place by selective append. */
module BinaryColumn {
  import opened ColumnLayout
  import opened Sorting

  /** `s` holds each of 0 .. n-1 exactly once: n values, all below n, none repeated. */
  ghost predicate IsPermutationOfRange(s: seq<int>, n: nat)
  {
    && |s| == n
    && (forall k :: 0 <= k < n ==> 0 <= s[k] < n)
    && (forall p, q :: 0 <= p < q < n ==> s[p] != s[q])
  }

  /** The offsets `gen` writes: row i starts at i * avglen. */
  function UniformOffsets(avglen: nat, n: nat): seq<int>
  {
    seq(n + 1, i => i * avglen)
  }

  /** Multiplying by the same natural number keeps the order. */
  lemma MulMonotone(p: nat, q: nat, c: nat)
    requires p <= q
    ensures p * c <= q * c
  {
    assert q * c == p * c + (q - p) * c;
  }

  /** One more factor adds the multiplicand once. */
  lemma MulSucc(i: nat, c: nat)
    ensures (i + 1) * c == i * c + c
  {
  }

  /** The layout `gen` builds is well formed and holds n rows of `avglen` bytes each. */
  lemma UniformLayout(avglen: nat, n: nat, bytes: seq<uint8>)
    requires |bytes| == n * avglen <= INT32_MAX
    ensures WellFormed(UniformOffsets(avglen, n), bytes)
    ensures var rows := Decode(UniformOffsets(avglen, n), bytes);
      |rows| == n && forall i :: 0 <= i < n ==> |rows[i]| == avglen
  {
    var o := UniformOffsets(avglen, n);
    assert WellFormed(o, bytes) by {
      forall p, q | 0 <= p <= q < |o|
        ensures o[p] <= o[q]
      {
        MulMonotone(p, q, avglen);
      }
    }
    var rows := Decode(o, bytes);
    forall i | 0 <= i < n
      ensures |rows[i]| == avglen
    {
      MulSucc(i, avglen);
    }
  }

  /** A layout that keeps an old layout as its prefix and holds, as its
      (old row count + k)-th row, the bytes of row `sel[k]` of a source layout,
      decodes to the old rows followed by the selected source rows. */
  lemma SelectiveAppendLayout(oldOffsets: seq<int>, oldBytes: seq<uint8>,
                              srcOffsets: seq<int>, srcBytes: seq<uint8>, sel: seq<uint32>,
                              offsets: seq<int>, bytes: seq<uint8>)
    requires WellFormed(oldOffsets, oldBytes) && WellFormed(srcOffsets, srcBytes) && WellFormed(offsets, bytes)
    requires forall k :: 0 <= k < |sel| ==> sel[k] < |srcOffsets| - 1
    requires |offsets| == |oldOffsets| + |sel|
    requires offsets[..|oldOffsets|] == oldOffsets && bytes[..|oldBytes|] == oldBytes
    requires var r := |oldOffsets| - 1;
      forall k :: 0 <= k < |sel| ==>
        bytes[offsets[r + k]..offsets[r + k + 1]] == srcBytes[srcOffsets[sel[k]]..srcOffsets[sel[k] + 1]]
    ensures Decode(offsets, bytes) == Decode(oldOffsets, oldBytes) + Gather(Decode(srcOffsets, srcBytes), sel)
  {
    var selected := Gather(Decode(srcOffsets, srcBytes), sel);
    var r := |oldOffsets| - 1;
    forall k | 0 <= k < |sel|
      ensures bytes[offsets[r + k]..offsets[r + k + 1]] == selected[k]
    {
    }
    DecodeAppend(oldOffsets, oldBytes, offsets, bytes, selected);
  }

  /** From entry r on, the offsets of a well-formed layout lie between 0 and the
      buffer length, in order. */
  lemma OffsetsWithin(offsets: seq<int>, bytes: seq<uint8>, r: nat)
    requires WellFormed(offsets, bytes)
    ensures forall p, q :: r <= p <= q < |offsets| ==> 0 <= offsets[p] <= offsets[q] <= |bytes|
  {
    forall p, q | r <= p <= q < |offsets|
      ensures 0 <= offsets[p] <= offsets[q] <= |bytes|
    {
      assert offsets[0] <= offsets[p] && offsets[q] <= offsets[|offsets| - 1];
    }
  }

  /** Whether offsets fit a buffer depends only on its length. */
  lemma SameLengthWellFormed(offsets: seq<int>, bytes: seq<uint8>, bytes': seq<uint8>)
    requires WellFormed(offsets, bytes) && |bytes'| == |bytes|
    ensures WellFormed(offsets, bytes')
  {
  }

  /** `sel` is the index slice `indexes[from .. from + size)`, every index names
      a row of the source offsets, and `lens[k]` is the length of row `sel[k]`. */
  ghost predicate Selection(srcOffsets: seq<int>, indexes: seq<uint32>, from: nat, size: nat,
                            sel: seq<uint32>, lens: seq<int>)
  {
    && from + size <= |indexes| && |sel| == size && |lens| == size
    && forall k :: 0 <= k < size ==>
         sel[k] == indexes[from + k] && sel[k] < |srcOffsets| - 1 && lens[k] == RowLength(srcOffsets, sel[k])
  }

  /** The slice of `indexes` and the lengths of the source rows it names form a
      selection, and none of those lengths is negative. */
  lemma SelectionOf(srcOffsets: seq<int>, srcBytes: seq<uint8>, indexes: seq<uint32>, from: nat, size: nat)
    requires WellFormed(srcOffsets, srcBytes)
    requires from + size <= |indexes|
    requires forall k :: from <= k < from + size ==> indexes[k] < |srcOffsets| - 1
    ensures var sel := indexes[from..from + size];
      Selection(srcOffsets, indexes, from, size, sel, RowLengths(srcOffsets, sel))
    ensures var lens := RowLengths(srcOffsets, indexes[from..from + size]);
      forall k :: 0 <= k < size ==> lens[k] >= 0
  {
    var sel := indexes[from..from + size];
    var lens := RowLengths(srcOffsets, sel);
    forall k | 0 <= k < size
      ensures sel[k] == indexes[from + k] && sel[k] < |srcOffsets| - 1 && 0 <= lens[k] == RowLength(srcOffsets, sel[k])
    {
    }
  }

  /** The swap loop of `gen_indexes`: walking i down from n - 1 while picks are
      left, swaps entry i with entry `draw(c) % (i + 1)` and picks entry i. The
      array stays a permutation of 0 .. n-1, and the picks are its last entries
      from the back, so no value is picked twice. */
  method ShuffleTail(allIntegers: array<int>, draw: nat -> nat, m: nat) returns (ret: seq<uint32>)
    requires allIntegers.Length < 0x8000_0000
    requires IsPermutationOfRange(allIntegers[..], allIntegers.Length)
    modifies allIntegers
    ensures IsPermutationOfRange(allIntegers[..], allIntegers.Length)
    ensures |ret| == if m < allIntegers.Length then m else allIntegers.Length
    ensures forall k :: 0 <= k < |ret| ==> ret[k] == allIntegers[allIntegers.Length - 1 - k]
    ensures Distinct(ret)
  {
    var n := allIntegers.Length;
    ret := [];
    var left := m;
    var calls := 0;
    var i := n - 1;
    while i >= 0 && left > 0
      invariant -1 <= i < n
      invariant IsPermutationOfRange(allIntegers[..], n)
      invariant |ret| == n - 1 - i == calls && left == m - |ret|
      invariant forall k :: 0 <= k < |ret| ==> ret[k] == allIntegers[n - 1 - k]
    {
      var randomIndex := draw(calls) % (i + 1);
      calls := calls + 1;
      allIntegers[i], allIntegers[randomIndex] := allIntegers[randomIndex], allIntegers[i];
      ret := ret + [allIntegers[i]];
      left := left - 1;
      i := i - 1;
    }
    forall p, q | 0 <= p < q < |ret| ensures ret[p] != ret[q] {
      assert ret[p] == allIntegers[n - 1 - p] && ret[q] == allIntegers[n - 1 - q];
    }
  }

  class BinaryColumnBase {
    /** `_offsets`: one more entry than there are rows. */
    var offsets: seq<int32>
    /** `_bytes`: all rows, one after the other. */
    var bytes: seq<uint8>

    ghost predicate Valid()
      reads this
    {
      WellFormed(offsets, bytes)
    }

    /** The rows the column holds. */
    ghost function Rows(): seq<seq<uint8>>
      reads this
      requires Valid()
    {
      Decode(offsets, bytes)
    }

    /** An empty column: one zero offset, no bytes, no rows. */
    constructor ()
      ensures offsets == [0] && bytes == []
      ensures Valid() && Rows() == []
    {
      offsets := [0];
      bytes := [];
    }

    /** Back to the empty column, whatever the column held before. */
    method Reset()
      modifies this
      ensures offsets == [0] && bytes == []
      ensures Valid() && Rows() == []
    {
      offsets := [];
      bytes := [];
      offsets := offsets + [0];
    }

    /** Fills the column with `n` rows of `avglen` bytes each. */
    method Gen(avglen: nat, n: nat)
      requires n * avglen <= INT32_MAX
      modifies this
      ensures |offsets| == n + 1
      ensures forall i :: 0 <= i <= n ==> offsets[i] == i * avglen
      ensures |bytes| == avglen * n
      ensures Valid()
      ensures |Rows()| == n && forall i :: 0 <= i < n ==> |Rows()[i]| == avglen
    {
      offsets := Resize(offsets, n + 1, 0);
      bytes := Resize(bytes, avglen * n, 0);
      for i := 0 to n
        invariant |offsets| == n + 1 && |bytes| == avglen * n
        invariant forall k :: 0 <= k < i ==> offsets[k] == k * avglen
      {
        MulMonotone(i, n, avglen);
        offsets := offsets[i := i * avglen];
      }
      offsets := offsets[n := n * avglen];
      UniformLayout(avglen, n, bytes);
      assert offsets == UniformOffsets(avglen, n);
    }

    /** Picks min(m, n) distinct row numbers of this column by a partial
        Fisher-Yates shuffle of 0 .. n-1 and returns them in ascending order.
        `draw(c)` is the value of the c-th call to the random source. */
    method GenIndexes(draw: nat -> nat, m: nat) returns (ret: seq<uint32>)
      requires 1 <= |offsets| <= 0x8000_0000
      ensures |ret| == if m < |offsets| - 1 then m else |offsets| - 1
      ensures StrictlyAscending(ret)
      ensures forall k :: 0 <= k < |ret| ==> ret[k] < |offsets| - 1
    {
      var n := |offsets| - 1;
      var allIntegers := new int[n];
      for i := 0 to n
        invariant forall k :: 0 <= k < i ==> allIntegers[k] == k
      {
        allIntegers[i] := i;
      }
      var picked := ShuffleTail(allIntegers, draw, m);
      SortDistinctIsStrict(picked);
      ret := Sort(picked);
      assert |ret| == |multiset(ret)| == |multiset(picked)| == |picked|;
      forall k | 0 <= k < |ret| ensures ret[k] < n {
        assert ret[k] in multiset(picked);
      }
    }

    /** `memcpy` of `len` bytes of `src` from `srcPos` into the buffer at `dst`,
        one byte at a time. */
    method CopyInto(dst: nat, src: seq<uint8>, srcPos: nat, len: nat)
      requires dst + len <= |bytes|
      requires srcPos + len <= |src|
      modifies this`bytes
      ensures |bytes| == old(|bytes|)
      ensures bytes[..dst] == old(bytes[..dst])
      ensures bytes[dst..dst + len] == src[srcPos..srcPos + len]
      ensures bytes[dst + len..] == old(bytes[dst + len..])
    {
      var j := 0;
      while j < len
        invariant 0 <= j <= len
        invariant |bytes| == old(|bytes|)
        invariant bytes[..dst] == old(bytes[..dst])
        invariant bytes[dst..dst + j] == src[srcPos..srcPos + j]
        invariant bytes[dst + j..] == old(bytes[dst + j..])
      {
        ghost var before := bytes;
        bytes := bytes[dst + j := src[srcPos + j]];
        assert bytes[dst..dst + j + 1] == before[dst..dst + j] + [src[srcPos + j]];
        assert src[srcPos..srcPos + j + 1] == src[srcPos..srcPos + j] + [src[srcPos + j]];
        j := j + 1;
      }
    }

    /** The loop of the offset pass: entry `curRowCount + i + 1` becomes entry
        `curRowCount + i` plus `lens[i]`, the length of source row `sel[i]`;
        returns the last running total, the new size of the byte buffer. */
    method FillOffsets(srcOffsets: seq<int32>, indexes: seq<uint32>, from: nat, size: nat,
                       curRowCount: nat, ghost sel: seq<uint32>, ghost lens: seq<int>)
      returns (curByteSize: int)
      requires Selection(srcOffsets, indexes, from, size, sel, lens)
      requires forall k :: 0 <= k < size ==> lens[k] >= 0
      requires |offsets| == curRowCount + size + 1 && offsets[curRowCount] >= 0
      requires offsets[curRowCount] + Sum(lens) <= INT32_MAX
      modifies this`offsets
      ensures |offsets| == old(|offsets|)
      ensures offsets[..curRowCount + 1] == old(offsets[..curRowCount + 1])
      ensures forall k :: 0 <= k < size ==> offsets[curRowCount + k + 1] == offsets[curRowCount + k] + lens[k]
      ensures curByteSize == offsets[curRowCount + size]
    {
      curByteSize := offsets[curRowCount];
      var i := 0;
      while i < size
        invariant 0 <= i <= size
        invariant |offsets| == curRowCount + size + 1
        invariant offsets[..curRowCount + 1] == old(offsets[..curRowCount + 1])
        invariant forall k :: 0 <= k < i ==> offsets[curRowCount + k + 1] == offsets[curRowCount + k] + lens[k]
        invariant curByteSize == offsets[curRowCount + i] == old(offsets[curRowCount]) + PrefixSum(lens, i)
      {
        var rowIdx := indexes[from + i];
        assert rowIdx == sel[i];
        var strSize := srcOffsets[rowIdx + 1] as int - srcOffsets[rowIdx];
        PrefixSumMonotone(lens, i + 1, size);
        offsets := offsets[curRowCount + i + 1 := offsets[curRowCount + i] + strSize];
        curByteSize := curByteSize + strSize;
        i := i + 1;
      }
    }

    /** Offset pass of `append_selective`: starting from the size of the byte
        buffer, appends one running total per selected row, each the previous
        total plus that source row's length, then resizes the buffer once. */
    method GrowOffsets(srcOffsets: seq<int32>, indexes: seq<uint32>, from: nat, size: nat,
                       ghost sel: seq<uint32>, ghost lens: seq<int>)
      requires Valid() && Selection(srcOffsets, indexes, from, size, sel, lens)
      requires forall k :: 0 <= k < size ==> lens[k] >= 0
      requires |bytes| + Sum(lens) <= INT32_MAX
      modifies this
      ensures Valid()
      ensures |offsets| == old(|offsets|) + size
      ensures offsets[..old(|offsets|)] == old(offsets)
      ensures bytes[..old(|bytes|)] == old(bytes)
      ensures var r := old(|offsets|) - 1;
        forall k :: 0 <= k < size ==> offsets[r + k + 1] == offsets[r + k] + lens[k]
      ensures var r := old(|offsets|) - 1;
        forall p, q :: r <= p <= q < |offsets| ==> 0 <= offsets[p] <= offsets[q] <= |bytes|
    {
      var curRowCount := |offsets| - 1;
      offsets := Resize(offsets, curRowCount + size + 1, 0);
      assert offsets[..curRowCount + 1] == old(offsets);
      var curByteSize := FillOffsets(srcOffsets, indexes, from, size, curRowCount, sel, lens);
      assert offsets[..curRowCount + 1] == old(offsets);
      forall q | 0 <= q < |offsets|
        ensures forall p :: 0 <= p <= q ==> offsets[p] <= offsets[q]
      {
        StepsMonotone(offsets, curRowCount, lens, q);
      }
      ghost var oldBytes := bytes;
      bytes := Resize(bytes, curByteSize, 0);
      assert bytes[..|oldBytes|] == oldBytes;
      OffsetsWithin(offsets, bytes, curRowCount);
    }

    /** Copy pass of `append_selective`: copies each selected source row to the
        place the offset pass gave it. */
    method CopyRows(srcOffsets: seq<int32>, srcBytes: seq<uint8>, indexes: seq<uint32>,
                    from: nat, size: nat, curRowCount: nat, ghost sel: seq<uint32>, ghost lens: seq<int>)
      requires Valid() && WellFormed(srcOffsets, srcBytes) && Selection(srcOffsets, indexes, from, size, sel, lens)
      requires |offsets| == curRowCount + size + 1
      requires forall k :: 0 <= k < size ==> offsets[curRowCount + k + 1] == offsets[curRowCount + k] + lens[k]
      requires forall p, q :: curRowCount <= p <= q < |offsets| ==> 0 <= offsets[p] <= offsets[q] <= |bytes|
      modifies this`bytes
      ensures Valid() && |bytes| == old(|bytes|)
      ensures bytes[..offsets[curRowCount]] == old(bytes[..offsets[curRowCount]])
      ensures forall k :: 0 <= k < size ==>
        bytes[offsets[curRowCount + k]..offsets[curRowCount + k + 1]] == srcBytes[srcOffsets[sel[k]]..srcOffsets[sel[k] + 1]]
    {
      var i := 0;
      while i < size
        invariant 0 <= i <= size
        invariant |bytes| == old(|bytes|)
        invariant bytes[..offsets[curRowCount]] == old(bytes[..offsets[curRowCount]])
        invariant forall k :: 0 <= k < i ==>
          bytes[offsets[curRowCount + k]..offsets[curRowCount + k + 1]] == srcBytes[srcOffsets[sel[k]]..srcOffsets[sel[k] + 1]]
      {
        var rowIdx := indexes[from + i];
        assert rowIdx == sel[i];
        var strSize := srcOffsets[rowIdx + 1] as int - srcOffsets[rowIdx];
        ghost var before := bytes;
        var dst := offsets[curRowCount + i];
        assert strSize == lens[i] && dst + strSize == offsets[curRowCount + i + 1] <= |bytes|;
        CopyInto(dst, srcBytes, srcOffsets[rowIdx], strSize);
        SlicePrefix(bytes, before, dst, 0, offsets[curRowCount]);
        forall k | 0 <= k < i
          ensures bytes[offsets[curRowCount + k]..offsets[curRowCount + k + 1]] == srcBytes[srcOffsets[sel[k]]..srcOffsets[sel[k] + 1]]
        {
          SlicePrefix(bytes, before, dst, offsets[curRowCount + k], offsets[curRowCount + k + 1]);
        }
        i := i + 1;
      }
      SameLengthWellFormed(offsets, old(bytes), bytes);
    }

    /** The two passes of `append_selective` over the source vectors `srcOffsets`
        and `srcBytes`: row `r + k` of the grown column, `r` the old row count,
        holds the bytes of source row `indexes[from + k]`. */
    method AppendRows(srcOffsets: seq<int32>, srcBytes: seq<uint8>, indexes: seq<uint32>, from: nat, size: nat)
      requires Valid() && WellFormed(srcOffsets, srcBytes)
      requires from + size <= |indexes|
      requires forall k :: from <= k < from + size ==> indexes[k] < |srcOffsets| - 1
      requires |bytes| + Sum(RowLengths(srcOffsets, indexes[from..from + size])) <= INT32_MAX
      modifies this
      ensures Valid()
      ensures |offsets| == old(|offsets|) + size
      ensures offsets[..old(|offsets|)] == old(offsets)
      ensures bytes[..old(|bytes|)] == old(bytes)
      ensures var r, sel := old(|offsets|) - 1, indexes[from..from + size];
        forall k :: 0 <= k < size ==>
          bytes[offsets[r + k]..offsets[r + k + 1]] == srcBytes[srcOffsets[sel[k]]..srcOffsets[sel[k] + 1]]
    {
      ghost var sel := indexes[from..from + size];
      ghost var lens := RowLengths(srcOffsets, sel);
      SelectionOf(srcOffsets, srcBytes, indexes, from, size);
      var curRowCount := |offsets| - 1;

      GrowOffsets(srcOffsets, indexes, from, size, sel, lens);
      ghost var midBytes := bytes;
      CopyRows(srcOffsets, srcBytes, indexes, from, size, curRowCount, sel, lens);
      SlicePrefix(bytes, midBytes, offsets[curRowCount], 0, old(|bytes|));
    }

    /** `append_selective(src, indexes, from, size)`: appends rows
        `indexes[from]`, ..., `indexes[from + size - 1]` of `src` to this column. */
    method AppendSelective(src: BinaryColumnBase, indexes: seq<uint32>, from: uint32, size: uint32)
      requires Valid() && src.Valid()
      requires from + size <= |indexes|
      requires forall k :: from <= k < from + size ==> indexes[k] < |src.offsets| - 1
      requires |bytes| + Sum(RowLengths(src.offsets, indexes[from..from + size])) <= INT32_MAX
      modifies this
      ensures Valid()
      ensures Rows() == old(Rows()) + Gather(old(src.Rows()), indexes[from..from + size])
      ensures |offsets| == old(|offsets|) + size
      ensures offsets[..old(|offsets|)] == old(offsets)
      ensures bytes[..old(|bytes|)] == old(bytes)
      ensures size == 0 ==> offsets == old(offsets) && bytes == old(bytes)
      ensures src != this ==> src.offsets == old(src.offsets) && src.bytes == old(src.bytes)
    {
      // The source is read only in prefixes this call never rewrites, so reading
      // its vectors once up front sees what the C++ reads see, even for src == this.
      var srcOffsets := src.offsets;
      var srcBytes := src.bytes;
      ghost var oldOffsets, oldBytes := offsets, bytes;
      AppendRows(srcOffsets, srcBytes, indexes, from as nat, size as nat);
      SelectiveAppendLayout(oldOffsets, oldBytes, srcOffsets, srcBytes, indexes[from..from + size], offsets, bytes);
      if size == 0 {
        assert offsets == offsets[..|oldOffsets|];
        assert bytes == bytes[..|oldBytes|];
      }
    }
  }
}

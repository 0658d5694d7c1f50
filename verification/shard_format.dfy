/** Reading a shard file back. The reader scans index records from the start
    of the file up to the first recorded offset, which is where the values
    begin; each value runs from its record's offset to the next record's
    offset, the last one to the end of the file. The writer's layouts are
    checked against this reader: the one whose first offset counts only the
    written entries reads back exactly, the one `flush` produces does not once a
    null-valued entry is pending. */
module ShardFormat {
  import opened Wrappers
  import opened StoreableTableFileWriter

  /** One index record as read: the key bytes and the value offset. */
  datatype IndexEntry = IndexEntry(key: Bytes, offset: int)

  /** `readInt()`: four bytes, most significant first, as a 32-bit two's-complement value. */
  function ReadInt32BE(file: Bytes, pos: nat): (r: int)
    requires pos + 4 <= |file|
    ensures -0x8000_0000 <= r < 0x8000_0000
  {
    var u := (file[pos] as int) * 0x100_0000 + (file[pos + 1] as int) * 0x1_0000 + (file[pos + 2] as int) * 0x100 + file[pos + 3] as int;
    if u < 0x8000_0000 then u else u - 0x1_0000_0000
  }

  /** The position of the first zero byte at or after `pos`, which ends a key. */
  function KeyEnd(file: Bytes, pos: nat): (r: Option<nat>)
    ensures r.Some? ==> pos <= r.value < |file| && file[r.value] == 0
    ensures r.Some? ==> forall j :: pos <= j < r.value ==> file[j] != 0
    ensures r.None? ==> forall j :: pos <= j < |file| ==> file[j] != 0
    decreases |file| - pos
  {
    if pos >= |file| then None
    else if file[pos] == 0 then Some(pos)
    else KeyEnd(file, pos + 1)
  }

  /** One record at `pos`: the key up to its terminator, then the offset; also
      the position after the record. */
  function ReadRecord(file: Bytes, pos: nat): (r: Option<(IndexEntry, nat)>)
    ensures r.Some? ==> pos + RecordOverhead <= r.value.1 <= |file|
  {
    match KeyEnd(file, pos)
    case None => None
    case Some(z) =>
      if z + RecordOverhead > |file| then None
      else Some((IndexEntry(file[pos..z], ReadInt32BE(file, z + 1)), z + RecordOverhead))
  }

  /** The records from `pos` on, read while the position is before `end`. */
  function ReadIndex(file: Bytes, pos: nat, end: nat): (r: Option<seq<IndexEntry>>)
    decreases |file| - pos
  {
    if pos >= end then Some([])
    else match ReadRecord(file, pos)
      case None => None
      case Some((e, next)) =>
        match ReadIndex(file, next, end)
        case None => None
        case Some(rest) => Some([e] + rest)
  }

  /** Where the value of record `i` ends: the next record's offset, or the end of the file. */
  function NextOffset(recs: seq<IndexEntry>, i: nat, len: nat): int
    requires i < |recs|
  {
    if i + 1 < |recs| then recs[i + 1].offset else len
  }

  /** Every value lies inside the file, between its offset and the next. */
  predicate OffsetsFit(recs: seq<IndexEntry>, len: nat)
  {
    forall i :: 0 <= i < |recs| ==> 0 <= recs[i].offset <= NextOffset(recs, i, len) <= len
  }

  /** The reader: no file is an empty shard; otherwise the first record's offset
      ends the index, and every record's value is cut out of the file. */
  function Decode(file: Option<Bytes>): (r: Option<seq<Pair>>)
    ensures file.None? ==> r == Some([])
  {
    match file
    case None => Some([])
    case Some(data) =>
      match ReadRecord(data, 0)
      case None => None
      case Some((head, _)) =>
        if head.offset < 0 then None
        else match ReadIndex(data, 0, head.offset)
          case None => None
          case Some(recs) =>
            if !OffsetsFit(recs, |data|) then None
            else Some(seq(|recs|, i requires 0 <= i < |recs| =>
                            Pair(recs[i].key, data[recs[i].offset..NextOffset(recs, i, |data|)])))
  }

  /** A key the format can hold: its terminator is the first zero byte after it. */
  predicate Terminable(key: Bytes)
  {
    forall j :: 0 <= j < |key| ==> key[j] != 0
  }

  /** The records the writer puts into the index, in order, with their value offsets. */
  function Records(ws: seq<Pair>, first: int): (r: seq<IndexEntry>)
    ensures |r| == |ws|
  {
    if |ws| == 0 then []
    else
      var init := ws[..|ws| - 1];
      Records(init, first) + [IndexEntry(ws[|ws| - 1].key, first + |Blob(init)|)]
  }

  /** Decoding a written offset gives it back. */
  lemma ReadWrittenInt(file: Bytes, pos: nat, n: int)
    requires 0 <= n < 0x8000_0000 && pos + 4 <= |file| && file[pos..pos + 4] == Int32BE(n)
    ensures ReadInt32BE(file, pos) == n
  {
    var b := Int32BE(n);
    assert file[pos] == b[0] && file[pos + 1] == b[1] && file[pos + 2] == b[2] && file[pos + 3] == b[3];
    assert n % 0x1_0000_0000 == n;
    var q1 := n / 0x100;
    var q2 := q1 / 0x100;
    assert n == q1 * 0x100 + b[3];
    assert q1 == q2 * 0x100 + b[2];
    assert q2 == (n / 0x1_0000);
    assert q2 % 0x100 == b[1] && q2 / 0x100 == b[0];
  }

  /** The key ends at the first zero byte. */
  lemma {:induction false} KeyEndAt(file: Bytes, pos: nat, z: nat)
    requires pos <= z < |file| && file[z] == 0
    requires forall j :: pos <= j < z ==> file[j] != 0
    ensures KeyEnd(file, pos) == Some(z)
    decreases z - pos
  {
    if pos < z {
      KeyEndAt(file, pos + 1, z);
    }
  }

  /** A record written for a terminable key reads back as that key and offset. */
  lemma ReadWrittenRecord(file: Bytes, pos: nat, key: Bytes, offset: int)
    requires Terminable(key) && 0 <= offset < 0x8000_0000
    requires pos + |key| + RecordOverhead <= |file| && file[pos..pos + |key| + RecordOverhead] == Record(key, offset)
    ensures ReadRecord(file, pos) == Some((IndexEntry(key, offset), pos + |key| + RecordOverhead))
  {
    var z := pos + |key|;
    var record := Record(key, offset);
    assert record == key + [0] + Int32BE(offset);
    assert forall j :: pos <= j < z ==> file[j] == key[j - pos] by {
      forall j | pos <= j < z ensures file[j] == key[j - pos] {
        assert file[j] == record[j - pos];
      }
    }
    assert file[z] == record[|key|] == 0;
    KeyEndAt(file, pos, z);
    assert file[pos..z] == key by {
      assert file[pos..z] == file[pos..pos + |key| + RecordOverhead][..|key|];
    }
    assert file[z + 1..z + 5] == Int32BE(offset) by {
      assert file[z + 1..z + 5] == file[pos..pos + |key| + RecordOverhead][|key| + 1..];
    }
    ReadWrittenInt(file, z + 1, offset);
  }

  /** Every key can be terminated and every offset is a non-negative 32-bit value. */
  predicate Readable(ws: seq<Pair>, first: int)
  {
    && (forall i :: 0 <= i < |ws| ==> Terminable(ws[i].key))
    && 0 <= first && first + |Blob(ws)| < 0x8000_0000
  }

  /** The index segment for `ws` followed by records that read as `tail` reads as
      the records for `ws` followed by `tail`. */
  lemma {:induction false} ReadWrittenIndex(file: Bytes, pos: nat, mid: nat, end: nat, ws: seq<Pair>, first: int, tail: seq<IndexEntry>)
    requires Readable(ws, first)
    requires pos + IndexLength(ws) == mid <= end && mid <= |file| && file[pos..mid] == Index(ws, first)
    requires ReadIndex(file, mid, end) == Some(tail)
    ensures ReadIndex(file, pos, end) == Some(Records(ws, first) + tail)
    decreases |ws|
  {
    if |ws| == 0 {
      assert Records(ws, first) + tail == tail;
    } else {
      var init, p := ws[..|ws| - 1], ws[|ws| - 1];
      var offset := first + |Blob(init)|;
      var start := mid - |p.key| - RecordOverhead;
      var e := IndexEntry(p.key, offset);
      IndexSplit(file, pos, mid, ws, first);
      ReadIndexStep(file, start, mid, end, p.key, offset, tail);
      ReadWrittenIndex(file, pos, start, end, init, first, [e] + tail);
      RecordsLast(ws, first, e, tail);
    }
  }

  /** An index segment splits into the segment for all pairs but the last,
      then the last pair's record, which is readable. */
  lemma IndexSplit(file: Bytes, pos: nat, mid: nat, ws: seq<Pair>, first: int)
    requires |ws| > 0 && Readable(ws, first)
    requires pos + IndexLength(ws) == mid <= |file| && file[pos..mid] == Index(ws, first)
    ensures var init, p := ws[..|ws| - 1], ws[|ws| - 1];
            var offset, start := first + |Blob(init)|, mid - |p.key| - RecordOverhead;
            && Readable(init, first) && Terminable(p.key) && 0 <= offset < 0x8000_0000
            && pos + IndexLength(init) == start
            && file[pos..start] == Index(init, first) && file[start..mid] == Record(p.key, offset)
  {
    var init, p := ws[..|ws| - 1], ws[|ws| - 1];
    var offset, start := first + |Blob(init)|, mid - |p.key| - RecordOverhead;
    ReadableInit(ws, first);
    assert Index(ws, first) == Index(init, first) + Record(p.key, offset) by {
      AppendPair(init, p, first);
      assert ws == init + [p];
    }
    SplitSlice(file, pos, start, mid, Index(init, first), Record(p.key, offset));
  }

  /** The records for all pairs are those for all but the last, then the last. */
  lemma RecordsLast(ws: seq<Pair>, first: int, e: IndexEntry, tail: seq<IndexEntry>)
    requires |ws| > 0 && e == IndexEntry(ws[|ws| - 1].key, first + |Blob(ws[..|ws| - 1])|)
    ensures Records(ws[..|ws| - 1], first) + ([e] + tail) == Records(ws, first) + tail
  {
    var before := Records(ws[..|ws| - 1], first);
    assert Records(ws, first) == before + [e];
    assert before + ([e] + tail) == (before + [e]) + tail;
  }

  /** A written record in front of records that read as `tail`. */
  lemma ReadIndexStep(file: Bytes, start: nat, mid: nat, end: nat, key: Bytes, offset: int, tail: seq<IndexEntry>)
    requires Terminable(key) && 0 <= offset < 0x8000_0000 && start < end
    requires mid == start + |key| + RecordOverhead <= |file| && file[start..mid] == Record(key, offset)
    requires ReadIndex(file, mid, end) == Some(tail)
    ensures ReadIndex(file, start, end) == Some([IndexEntry(key, offset)] + tail)
  {
    ReadWrittenRecord(file, start, key, offset);
  }

  /** The pairs before the last are readable when all of them are, and the last
      one's key and offset fit the format. */
  lemma ReadableInit(ws: seq<Pair>, first: int)
    requires |ws| > 0 && Readable(ws, first)
    ensures var init := ws[..|ws| - 1];
            && Readable(init, first)
            && Terminable(ws[|ws| - 1].key)
            && 0 <= first + |Blob(init)| < 0x8000_0000
  {
  }

  /** The two halves of a slice that is a concatenation. */
  lemma SplitSlice(file: Bytes, pos: nat, start: nat, mid: nat, a: Bytes, b: Bytes)
    requires pos <= start <= mid <= |file| && file[pos..mid] == a + b && |a| == start - pos
    ensures file[pos..start] == a && file[start..mid] == b
  {
    assert file[pos..start] == file[pos..mid][..start - pos];
    assert file[start..mid] == file[pos..mid][start - pos..];
  }

  /** The `i`-th record points at the values of the pairs before it. */
  lemma {:induction false} RecordsAt(ws: seq<Pair>, first: int, i: nat)
    requires i < |ws|
    ensures Records(ws, first)[i] == IndexEntry(ws[i].key, first + |Blob(ws[..i])|)
    decreases |ws|
  {
    var init := ws[..|ws| - 1];
    if i < |init| {
      RecordsAt(init, first, i);
      assert init[..i] == ws[..i];
    }
  }

  /** The recorded offsets never decrease: a later record points at or past an earlier one. */
  lemma OffsetsNondecreasing(ws: seq<Pair>, first: int, i: nat, j: nat)
    requires i <= j < |ws|
    ensures Records(ws, first)[i].offset <= Records(ws, first)[j].offset
  {
    RecordsAt(ws, first, i);
    RecordsAt(ws, first, j);
    BlobPrefix(ws[..j], i);
    assert ws[..j][..i] == ws[..i];
  }

  /** The index of a prefix of the pairs starts the index segment. */
  lemma {:induction false} IndexPrefix(ws: seq<Pair>, first: int, j: nat)
    requires j <= |ws|
    ensures IndexLength(ws[..j]) <= IndexLength(ws) && Index(ws, first)[..IndexLength(ws[..j])] == Index(ws[..j], first)
    decreases |ws|
  {
    if j == |ws| {
      assert ws[..j] == ws;
    } else {
      var init := ws[..|ws| - 1];
      IndexPrefix(init, first, j);
      assert init[..j] == ws[..j];
      var head := Index(init, first);
      assert Index(ws, first) == head + Record(ws[|ws| - 1].key, first + |Blob(init)|);
      assert Index(ws, first)[..IndexLength(ws[..j])] == head[..IndexLength(ws[..j])];
    }
  }

  /** Record `i` of any layout `flush` writes sits right after the records
      before it and holds key `i` with the offset of value `i`: the first
      offset plus the lengths of the values before it. */
  lemma RecordPlaced(ws: seq<Pair>, first: nat, hole: Byte, i: nat)
    requires i < |ws|
    ensures var lo, hi := IndexLength(ws[..i]), IndexLength(ws[..i + 1]);
            && lo <= hi <= |Layout(ws, first, hole)|
            && Layout(ws, first, hole)[lo..hi] == Record(ws[i].key, first + |Blob(ws[..i])|)
  {
    IndexRecordAt(ws, first, i);
    SegmentsSliceIndex(Index(ws, first), Blob(ws), first, hole, IndexLength(ws[..i]), IndexLength(ws[..i + 1]));
  }

  /** A slice of the index segment reads the same in the whole layout. */
  lemma SegmentsSliceIndex(index: Bytes, blob: Bytes, first: nat, hole: Byte, lo: nat, hi: nat)
    requires lo <= hi <= |index|
    ensures hi <= |Segments(index, blob, first, hole)| && Segments(index, blob, first, hole)[lo..hi] == index[lo..hi]
  {
    var rest := if |blob| == 0 then [] else Gap(first - |index|, hole) + blob;
    assert Segments(index, blob, first, hole) == index + rest;
    SliceBefore(index, rest, lo, hi);
  }

  /** Record `i` inside the index segment. */
  lemma {:induction false} IndexRecordAt(ws: seq<Pair>, first: int, i: nat)
    requires i < |ws|
    ensures var lo, hi := IndexLength(ws[..i]), IndexLength(ws[..i + 1]);
            && lo <= hi <= IndexLength(ws)
            && Index(ws, first)[lo..hi] == Record(ws[i].key, first + |Blob(ws[..i])|)
    decreases |ws|
  {
    if i == |ws| - 1 {
      IndexRecordLast(ws, first);
    } else {
      IndexRecordAt(ws[..|ws| - 1], first, i);
      IndexRecordBefore(ws, first, i);
    }
  }

  /** The last record ends the index segment. */
  lemma IndexRecordLast(ws: seq<Pair>, first: int)
    requires |ws| > 0
    ensures var i := |ws| - 1;
            var lo, hi := IndexLength(ws[..i]), IndexLength(ws[..i + 1]);
            && lo <= hi <= IndexLength(ws)
            && Index(ws, first)[lo..hi] == Record(ws[i].key, first + |Blob(ws[..i])|)
  {
    var init, last := ws[..|ws| - 1], ws[|ws| - 1];
    IndexLast(ws, init, last, first);
    assert ws[..|ws|] == ws;
    SliceAfterPrefix(Index(ws, first), Index(ws, first), Index(init, first), Record(last.key, first + |Blob(init)|), |Index(ws, first)|);
  }

  /** A record before the last sits where it sits in the index for all pairs but the last. */
  lemma IndexRecordBefore(ws: seq<Pair>, first: int, i: nat)
    requires i < |ws| - 1
    requires var init := ws[..|ws| - 1];
             var lo, hi := IndexLength(init[..i]), IndexLength(init[..i + 1]);
             && lo <= hi <= IndexLength(init)
             && Index(init, first)[lo..hi] == Record(init[i].key, first + |Blob(init[..i])|)
    ensures var lo, hi := IndexLength(ws[..i]), IndexLength(ws[..i + 1]);
            && lo <= hi <= IndexLength(ws)
            && Index(ws, first)[lo..hi] == Record(ws[i].key, first + |Blob(ws[..i])|)
  {
    var init, last := ws[..|ws| - 1], ws[|ws| - 1];
    InitPrefix(ws, i);
    var index, record := Index(init, first), Record(last.key, first + |Blob(init)|);
    IndexLast(ws, init, last, first);
    SliceBefore(index, record, IndexLength(init[..i]), IndexLength(init[..i + 1]));
  }

  /** Dropping the last element leaves the shorter prefixes alone. */
  lemma InitPrefix<T>(s: seq<T>, i: nat)
    requires i + 1 < |s|
    ensures s[..|s| - 1][..i] == s[..i] && s[..|s| - 1][..i + 1] == s[..i + 1] && s[..|s| - 1][i] == s[i]
  {
    assert s[..|s| - 1][..i + 1] == s[..i + 1];
  }

  /** The index for pairs ending in `p` is the index for those before it, then `p`'s record. */
  lemma IndexLast(vs: seq<Pair>, init: seq<Pair>, p: Pair, first: int)
    requires vs == init + [p]
    ensures Index(vs, first) == Index(init, first) + Record(p.key, first + |Blob(init)|)
    ensures IndexLength(vs) == IndexLength(init) + |p.key| + RecordOverhead
  {
    AppendPair(init, p, first);
  }

  /** A slice inside the first part of a concatenation. */
  lemma SliceBefore(x: Bytes, y: Bytes, lo: nat, hi: nat)
    requires lo <= hi <= |x|
    ensures (x + y)[lo..hi] == x[lo..hi]
  {
  }

  /** When the first `hi` bytes are `a` then `b`, the bytes after `a` up to `hi` are `b`. */
  lemma SliceAfterPrefix(x: Bytes, prefix: Bytes, a: Bytes, b: Bytes, hi: nat)
    requires hi <= |x| && x[..hi] == prefix && prefix == a + b
    ensures |a| <= hi && x[|a|..hi] == b
  {
    assert x[|a|..hi] == x[..hi][|a|..];
  }

  /** In any layout `flush` writes, a non-empty value `i` occupies exactly the
      bytes from its recorded offset on. */
  lemma ValuePlaced(ws: seq<Pair>, first: nat, hole: Byte, i: nat)
    requires i < |ws| && IndexLength(ws) <= first && |ws[i].value| > 0
    ensures var at := first + |Blob(ws[..i])|;
            && at + |ws[i].value| <= |Layout(ws, first, hole)|
            && Layout(ws, first, hole)[at..at + |ws[i].value|] == ws[i].value
  {
    ValueInBlob(ws, i);
    var a, b := |Blob(ws[..i])|, |Blob(ws[..i + 1])|;
    var front := Index(ws, first) + Gap(first - IndexLength(ws), hole);
    assert |front| == first;
    assert Layout(ws, first, hole) == front + Blob(ws);
    SliceAfter(front, Blob(ws), a, b);
  }

  /** The values of a prefix of the pairs start the value segment. */
  lemma {:induction false} BlobPrefix(ws: seq<Pair>, j: nat)
    requires j <= |ws|
    ensures |Blob(ws[..j])| <= |Blob(ws)| && Blob(ws)[..|Blob(ws[..j])|] == Blob(ws[..j])
    decreases |ws|
  {
    if j == |ws| {
      assert ws[..j] == ws;
    } else {
      var init := ws[..|ws| - 1];
      BlobPrefix(init, j);
      assert init[..j] == ws[..j];
      assert Blob(ws) == Blob(init) + ws[|ws| - 1].value;
    }
  }

  /** The value of pair `i` sits between the values before it and those after it. */
  lemma ValueInBlob(ws: seq<Pair>, i: nat)
    requires i < |ws|
    ensures |Blob(ws[..i])| + |ws[i].value| == |Blob(ws[..i + 1])| <= |Blob(ws)|
    ensures Blob(ws)[|Blob(ws[..i])|..|Blob(ws[..i + 1])|] == ws[i].value
  {
    assert (ws[..i + 1])[..i] == ws[..i];
    assert Blob(ws[..i + 1]) == Blob(ws[..i]) + ws[i].value;
    BlobPrefix(ws, i + 1);
    var whole := Blob(ws);
    var before := Blob(ws[..i + 1]);
    assert whole[..|before|] == before;
    assert whole[|Blob(ws[..i])|..|before|] == before[|Blob(ws[..i])|..];
  }

  /** Reading the file the corrected `flush` writes gives back every written
      pair, in order, provided keys hold no zero byte and offsets fit in 31 bits. */
  lemma {:induction false} DecodeCorrectedShard(ws: seq<Pair>, hole: Byte)
    requires Readable(ws, IndexLength(ws))
    ensures Decode(Shard(ws, IndexLength(ws), hole)) == Some(ws)
  {
    if ws != [] {
      var first := IndexLength(ws);
      LayoutWithoutGap(ws, hole);
      var data := Index(ws, first) + Blob(ws);
      assert Shard(ws, first, hole) == Some(data);
      assert data[0..first] == Index(ws, first);
      assert ReadIndex(data, first, first) == Some([]);
      ReadWrittenIndex(data, 0, first, first, ws, first, []);
      var recs := Records(ws, first);
      assert recs + [] == recs;
      RecordsAt(ws, first, 0);
      assert ws[..0] == [];
      assert recs[0].offset == first;
      assert ReadRecord(data, 0).Some? && ReadRecord(data, 0).value.0 == recs[0];
      ValuesReadBack(ws, first, data);
    }
  }

  /** With the index first and the values right after it, each record's value
      is found between its offset and the next. */
  lemma ValuesReadBack(ws: seq<Pair>, first: nat, data: Bytes)
    requires ws != [] && data == Index(ws, first) + Blob(ws) && first == IndexLength(ws)
    ensures var recs := Records(ws, first);
            && OffsetsFit(recs, |data|)
            && seq(|recs|, i requires 0 <= i < |recs| => Pair(recs[i].key, data[recs[i].offset..NextOffset(recs, i, |data|)])) == ws
  {
    var recs := Records(ws, first);
    var blob := Blob(ws);
    forall i | 0 <= i < |recs|
      ensures 0 <= recs[i].offset <= NextOffset(recs, i, |data|) <= |data|
      ensures data[recs[i].offset..NextOffset(recs, i, |data|)] == ws[i].value
    {
      ValueAt(ws, first, data, i);
    }
    var decoded := seq(|recs|, i requires 0 <= i < |recs| => Pair(recs[i].key, data[recs[i].offset..NextOffset(recs, i, |data|)]));
    forall i | 0 <= i < |ws|
      ensures decoded[i] == ws[i]
    {
      RecordsAt(ws, first, i);
    }
  }

  /** Record `i` of the corrected layout cuts out exactly the value of pair `i`. */
  lemma ValueAt(ws: seq<Pair>, first: nat, data: Bytes, i: nat)
    requires i < |ws| && data == Index(ws, first) + Blob(ws) && first == IndexLength(ws)
    ensures var recs := Records(ws, first);
            && 0 <= recs[i].offset <= NextOffset(recs, i, |data|) <= |data|
            && data[recs[i].offset..NextOffset(recs, i, |data|)] == ws[i].value
  {
    var recs := Records(ws, first);
    var blob := Blob(ws);
    RecordsAt(ws, first, i);
    ValueInBlob(ws, i);
    var a, b := |Blob(ws[..i])|, |Blob(ws[..i + 1])|;
    if i + 1 < |recs| {
      RecordsAt(ws, first, i + 1);
    } else {
      assert ws[..i + 1] == ws;
    }
    assert NextOffset(recs, i, |data|) == first + b;
    SliceAfter(Index(ws, first), blob, a, b);
  }

  /** A slice of the part after a prefix, addressed from the start of the whole. */
  lemma SliceAfter(x: Bytes, y: Bytes, a: nat, b: nat)
    requires a <= b <= |y|
    ensures (x + y)[|x| + a..|x| + b] == y[a..b]
  {
  }

  /** Pending entries with a null value ahead of a written one: `flush` still
      counts the null entry's record into the first offset. */
  const NullThenValue: seq<Entry> := [Entry([97], None), Entry([98], Some([120]))]

  /** The file `flush` writes for `NullThenValue`: the record of `b` pointing at
      12, six gap bytes where the null entry's record was counted, then `x`. */
  const NullThenValueFile: Bytes := [98, 0, 0, 0, 0, 12, 0, 0, 0, 0, 0, 0, 120]

  /** The file `flush` writes for `NullThenValue` does not read back: the first
      offset (12) lies past the end of the only record (6), so the reader takes
      the gap's zero bytes for further records and runs off the end of the file. */
  lemma FlushedNullEntryMisreads()
    ensures Written(NullThenValue) == [Pair([98], [120])]
    ensures FirstOffset(NullThenValue) == 12 && IndexLength(Written(NullThenValue)) == 6
    ensures Shard(Written(NullThenValue), FirstOffset(NullThenValue), 0) == Some(NullThenValueFile)
    ensures Decode(Shard(Written(NullThenValue), FirstOffset(NullThenValue), 0)) == None
  {
    NullThenValueWritten();
    NullThenValueLayout();
    NullThenValueFileMisreads();
  }

  lemma NullThenValueWritten()
    ensures Written(NullThenValue) == [Pair([98], [120])]
    ensures FirstOffset(NullThenValue) == 12 && IndexLength(Written(NullThenValue)) == 6
  {
    assert NullThenValue[..1] == [Entry([97], None)];
    assert NullThenValue[..1][..0] == [];
    assert Written(NullThenValue[..1]) == [];
  }

  lemma NullThenValueLayout()
    ensures Layout([Pair([98], [120])], 12, 0) == NullThenValueFile
  {
    var ws := [Pair([98], [120])];
    assert ws[..0] == [];
    assert Int32BE(12) == [0, 0, 0, 12];
    assert Index(ws, 12) == [98, 0, 0, 0, 0, 12];
    assert Gap(6, 0) == [0, 0, 0, 0, 0, 0];
  }

  lemma NullThenValueFileMisreads()
    ensures Decode(Some(NullThenValueFile)) == None
  {
    var data := NullThenValueFile;
    KeyEndAt(data, 0, 1);
    assert data[0..1] == [98];
    assert ReadInt32BE(data, 2) == 12;
    assert ReadRecord(data, 0) == Some((IndexEntry([98], 12), 6));
    KeyEndAt(data, 6, 6);
    assert ReadRecord(data, 6).Some? && ReadRecord(data, 6).value.1 == 11;
    KeyEndAt(data, 11, 11);
    assert ReadRecord(data, 11) == None;
  }
}

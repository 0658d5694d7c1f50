/** The shard-file writer (`StoreableTableFileWriter`). Pending entries are
    collected in a map; `flush` lays them out in a fresh file as an index of
    records `key · 0x00 · 4-byte big-endian offset`, one per non-null entry in
    iteration order, followed by the value bytes at the recorded offsets. Keys
    and values are their UTF-8 bytes. The file is modelled as a
    `RandomAccessFile`: a byte sequence and a file pointer. */
module StoreableTableFileWriter {
  import opened Wrappers

  type Bytes = seq<Byte>

  /** The writer's pending entries: key bytes to value bytes, `None` for a null value. */
  datatype Writer = Writer(toWrite: map<Bytes, Option<Bytes>>)

  /** `writeKeyValue(key, value)`: a map put, replacing any pending value for the key. */
  function WriteKeyValue(w: Writer, key: Bytes, value: Option<Bytes>): (r: Writer)
    ensures r.toWrite.Keys == w.toWrite.Keys + {key}
    ensures r.toWrite[key] == value
    ensures forall k :: k in w.toWrite && k != key ==> r.toWrite[k] == w.toWrite[k]
  {
    Writer(w.toWrite[key := value])
  }

  /** One pending entry as the iteration over the map yields it. */
  datatype Entry = Entry(key: Bytes, value: Option<Bytes>)

  /** `entries` is an iteration of the map: each entry of the map exactly once, in some order. */
  predicate IterationOf(entries: seq<Entry>, m: map<Bytes, Option<Bytes>>)
  {
    && |entries| == |m|
    && (forall i :: 0 <= i < |entries| ==> entries[i].key in m && m[entries[i].key] == entries[i].value)
    && (forall i, j :: 0 <= i < j < |entries| ==> entries[i].key != entries[j].key)
  }

  /** The bytes an index record adds besides its key: the zero terminator and the offset. */
  const RecordOverhead: nat := 1 + 4

  /** `countFirstOffSet()`: the record size summed over every pending entry,
      null-valued ones included. */
  function FirstOffset(entries: seq<Entry>): (first: nat)
    ensures IndexLength(Written(entries)) <= first
    ensures first == IndexLength(Written(entries)) <==> forall i :: 0 <= i < |entries| ==> entries[i].value.Some?
  {
    if |entries| == 0 then 0
    else
      var init, last := entries[..|entries| - 1], entries[|entries| - 1];
      WrittenLastLength(entries);
      assert forall i :: 0 <= i < |init| ==> init[i] == entries[i];
      FirstOffset(init) + |last.key| + RecordOverhead
  }

  /** `writeInt(n)`: the four bytes of the 32-bit two's-complement value of `n`, most significant first. */
  function Int32BE(n: int): (r: Bytes)
    ensures |r| == 4
  {
    var u := n % 0x1_0000_0000;
    [u / 0x100_0000, (u / 0x1_0000) % 0x100, (u / 0x100) % 0x100, u % 0x100]
  }

  /** The index record `storeKey` writes for a key and a value offset. */
  function Record(key: Bytes, offset: int): (r: Bytes)
    ensures |r| == |key| + RecordOverhead
  {
    key + [0] + Int32BE(offset)
  }

  /** A key and value that `flush` writes. */
  datatype Pair = Pair(key: Bytes, value: Bytes)

  /** The entries `flush` writes, in iteration order: those with a non-null value. */
  function Written(entries: seq<Entry>): (ws: seq<Pair>)
    ensures |ws| <= |entries|
  {
    if |entries| == 0 then []
    else
      var last := entries[|entries| - 1];
      Written(entries[..|entries| - 1]) + (if last.value.Some? then [Pair(last.key, last.value.value)] else [])
  }

  /** The index written for all entries is the one for all but the last, plus
      the last entry's record when its value is non-null. */
  lemma WrittenLastLength(entries: seq<Entry>)
    requires |entries| > 0
    ensures var init, last := entries[..|entries| - 1], entries[|entries| - 1];
            IndexLength(Written(entries))
              == IndexLength(Written(init)) + (if last.value.Some? then |last.key| + RecordOverhead else 0)
  {
    var init, last := entries[..|entries| - 1], entries[|entries| - 1];
    if last.value.Some? {
      var ws := Written(init);
      var p := Pair(last.key, last.value.value);
      assert Written(entries) == ws + [p];
      AppendPair(ws, p, 0);
    } else {
      assert Written(entries) == Written(init);
    }
  }

  /** The value segment: the written values one after another. */
  function Blob(ws: seq<Pair>): Bytes
  {
    if |ws| == 0 then [] else Blob(ws[..|ws| - 1]) + ws[|ws| - 1].value
  }

  /** The length of the index segment for the written entries. */
  function IndexLength(ws: seq<Pair>): nat
  {
    if |ws| == 0 then 0 else IndexLength(ws[..|ws| - 1]) + |ws[|ws| - 1].key| + RecordOverhead
  }

  /** The index segment: one record per written entry, each pointing at its
      value's place after `first`. */
  function Index(ws: seq<Pair>, first: int): (r: Bytes)
    ensures |r| == IndexLength(ws)
  {
    if |ws| == 0 then []
    else
      var init := ws[..|ws| - 1];
      Index(init, first) + Record(ws[|ws| - 1].key, first + |Blob(init)|)
  }

  /** The file contents for written entries whose values start at `first`: the
      index, then (if any value byte is written) the gap up to `first` filled
      with `hole`, then the value segment. */
  function Layout(ws: seq<Pair>, first: nat, hole: Byte): Bytes
  {
    Segments(Index(ws, first), Blob(ws), first, hole)
  }

  /** What `flush` leaves on disk: no file when nothing is written, else the layout. */
  function Shard(ws: seq<Pair>, first: nat, hole: Byte): Option<Bytes>
  {
    if ws == [] then None else Some(Layout(ws, first, hole))
  }

  /** An index segment and a value segment placed at `first`. */
  function Segments(index: Bytes, blob: Bytes, first: nat, hole: Byte): Bytes
  {
    if |blob| == 0 then index else index + Gap(first - |index|, hole) + blob
  }

  /** `n` bytes of `hole`, none when `n` is not positive. */
  function Gap(n: int, hole: Byte): (r: Bytes)
    ensures |r| == if n > 0 then n else 0
  {
    if n > 0 then seq(n, _ => hole) else []
  }

  // ---------------------------------------------------------------------------
  // The random access file

  /** An open `RandomAccessFile`: its contents and its file pointer. */
  datatype Raf = Raf(data: Bytes, pointer: nat)

  /** `seek(pos)`. */
  function Seek(f: Raf, pos: nat): (r: Raf)
    ensures r.data == f.data && r.pointer == pos
  {
    f.(pointer := pos)
  }

  /** The bytes past `n` of `t`, none when `t` is shorter. */
  function Drop(t: Bytes, n: nat): (r: Bytes)
    ensures |r| == if n < |t| then |t| - n else 0
  {
    if n < |t| then t[n..] else []
  }

  /** Writing one byte at the file pointer: overwrite it, or append it after
      extending the file to the pointer. The bytes a file is extended with are
      unspecified; they are `hole` here. */
  function WriteByte(f: Raf, b: Byte, hole: Byte): (r: Raf)
    ensures r.pointer == f.pointer + 1
  {
    if f.pointer < |f.data| then Raf(f.data[f.pointer := b], f.pointer + 1)
    else Raf(f.data + Gap(f.pointer - |f.data|, hole) + [b], f.pointer + 1)
  }

  /** `write(bytes)`: the bytes written one after another from the file
      pointer. Writing nothing changes nothing. */
  function Write(f: Raf, bytes: Bytes, hole: Byte): (r: Raf)
    ensures r.pointer == f.pointer + |bytes|
    decreases |bytes|
  {
    if |bytes| == 0 then f else Write(WriteByte(f, bytes[0], hole), bytes[1..], hole)
  }

  /** `storeKey(key, offset)`: the key bytes, a zero byte, then `writeInt(offset)`. */
  function StoreKey(f: Raf, key: Bytes, offset: int, hole: Byte): (r: Raf)
    ensures r.pointer == f.pointer + |key| + RecordOverhead
  {
    Write(Write(Write(f, key, hole), [0], hole), Int32BE(offset), hole)
  }

  /** Writing at a pointer inside (or at the end of) the file overwrites in place. */
  lemma {:induction false} WriteInPlace(prefix: Bytes, tail: Bytes, bytes: Bytes, hole: Byte)
    ensures Write(Raf(prefix + tail, |prefix|), bytes, hole)
              == Raf(prefix + bytes + Drop(tail, |bytes|), |prefix| + |bytes|)
    decreases |bytes|
  {
    if |bytes| == 0 {
      assert prefix + bytes == prefix;
      assert Drop(tail, 0) == tail;
    } else {
      var b := bytes[0];
      var prefix' := prefix + [b];
      var tail' := Drop(tail, 1);
      assert WriteByte(Raf(prefix + tail, |prefix|), b, hole) == Raf(prefix' + tail', |prefix'|) by {
        if |tail| > 0 {
          assert (prefix + tail)[|prefix| := b] == prefix' + tail';
        } else {
          assert prefix + tail == prefix;
          assert Gap(0, hole) == [];
          assert prefix + [] + [b] == prefix' + [];
        }
      }
      WriteInPlace(prefix', tail', bytes[1..], hole);
      DropDrop(tail, 1, |bytes| - 1);
      assert prefix' + bytes[1..] == prefix + bytes;
    }
  }

  /** Writing from beyond the end pads the file with `hole` first. */
  lemma WritePastEnd(data: Bytes, pos: nat, bytes: Bytes, hole: Byte)
    requires |data| <= pos && |bytes| > 0
    ensures Write(Raf(data, pos), bytes, hole) == Raf(data + Gap(pos - |data|, hole) + bytes, pos + |bytes|)
  {
    var padded := data + Gap(pos - |data|, hole) + [bytes[0]];
    assert WriteByte(Raf(data, pos), bytes[0], hole) == Raf(padded + [], |padded|);
    WriteInPlace(padded, [], bytes[1..], hole);
    assert padded + bytes[1..] == data + Gap(pos - |data|, hole) + bytes;
  }

  /** A key record written inside (or at the end of) the file overwrites in place. */
  lemma StoreKeyInPlace(prefix: Bytes, tail: Bytes, key: Bytes, offset: int, hole: Byte)
    ensures StoreKey(Raf(prefix + tail, |prefix|), key, offset, hole)
              == Raf(prefix + Record(key, offset) + Drop(tail, |key| + RecordOverhead), |prefix| + |key| + RecordOverhead)
  {
    var t1 := Drop(tail, |key|);
    var t2 := Drop(t1, 1);
    var number := Int32BE(offset);
    var f1 := Write(Raf(prefix + tail, |prefix|), key, hole);
    assert f1 == Raf(prefix + key + t1, |prefix| + |key|) by {
      WriteInPlace(prefix, tail, key, hole);
    }
    var f2 := Write(f1, [0], hole);
    assert f2 == Raf(prefix + key + [0] + t2, |prefix| + |key| + 1) by {
      WriteInPlace(prefix + key, t1, [0], hole);
    }
    var f3 := Write(f2, number, hole);
    assert f3 == Raf(prefix + key + [0] + number + Drop(t2, 4), |prefix| + |key| + 5) by {
      WriteInPlace(prefix + key + [0], t2, number, hole);
    }
    assert Drop(t2, 4) == Drop(tail, |key| + RecordOverhead) by {
      DropDrop(tail, |key|, 1);
      DropDrop(tail, |key| + 1, 4);
    }
    assert prefix + key + [0] + number == prefix + Record(key, offset);
  }

  /** Dropping twice is dropping the sum. */
  lemma DropDrop(t: Bytes, a: nat, b: nat)
    ensures Drop(Drop(t, a), b) == Drop(t, a + b)
  {
    if a + b < |t| {
      assert t[a..][b..] == t[a + b..];
    }
  }

  // ---------------------------------------------------------------------------
  // flush

  /** Taking one more entry: the written entries grow by that entry exactly when
      its value is non-null. */
  lemma WrittenStep(entries: seq<Entry>, i: nat)
    requires i < |entries|
    ensures entries[i].value.None? ==> Written(entries[..i + 1]) == Written(entries[..i])
    ensures entries[i].value.Some? ==>
              Written(entries[..i + 1]) == Written(entries[..i]) + [Pair(entries[i].key, entries[i].value.value)]
    ensures FirstOffset(entries[..i + 1]) == FirstOffset(entries[..i]) + |entries[i].key| + RecordOverhead
  {
    assert entries[..i + 1][..i] == entries[..i];
    if entries[i].value.None? {
      assert Written(entries[..i + 1]) == Written(entries[..i]) + [];
    }
  }

  /** The records of written entries never take more room than `countFirstOffSet` reserves. */
  lemma {:induction false} IndexFitsFirstOffset(entries: seq<Entry>)
    ensures IndexLength(Written(entries)) <= FirstOffset(entries)
  {
    if |entries| > 0 {
      var n := |entries| - 1;
      IndexFitsFirstOffset(entries[..n]);
      WrittenStep(entries, n);
      assert entries[..n + 1] == entries;
      if entries[n].value.Some? {
        var p := Pair(entries[n].key, entries[n].value.value);
        AppendPair(Written(entries[..n]), p, 0);
      } else {
        assert Written(entries) == Written(entries[..n]);
        assert FirstOffset(entries) == FirstOffset(entries[..n]) + |entries[n].key| + RecordOverhead;
      }
    }
  }

  /** A longer prefix of the entries writes at least as long an index. */
  lemma {:induction false} IndexLengthMonotone(entries: seq<Entry>, i: nat)
    requires i <= |entries|
    ensures IndexLength(Written(entries[..i])) <= IndexLength(Written(entries))
    decreases |entries| - i
  {
    if i < |entries| {
      IndexLengthStep(entries, i);
      IndexLengthMonotone(entries, i + 1);
    } else {
      assert entries[..i] == entries;
    }
  }

  /** One more entry never shortens the index. */
  lemma IndexLengthStep(entries: seq<Entry>, i: nat)
    requires i < |entries|
    ensures IndexLength(Written(entries[..i])) <= IndexLength(Written(entries[..i + 1]))
  {
    WrittenStep(entries, i);
    if entries[i].value.Some? {
      IndexLengthAppend(Written(entries[..i]), Pair(entries[i].key, entries[i].value.value));
    }
  }

  /** One more written pair lengthens the index by its record. */
  lemma IndexLengthAppend(ws: seq<Pair>, p: Pair)
    ensures IndexLength(ws + [p]) == IndexLength(ws) + |p.key| + RecordOverhead
  {
    assert (ws + [p])[..|ws|] == ws;
  }

  /** One more written entry adds its record to the index and its value to the value segment. */
  lemma AppendPair(ws: seq<Pair>, p: Pair, first: int)
    ensures Index(ws + [p], first) == Index(ws, first) + Record(p.key, first + |Blob(ws)|)
    ensures Blob(ws + [p]) == Blob(ws) + p.value
    ensures IndexLength(ws + [p]) == IndexLength(ws) + |p.key| + RecordOverhead
  {
    assert (ws + [p])[..|ws|] == ws;
  }

  /** The layout after one more written pair, in terms of the layout's segments before it. */
  lemma LayoutAppend(ws: seq<Pair>, p: Pair, first: nat, hole: Byte)
    ensures Layout(ws + [p], first, hole)
              == Segments(Index(ws, first) + Record(p.key, first + |Blob(ws)|), Blob(ws) + p.value, first, hole)
    ensures IndexLength(ws + [p]) == IndexLength(ws) + |p.key| + RecordOverhead
    ensures |Blob(ws + [p])| == |Blob(ws)| + |p.value|
  {
    AppendPair(ws, p, first);
  }

  /** One pass of the loop in `flush` over a non-null entry: the record goes
      at the end of the index and the value at the end of the value segment. */
  lemma FlushStep(index: Bytes, blob: Bytes, key: Bytes, value: Bytes, first: nat, hole: Byte, f: Raf, offset: nat)
    requires |index| + |key| + RecordOverhead <= first
    requires f == Raf(Segments(index, blob, first, hole), |index|) && offset == first + |blob|
    ensures var stored := StoreKey(f, key, offset, hole);
            var valued := Write(Seek(stored, offset), value, hole);
            && stored.pointer == |index| + |key| + RecordOverhead
            && valued.pointer == offset + |value|
            && valued.data == Segments(index + Record(key, offset), blob + value, first, hole)
  {
    if |blob| == 0 {
      FlushStepFromIndex(index, blob, key, value, first, hole, f, offset);
    } else {
      FlushStepAfterValues(index, blob, key, value, first, hole, f, offset);
    }
  }

  /** `FlushStep` once values exist: the record eats into the gap before them. */
  lemma FlushStepAfterValues(index: Bytes, blob: Bytes, key: Bytes, value: Bytes, first: nat, hole: Byte, f: Raf, offset: nat)
    requires |index| + |key| + RecordOverhead <= first
    requires f == Raf(Segments(index, blob, first, hole), |index|) && offset == first + |blob|
    requires |blob| > 0
    ensures var stored := StoreKey(f, key, offset, hole);
            var valued := Write(Seek(stored, offset), value, hole);
            && stored.pointer == |index| + |key| + RecordOverhead
            && valued.pointer == offset + |value|
            && valued.data == Segments(index + Record(key, offset), blob + value, first, hole)
  {
    var g := first - |index|;
    var index' := index + Record(key, offset);
    assert f.data == index + Gap(g, hole) + blob;
    assert |index'| == |index| + |key| + RecordOverhead;
    assert Segments(index', blob + value, first, hole) == index' + Gap(g - |key| - RecordOverhead, hole) + (blob + value);
    StoreThenAppend(index, key, offset, g, blob, value, offset, hole);
  }

  /** `FlushStep` while no value byte is written yet: the file is the index alone. */
  lemma FlushStepFromIndex(index: Bytes, blob: Bytes, key: Bytes, value: Bytes, first: nat, hole: Byte, f: Raf, offset: nat)
    requires |index| + |key| + RecordOverhead <= first
    requires f == Raf(Segments(index, blob, first, hole), |index|) && offset == first + |blob|
    requires |blob| == 0
    ensures var stored := StoreKey(f, key, offset, hole);
            var valued := Write(Seek(stored, offset), value, hole);
            && stored.pointer == |index| + |key| + RecordOverhead
            && valued.pointer == offset + |value|
            && valued.data == Segments(index + Record(key, offset), blob + value, first, hole)
  {
    assert f == Raf(index, |index|) && offset == first && blob + value == value;
    var index' := index + Record(key, first);
    var stored := StoreKey(f, key, first, hole);
    assert stored == Raf(index', |index'|) by {
      StoreKeyInPlace(index, [], key, first, hole);
      assert index + [] == index;
    }
    assert Seek(stored, first) == Raf(index', first);
    if |value| > 0 {
      WritePastEnd(index', first, value, hole);
    }
  }

  /** Storing a record into the gap and then writing a value at the end of the
      file: the record replaces the gap's start and the value is appended. */
  lemma StoreThenAppend(index: Bytes, key: Bytes, offset: int, g: int, blob: Bytes, value: Bytes, end: nat, hole: Byte)
    requires |key| + RecordOverhead <= g && end == |index| + g + |blob|
    ensures var stored := StoreKey(Raf(index + Gap(g, hole) + blob, |index|), key, offset, hole);
            var valued := Write(Seek(stored, end), value, hole);
            && stored.pointer == |index| + |key| + RecordOverhead
            && valued.data == index + Record(key, offset) + Gap(g - |key| - RecordOverhead, hole) + (blob + value)
  {
    var data := index + Record(key, offset) + Gap(g - |key| - RecordOverhead, hole) + blob;
    StoreIntoGap(index, key, offset, g, blob, hole);
    assert Write(Raf(data, |data|), value, hole) == Raf(data + value, |data| + |value|) by {
      WriteInPlace(data, [], value, hole);
      assert data + [] == data;
    }
    AppendAssociative(index + Record(key, offset), Gap(g - |key| - RecordOverhead, hole), blob, value);
  }

  /** A record stored at the end of the index, inside the gap, overwrites the gap's start. */
  lemma StoreIntoGap(index: Bytes, key: Bytes, offset: int, g: int, blob: Bytes, hole: Byte)
    requires |key| + RecordOverhead <= g
    ensures StoreKey(Raf(index + Gap(g, hole) + blob, |index|), key, offset, hole)
              == Raf(index + Record(key, offset) + Gap(g - |key| - RecordOverhead, hole) + blob,
                     |index| + |key| + RecordOverhead)
  {
    var n := |key| + RecordOverhead;
    var rest := Gap(g - n, hole) + blob;
    var tail := Gap(n, hole) + rest;
    assert index + Gap(g, hole) + blob == index + tail by {
      GapSplit(g, n, hole);
      AppendAssociative(index, Gap(n, hole), Gap(g - n, hole), blob);
    }
    StoreKeyInPlace(index, tail, key, offset, hole);
    DropPrefix(Gap(n, hole), rest);
    AppendAssociative(index, Record(key, offset), Gap(g - n, hole), blob);
  }

  /** Appending to a concatenation appends to its last part. */
  lemma AppendAssociative(a: Bytes, b: Bytes, c: Bytes, d: Bytes)
    ensures a + b + c + d == a + b + (c + d)
  {
  }

  /** A gap splits into two shorter gaps. */
  lemma GapSplit(g: nat, n: nat, hole: Byte)
    requires n <= g
    ensures Gap(g, hole) == Gap(n, hole) + Gap(g - n, hole)
  {
  }

  /** Dropping exactly a prefix leaves the rest. */
  lemma DropPrefix(x: Bytes, y: Bytes)
    ensures Drop(x + y, |x|) == y
  {
    if |y| > 0 {
      assert (x + y)[|x|..] == y;
    }
  }

  /** `flush()` over the writer's entries in the order the map yields them:
      the first value offset is `countFirstOffSet()`, which the `int` sum
      reaches without overflow. An empty file is deleted again, which is `None`. */
  method Flush(w: Writer, entries: seq<Entry>, hole: Byte) returns (file: Option<Bytes>)
    requires IterationOf(entries, w.toWrite)
    requires FirstOffset(entries) < 0x8000_0000
    ensures file.None? <==> Written(entries) == []
    ensures file == Shard(Written(entries), FirstOffset(entries), hole)
  {
    IndexFitsFirstOffset(entries);
    var f := WriteShard(entries, FirstOffset(entries), hole);
    WrittenEmptyLayout(Written(entries), FirstOffset(entries), hole);
    file := if |f.data| == 0 then None else Some(f.data);
  }

  /** `flush()` with the first value offset taken over the non-null entries
      only, so that the values start right where the index ends. */
  method FlushCorrected(w: Writer, entries: seq<Entry>, hole: Byte) returns (file: Option<Bytes>)
    requires IterationOf(entries, w.toWrite)
    requires IndexLength(Written(entries)) < 0x8000_0000
    ensures file.None? <==> Written(entries) == []
    ensures file == Shard(Written(entries), IndexLength(Written(entries)), hole)
    ensures file.Some? ==> file.value == Index(Written(entries), IndexLength(Written(entries))) + Blob(Written(entries))
  {
    var ws := Written(entries);
    var f := WriteShard(entries, IndexLength(ws), hole);
    WrittenEmptyLayout(ws, IndexLength(ws), hole);
    LayoutWithoutGap(ws, hole);
    file := if |f.data| == 0 then None else Some(f.data);
  }

  /** With the values placed right after the index there is no gap between them. */
  lemma LayoutWithoutGap(ws: seq<Pair>, hole: Byte)
    ensures Layout(ws, IndexLength(ws), hole) == Index(ws, IndexLength(ws)) + Blob(ws)
  {
    var index, blob := Index(ws, IndexLength(ws)), Blob(ws);
    if |blob| == 0 {
      assert index + blob == index;
    } else {
      assert Gap(IndexLength(ws) - |index|, hole) == [];
    }
  }

  /** The loop of `flush()` from a given first value offset, over a file
      `delete()` has emptied: each non-null entry's record goes at the write
      position, its value at the current offset, and the write position is
      restored. */
  method WriteShard(entries: seq<Entry>, first: nat, hole: Byte) returns (f: Raf)
    requires IndexLength(Written(entries)) <= first
    ensures f.data == Layout(Written(entries), first, hole)
  {
    f := Raf([], 0);
    var currentOffset: nat := first;
    var i := 0;
    while i < |entries|
      invariant 0 <= i <= |entries|
      invariant f == Raf(Layout(Written(entries[..i]), first, hole), IndexLength(Written(entries[..i])))
      invariant currentOffset == first + |Blob(Written(entries[..i]))|
    {
      f, currentOffset := FlushEntry(entries, i, first, hole, f, currentOffset);
      i := i + 1;
    }
    assert entries[..i] == entries;
  }

  /** One pass of the loop in `flush`: a null entry is skipped; otherwise the
      record goes at the write position, the value at the current offset, and
      the write position is restored. The file stays the layout of the entries
      seen so far. */
  method FlushEntry(entries: seq<Entry>, i: nat, first: nat, hole: Byte, f: Raf, offset: nat)
    returns (f': Raf, offset': nat)
    requires i < |entries| && IndexLength(Written(entries)) <= first
    requires f == Raf(Layout(Written(entries[..i]), first, hole), IndexLength(Written(entries[..i])))
    requires offset == first + |Blob(Written(entries[..i]))|
    ensures f' == Raf(Layout(Written(entries[..i + 1]), first, hole), IndexLength(Written(entries[..i + 1])))
    ensures offset' == first + |Blob(Written(entries[..i + 1]))|
  {
    FlushLoopStep(entries, i, first, hole, f, offset);
    f', offset' := f, offset;
    var e := entries[i];
    if e.value.Some? {
      f' := StoreKey(f', e.key, offset', hole);
      var writePosition := f'.pointer;
      f' := Seek(f', offset');
      f' := Write(f', e.value.value, hole);
      offset' := f'.pointer;
      f' := Seek(f', writePosition);
    }
  }

  /** One pass of the loop in `flush` keeps the file equal to the layout of the
      entries seen so far: a null entry changes nothing, a non-null one stores
      its record where the index ends and its value where the values end. */
  lemma FlushLoopStep(entries: seq<Entry>, i: nat, first: nat, hole: Byte, f: Raf, offset: nat)
    requires i < |entries| && IndexLength(Written(entries)) <= first
    requires f == Raf(Layout(Written(entries[..i]), first, hole), IndexLength(Written(entries[..i])))
    requires offset == first + |Blob(Written(entries[..i]))|
    ensures entries[i].value.None? ==> Written(entries[..i + 1]) == Written(entries[..i])
    ensures entries[i].value.Some? ==>
              var stored := StoreKey(f, entries[i].key, offset, hole);
              var valued := Write(Seek(stored, offset), entries[i].value.value, hole);
              && Seek(valued, stored.pointer)
                   == Raf(Layout(Written(entries[..i + 1]), first, hole), IndexLength(Written(entries[..i + 1])))
              && valued.pointer == first + |Blob(Written(entries[..i + 1]))|
  {
    WrittenStep(entries, i);
    var e := entries[i];
    if e.value.Some? {
      var ws, p := Written(entries[..i]), Pair(e.key, e.value.value);
      assert Written(entries[..i + 1]) == ws + [p];
      assert IndexLength(ws) + |p.key| + RecordOverhead <= first by {
        IndexLengthMonotone(entries, i + 1);
        AppendPair(ws, p, first);
      }
      FlushAppend(ws, p, Written(entries[..i + 1]), first, hole, f, offset);
    }
  }

  /** `FlushLoopStep` for a non-null entry, over the written pairs alone. */
  lemma FlushAppend(ws: seq<Pair>, p: Pair, ws': seq<Pair>, first: nat, hole: Byte, f: Raf, offset: nat)
    requires ws' == ws + [p] && IndexLength(ws) + |p.key| + RecordOverhead <= first
    requires f == Raf(Layout(ws, first, hole), IndexLength(ws)) && offset == first + |Blob(ws)|
    ensures var stored := StoreKey(f, p.key, offset, hole);
            var valued := Write(Seek(stored, offset), p.value, hole);
            && Seek(valued, stored.pointer) == Raf(Layout(ws', first, hole), IndexLength(ws'))
            && valued.pointer == first + |Blob(ws')|
  {
    LayoutAppend(ws, p, first, hole);
    FlushStep(Index(ws, first), Blob(ws), p.key, p.value, first, hole, f, offset);
  }

  /** The layout is empty exactly when nothing is written. */
  lemma WrittenEmptyLayout(ws: seq<Pair>, first: nat, hole: Byte)
    requires IndexLength(ws) <= first
    ensures |Layout(ws, first, hole)| == 0 <==> ws == []
  {
    if ws != [] {
      assert IndexLength(ws) > 0;
    }
  }
}

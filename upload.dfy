/**
 * `TranscriptionService._read_file_chunks`: the file is opened in binary mode and
 * read `CHUNK_SIZE` bytes at a time until `read` returns nothing; each piece is
 * handed to the upload request in order.
 */
module Upload {

  newtype byte = x: int | 0 <= x < 256

  const ChunkSize: nat := 5_242_880

  /** An open binary file: fixed contents and a read position that `Read` advances. */
  class ByteReader {
    const contents: seq<byte>
    var position: nat

    ghost predicate Valid()
      reads this
    {
      position <= |contents|
    }

    constructor Open(data: seq<byte>)
      ensures Valid() && contents == data && position == 0
    {
      contents := data;
      position := 0;
    }

    /** `file.read(n)`: up to `n` bytes from the position; fewer only at end of file. */
    method Read(n: nat) returns (data: seq<byte>)
      requires Valid()
      modifies this
      ensures Valid()
      ensures old(position) + |data| <= |contents|
      ensures data == contents[old(position)..old(position) + |data|]
      ensures |data| == if old(position) + n <= |contents| then n else |contents| - old(position)
      ensures position == old(position) + |data|
    {
      var stop := if position + n <= |contents| then position + n else |contents|;
      data := contents[position..stop];
      position := stop;
    }
  }

  function Flatten(chunks: seq<seq<byte>>): seq<byte> {
    if chunks == [] then [] else chunks[0] + Flatten(chunks[1..])
  }

  /** Every piece is non-empty and at most `size` long; all but the last are exactly `size`. */
  ghost predicate WellCut(chunks: seq<seq<byte>>, size: nat) {
    && (forall i :: 0 <= i < |chunks| ==> 0 < |chunks[i]| <= size)
    && (forall i :: 0 <= i < |chunks| - 1 ==> |chunks[i]| == size)
  }

  /** The pieces a read loop with buffer `size` produces. */
  function Chunks(data: seq<byte>, size: nat): seq<seq<byte>>
    requires size > 0
    decreases |data|
  {
    if |data| == 0 then []
    else if |data| <= size then [data]
    else [data[..size]] + Chunks(data[size..], size)
  }

  /** The pieces put back together are the file. */
  lemma {:induction false} ChunksFlatten(data: seq<byte>, size: nat)
    requires size > 0
    ensures Flatten(Chunks(data, size)) == data
    decreases |data|
  {
    if 0 < |data| <= size {
      assert Flatten([data]) == data + Flatten([]);
    } else if |data| > size {
      var rest := Chunks(data[size..], size);
      ChunksFlatten(data[size..], size);
      assert ([data[..size]] + rest)[1..] == rest;
      assert data == data[..size] + data[size..];
    }
  }

  /** No piece is empty or longer than `size`, and only the last may be shorter. */
  lemma {:induction false} ChunksWellCut(data: seq<byte>, size: nat)
    requires size > 0
    ensures WellCut(Chunks(data, size), size)
    decreases |data|
  {
    if |data| > size {
      var rest := Chunks(data[size..], size);
      ChunksWellCut(data[size..], size);
      var all := [data[..size]] + rest;
      forall i | 0 < i < |all| ensures all[i] == rest[i - 1] { }
    }
  }

  /** There are just enough pieces: all but one are full, the last holds the rest. */
  lemma {:induction false} ChunkCount(data: seq<byte>, size: nat)
    requires size > 0
    ensures |Chunks(data, size)| == 0 <==> |data| == 0
    ensures |data| > 0 ==> size * (|Chunks(data, size)| - 1) < |data| <= size * |Chunks(data, size)|
    decreases |data|
  {
    if |data| > size {
      ChunkCount(data[size..], size);
      assert |Chunks(data, size)| == 1 + |Chunks(data[size..], size)|;
      var n := |Chunks(data[size..], size)|;
      assert size * (n + 1) == size * n + size;
    }
  }

  /** One step of the read loop: the first piece is what one `read` returns. */
  lemma ChunksStep(data: seq<byte>, size: nat, n: nat)
    requires size > 0 && 0 < n && n == (if size <= |data| then size else |data|)
    ensures Chunks(data, size) == [data[..n]] + Chunks(data[n..], size)
  {
    if |data| <= size {
      assert data[..n] == data;
      assert data[n..] == [];
    }
  }

  /** A cut with those properties is unique: it is the one `Chunks` gives. */
  lemma {:induction false} WellCutIsChunks(chunks: seq<seq<byte>>, data: seq<byte>, size: nat)
    requires size > 0 && WellCut(chunks, size) && Flatten(chunks) == data
    ensures chunks == Chunks(data, size)
    decreases |chunks|
  {
    if chunks != [] {
      var rest := chunks[1..];
      assert WellCut(rest, size);
      assert data == chunks[0] + Flatten(rest);
      if rest == [] {
        assert Flatten(rest) == [];
        assert data == chunks[0];
      } else {
        assert |chunks[0]| == size;
        assert |Flatten(rest)| > 0 by { FlattenNonEmpty(rest, size); }
        assert data[..size] == chunks[0];
        assert data[size..] == Flatten(rest);
        WellCutIsChunks(rest, data[size..], size);
      }
    }
  }

  lemma {:induction false} FlattenNonEmpty(chunks: seq<seq<byte>>, size: nat)
    requires chunks != [] && WellCut(chunks, size)
    ensures |Flatten(chunks)| >= |chunks[0]| > 0
  {
    assert Flatten(chunks) == chunks[0] + Flatten(chunks[1..]);
  }

  /** A non-empty read from `at` takes off exactly the first piece of what remains. */
  lemma ReadStep(file: seq<byte>, at: nat, data: seq<byte>)
    requires at + |data| <= |file| && data == file[at..at + |data|]
    requires 0 < |data| == (if at + ChunkSize <= |file| then ChunkSize else |file| - at)
    ensures Chunks(file[at..], ChunkSize) == [data] + Chunks(file[at + |data|..], ChunkSize)
  {
    var rest := file[at..];
    ChunksStep(rest, ChunkSize, |data|);
    assert rest[..|data|] == data;
    assert rest[|data|..] == file[at + |data|..];
  }

  /** Reads the whole of `file` in `ChunkSize` pieces, as the upload generator yields them. */
  method ReadFileChunks(file: seq<byte>) returns (chunks: seq<seq<byte>>)
    ensures chunks == Chunks(file, ChunkSize)
    ensures Flatten(chunks) == file
    ensures forall i :: 0 <= i < |chunks| ==> 0 < |chunks[i]| <= ChunkSize
    ensures forall i :: 0 <= i < |chunks| - 1 ==> |chunks[i]| == ChunkSize
  {
    var reader := new ByteReader.Open(file);
    chunks := [];
    while true
      invariant reader.Valid() && reader.contents == file
      invariant chunks + Chunks(file[reader.position..], ChunkSize) == Chunks(file, ChunkSize)
      decreases |file| - reader.position
    {
      ghost var at := reader.position;
      var data := reader.Read(ChunkSize);
      if |data| == 0 {
        break;
      }
      ReadStep(file, at, data);
      chunks := chunks + [data];
    }
    assert file[reader.position..] == [];
    ChunksFlatten(file, ChunkSize);
    ChunksWellCut(file, ChunkSize);
  }
}

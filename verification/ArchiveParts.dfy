/**
 * The chunks an archive is read in, and the check of the parts they were uploaded as. Models
 * `_read_chunk_batch` and `_validated_sorted_parts` of `backend/app/snapshots.py`.
 */
module ArchiveParts {
  import opened Basics

  type Byte = bv8

  type Bytes = seq<Byte>

  /** A part of an upload; it has no ETag until the store has answered. */
  datatype Part = Part(number: nat, body: Bytes, etag: string)

  // ----- Reading the archive -----

  /** The chunks of one read batch and what is left of the stream. */
  function ReadBatch(stream: Bytes, chunkSize: nat, batchSize: nat): (seq<Bytes>, Bytes)
    requires chunkSize > 0
    decreases batchSize
  {
    if batchSize == 0 || stream == [] then ([], stream)
    else
      var size := if |stream| < chunkSize then |stream| else chunkSize;
      var (chunks, left) := ReadBatch(stream[size..], chunkSize, batchSize - 1);
      ([stream[..size]] + chunks, left)
  }

  function Flatten(chunks: seq<Bytes>): Bytes {
    if chunks == [] then [] else Flatten(chunks[..|chunks| - 1]) + chunks[|chunks| - 1]
  }

  lemma {:induction false} FlattenConcat(a: seq<Bytes>, b: seq<Bytes>)
    ensures Flatten(a + b) == Flatten(a) + Flatten(b)
    decreases |b|
  {
    if b == [] {
      assert a + b == a;
    } else {
      var last := |b| - 1;
      assert (a + b)[..|a + b| - 1] == a + b[..last];
      FlattenConcat(a, b[..last]);
      assert Flatten(a + b[..last]) + b[last] == Flatten(a) + (Flatten(b[..last]) + b[last]);
    }
  }

  lemma FlattenOne(chunk: Bytes)
    ensures Flatten([chunk]) == chunk
  {
    assert [chunk][..0] == [];
  }

  lemma Assoc(a: Bytes, b: Bytes, c: Bytes)
    ensures (a + b) + c == a + (b + c)
  {
  }

  lemma FirstChunk(first: Bytes, chunks: seq<Bytes>, left: Bytes)
    ensures Flatten([first] + chunks) + left == first + (Flatten(chunks) + left)
  {
    FlattenConcat([first], chunks);
    FlattenOne(first);
    hide Flatten;
    Assoc(first, Flatten(chunks), left);
  }

  predicate Fits(chunkSize: nat, chunk: Bytes) {
    0 < |chunk| <= chunkSize
  }

  predicate AllFit(chunkSize: nat, chunks: seq<Bytes>) {
    forall k | 0 <= k < |chunks| :: Fits(chunkSize, chunks[k])
  }

  lemma ReadBatchOne(stream: Bytes, chunkSize: nat, batchSize: nat, first: Bytes, tail: Bytes)
    requires chunkSize > 0 && batchSize > 0 && stream != []
    requires var size := if |stream| < chunkSize then |stream| else chunkSize;
             first == stream[..size] && tail == stream[size..]
    ensures stream == first + tail && Fits(chunkSize, first)
    ensures var (chunks, left) := ReadBatch(tail, chunkSize, batchSize - 1);
            ReadBatch(stream, chunkSize, batchSize) == ([first] + chunks, left)
  {
  }

  /** A batch takes the stream apart without loss, and is empty only at its end. */
  lemma {:induction false} ReadBatchSplits(stream: Bytes, chunkSize: nat, batchSize: nat)
    requires chunkSize > 0
    ensures var (chunks, left) := ReadBatch(stream, chunkSize, batchSize);
            && Flatten(chunks) + left == stream
            && |chunks| + |left| <= |stream|
            && (batchSize > 0 && chunks == [] ==> stream == [])
            && AllFit(chunkSize, chunks)
    decreases batchSize
  {
    if batchSize == 0 || stream == [] {
      assert Flatten([]) + stream == stream;
    } else {
      hide Flatten;
      var size := if |stream| < chunkSize then |stream| else chunkSize;
      var first, tail := stream[..size], stream[size..];
      ReadBatchOne(stream, chunkSize, batchSize, first, tail);
      hide ReadBatch;
      var (chunks, left) := ReadBatch(tail, chunkSize, batchSize - 1);
      ReadBatchSplits(tail, chunkSize, batchSize - 1);
      FirstChunk(first, chunks, left);
    }
  }

  /** All chunks but the last have the given size, and all of them in a batch that leaves something, which is full. */
  lemma {:induction false} ReadBatchIsFull(stream: Bytes, chunkSize: nat, batchSize: nat)
    requires chunkSize > 0
    ensures var (chunks, left) := ReadBatch(stream, chunkSize, batchSize);
            && |chunks| <= batchSize && (left != [] ==> |chunks| == batchSize)
            && forall k | 0 <= k < |chunks| && (k < |chunks| - 1 || left != []) :: |chunks[k]| == chunkSize
    decreases batchSize
  {
    if batchSize > 0 && stream != [] {
      var size := if |stream| < chunkSize then |stream| else chunkSize;
      var first, tail := stream[..size], stream[size..];
      ReadBatchOne(stream, chunkSize, batchSize, first, tail);
      ReadBatchIsFull(tail, chunkSize, batchSize - 1);
      NothingRead([], chunkSize, batchSize - 1);
    }
  }

  lemma NothingRead(stream: Bytes, chunkSize: nat, batchSize: nat)
    requires chunkSize > 0 && (stream == [] || batchSize == 0)
    ensures ReadBatch(stream, chunkSize, batchSize) == ([], stream)
  {
  }

  class ArchiveStream {
    var rest: Bytes

    method Read(size: nat) returns (chunk: Bytes)
      modifies this
      ensures chunk == old(rest)[..if |old(rest)| < size then |old(rest)| else size]
      ensures chunk + rest == old(rest)
    {
      var taken := if |rest| < size then |rest| else size;
      chunk, rest := rest[..taken], rest[taken..];
    }
  }

  method ReadChunkBatch(stream: ArchiveStream, chunkSize: nat, batchSize: nat) returns (chunks: seq<Bytes>)
    requires chunkSize > 0
    modifies stream
    ensures (chunks, stream.rest) == ReadBatch(old(stream.rest), chunkSize, batchSize)
  {
    hide ReadBatch;
    chunks := [];
    ghost var all := ReadBatch(stream.rest, chunkSize, batchSize);
    for n := 0 to batchSize
      invariant all.0 == chunks + ReadBatch(stream.rest, chunkSize, batchSize - n).0
      invariant all.1 == ReadBatch(stream.rest, chunkSize, batchSize - n).1
    {
      ghost var before := stream.rest;
      var chunk := stream.Read(chunkSize);
      if chunk == [] {
        NothingRead(before, chunkSize, batchSize - n);
        assert chunks + [] == chunks;
        return;
      }
      assert stream.rest == before[|chunk|..];
      ReadBatchOne(before, chunkSize, batchSize - n, chunk, stream.rest);
      ghost var more := ReadBatch(stream.rest, chunkSize, batchSize - n - 1).0;
      assert chunks + ([chunk] + more) == (chunks + [chunk]) + more;
      chunks := chunks + [chunk];
    }
    NothingRead(stream.rest, chunkSize, 0);
    assert chunks + [] == chunks;
  }

  // ----- Checking the parts -----

  function Insert(part: Part, parts: seq<Part>): seq<Part> {
    if parts == [] || part.number < parts[0].number then [part] + parts
    else [parts[0]] + Insert(part, parts[1..])
  }

  /** The parts sorted by their numbers. */
  function Sorted(parts: seq<Part>): seq<Part> {
    if parts == [] then [] else Insert(parts[|parts| - 1], Sorted(parts[..|parts| - 1]))
  }

  predicate Tagged(parts: seq<Part>) {
    forall i | 0 <= i < |parts| :: parts[i].etag != ""
  }

  predicate InSequence(parts: seq<Part>) {
    forall i | 0 <= i < |parts| :: parts[i].number == i + 1
  }

  ghost predicate Ascending(parts: seq<Part>) {
    forall i, j | 0 <= i < j < |parts| :: parts[i].number < parts[j].number
  }

  ghost predicate Distinct(parts: seq<Part>) {
    forall i, j | 0 <= i < j < |parts| :: parts[i].number != parts[j].number
  }

  /** No number is zero or above the count of parts. */
  ghost predicate NumbersFit(parts: seq<Part>) {
    forall p | p in parts :: 1 <= p.number <= |parts|
  }

  lemma {:induction false} InsertAdds(part: Part, parts: seq<Part>)
    ensures multiset(Insert(part, parts)) == multiset(parts) + multiset{part}
    decreases |parts|
  {
    if parts != [] {
      assert parts == [parts[0]] + parts[1..];
      if !(part.number < parts[0].number) {
        InsertAdds(part, parts[1..]);
      }
    }
  }

  lemma {:induction false} InsertAscends(part: Part, parts: seq<Part>)
    requires Ascending(parts) && forall p | p in parts :: p.number != part.number
    ensures Ascending(Insert(part, parts))
    decreases |parts|
  {
    if parts != [] && !(part.number < parts[0].number) {
      var rest := Insert(part, parts[1..]);
      InsertAscends(part, parts[1..]);
      InsertAdds(part, parts[1..]);
      assert parts[0] in parts;
      hide Insert;
      forall i | 0 <= i < |rest| ensures parts[0].number < rest[i].number {
        assert rest[i] in multiset(rest);
        assert rest[i] == part || rest[i] in parts[1..];
      }
    }
  }

  lemma {:induction false} SortedPermutes(parts: seq<Part>)
    ensures multiset(Sorted(parts)) == multiset(parts)
    decreases |parts|
  {
    hide Insert;
    if parts != [] {
      var last := |parts| - 1;
      SortedPermutes(parts[..last]);
      InsertAdds(parts[last], Sorted(parts[..last]));
      assert parts == parts[..last] + [parts[last]];
    }
  }

  lemma {:induction false} SortedAscends(parts: seq<Part>)
    requires Distinct(parts)
    ensures Ascending(Sorted(parts))
    decreases |parts|
  {
    hide Insert;
    if parts != [] {
      var last := |parts| - 1;
      SortedAscends(parts[..last]);
      SortedPermutes(parts[..last]);
      forall p | p in Sorted(parts[..last]) ensures p.number != parts[last].number {
        assert p in multiset(parts[..last]);
      }
      InsertAscends(parts[last], Sorted(parts[..last]));
    }
  }

  lemma {:induction false} AscendingInRange(parts: seq<Part>, i: nat)
    requires Ascending(parts) && i < |parts|
    requires forall k | 0 <= k < |parts| :: 1 <= parts[k].number
    ensures parts[i].number >= i + 1
    decreases i
  {
    if i > 0 {
      AscendingInRange(parts, i - 1);
    }
  }

  lemma {:induction false} AscendingBelow(parts: seq<Part>, i: nat)
    requires Ascending(parts) && i < |parts|
    requires NumbersFit(parts)
    ensures parts[i].number <= i + 1
    decreases |parts| - i
  {
    if i < |parts| - 1 {
      AscendingBelow(parts, i + 1);
    }
  }

  /** Distinct numbers from 1 to the count of parts are in sequence when sorted. */
  lemma PartsInSequence(parts: seq<Part>)
    requires Distinct(parts) && NumbersFit(parts)
    ensures InSequence(Sorted(parts)) && |Sorted(parts)| == |parts|
  {
    SortedPermutes(parts);
    SortedAscends(parts);
    hide Sorted;
    assert |multiset(Sorted(parts))| == |multiset(parts)|;
    var sorted := Sorted(parts);
    forall p | p in sorted ensures 1 <= p.number <= |sorted| {
      assert p in multiset(parts);
    }
    assert forall k | 0 <= k < |sorted| :: sorted[k] in sorted;
    forall i | 0 <= i < |sorted| ensures sorted[i].number == i + 1 {
      AscendingInRange(sorted, i);
      AscendingBelow(sorted, i);
    }
  }

  lemma SortedTagged(parts: seq<Part>)
    ensures Tagged(Sorted(parts)) <==> Tagged(parts)
  {
    hide Sorted;
    SortedPermutes(parts);
    var sorted := Sorted(parts);
    forall i | 0 <= i < |parts| ensures parts[i] in sorted {
      assert parts[i] in multiset(sorted);
    }
    forall i | 0 <= i < |sorted| ensures sorted[i] in parts {
      assert sorted[i] in multiset(parts);
    }
  }

  method ValidatedSortedParts(uploadParts: seq<Part>) returns (validated: Option<seq<Part>>)
    ensures validated.Some? <==> uploadParts != [] && InSequence(Sorted(uploadParts)) && Tagged(uploadParts)
    ensures validated.Some? ==> validated.value == Sorted(uploadParts)
  {
    if uploadParts == [] {
      return None;
    }
    var sortedParts := Sorted(uploadParts);
    for n := 0 to |sortedParts|
      invariant InSequence(sortedParts[..n]) && Tagged(sortedParts[..n])
    {
      if sortedParts[n].number != n + 1 {
        return None;
      }
      if sortedParts[n].etag == "" {
        SortedTagged(uploadParts);
        return None;
      }
    }
    SortedTagged(uploadParts);
    assert sortedParts[..|sortedParts|] == sortedParts;
    validated := Some(sortedParts);
  }
}

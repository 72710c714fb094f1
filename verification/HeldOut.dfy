/** The raw Deep1B chunk (benchs/bench_datasets.py): the base is a prefix of the chunk, the query set is
    held out from its tail and written to a file the first time it is asked for. */
module HeldOut {
  import opened Common
  import opened VecsFile
  import opened PythonSlices

  /** DEEP_HELDOUT_NQ */
  const HELD_OUT: int := 10_000

  // ---------------------------------------------------------------------------------------------
  // The split
  // ---------------------------------------------------------------------------------------------

  /** `n_available` once the held-out rows are set aside; negative for a chunk shorter than the slice. */
  function Available(total: nat): int {
    total - HELD_OUT
  }

  /** Rows of the chunk that `get_database` reads once `_check_size` lets it. */
  ghost predicate InCrop(total: nat, nb: int, row: nat) {
    row < Bound(total, nb)
  }

  /** Rows of the chunk that `_derive_deep_queries` copies. */
  ghost predicate InHeldOut(total: nat, row: nat) {
    Bound(total, total - HELD_OUT) <= row < total
  }

  /** Whenever the size check passes, the base crop and the query slice have no row in common -- for
      every crop size that is not negative.  A negative size is a slice bound from the end, and it
      leaks queries into the base exactly when it reaches into a full slice. */
  lemma CropAvoidsHeldOut(total: nat, nb: int)
    requires nb <= Available(total)
    ensures (forall row: nat :: !(InCrop(total, nb, row) && InHeldOut(total, row)))
            <==> nb >= 0 || nb <= -HELD_OUT || total < HELD_OUT
  {
    if !(nb >= 0 || nb <= -HELD_OUT || total < HELD_OUT) {
      var row: nat := total - HELD_OUT;
      assert InHeldOut(total, row) && InCrop(total, nb, row);
    }
  }

  // ---------------------------------------------------------------------------------------------
  // The queries
  // ---------------------------------------------------------------------------------------------

  datatype Answer = Rows(rows: seq<seq<Word>>) | Fails

  function HeldOutRows(chunk: Vecs): seq<seq<Word>> {
    From(chunk.rows, |chunk.rows| - HELD_OUT)
  }

  function HeldOutFile(chunk: Vecs): seq<Byte>
    requires chunk.Valid()
  {
    WriteVecs(Vecs(chunk.d, HeldOutRows(chunk)))
  }

  /** The first request: `xq[:nq] if nq else xq`, where 0 is falsy. */
  function FirstQueries(chunk: Vecs, nq: Option<int>): Answer {
    var xq := HeldOutRows(chunk);
    Rows(if nq.Some? && nq.value != 0 then Upto(xq, nq.value) else xq)
  }

  /** Every later request: `read_fvecs(query_path, nq)`, which slices whenever `nq` is given. */
  function LaterQueries(file: seq<Byte>, nq: Option<int>): Answer {
    match ReadVecs(file)
    case Vectors(v) => Rows(if nq.Some? then Upto(v.rows, nq.value) else v.rows)
    case NoHeader => Fails
    case BadDimension(_) => Fails
  }

  lemma FileHoldsHeldOut(chunk: Vecs)
    requires chunk.Valid() && chunk.rows != []
    ensures HeldOutRows(chunk) != []
    ensures ReadVecs(HeldOutFile(chunk)) == Vectors(Vecs(chunk.d, HeldOutRows(chunk)))
  {
    hide WriteVecs, ReadVecs;
    var v := Vecs(chunk.d, HeldOutRows(chunk));
    RoundTrip(v, []);
    assert WriteVecs(v) + [] == WriteVecs(v);
  }

  /** The first answer and every later one agree, except on an explicit request for zero queries: the
      first is then given all of them, a later one none. */
  lemma FirstAndLaterAgree(chunk: Vecs, nq: Option<int>)
    requires chunk.Valid() && chunk.rows != []
    ensures FirstQueries(chunk, nq) == LaterQueries(HeldOutFile(chunk), nq) <==> nq != Some(0)
    ensures FirstQueries(chunk, Some(0)) == Rows(HeldOutRows(chunk))
    ensures LaterQueries(HeldOutFile(chunk), Some(0)) == Rows([])
  {
    hide HeldOutFile, ReadVecs;
    FileHoldsHeldOut(chunk);
  }

  /** A chunk with no row at all has nothing to hold out: the first request answers with no rows and
      leaves an empty file behind, on which every later request fails. */
  lemma EmptyChunkFailsLater(chunk: Vecs, nq: Option<int>)
    requires chunk.Valid() && chunk.rows == []
    ensures FirstQueries(chunk, nq) == Rows([])
    ensures HeldOutFile(chunk) == [] && LaterQueries(HeldOutFile(chunk), nq) == Fails
  {
    assert Records(chunk.d, HeldOutRows(chunk)) == [];
  }

  // ---------------------------------------------------------------------------------------------
  // Runs of requests
  // ---------------------------------------------------------------------------------------------

  function AnswerTo(chunk: Vecs, file: Option<seq<Byte>>, nq: Option<int>): Answer {
    if file.None? then FirstQueries(chunk, nq) else LaterQueries(file.value, nq)
  }

  function FileAfter(chunk: Vecs, file: Option<seq<Byte>>): Option<seq<Byte>>
    requires chunk.Valid()
  {
    if file.None? then Some(HeldOutFile(chunk)) else file
  }

  function Answers(chunk: Vecs, file: Option<seq<Byte>>, requests: seq<Option<int>>): (r: seq<Answer>)
    requires chunk.Valid()
    ensures |r| == |requests|
    decreases |requests|
  {
    if requests == [] then []
    else [AnswerTo(chunk, file, requests[0])] + Answers(chunk, FileAfter(chunk, file), requests[1..])
  }

  /** Any run of requests, none of them for zero queries: whether the query file was there at the start
      or is written on the way, every answer is the asked-for prefix of the same held-out rows. */
  lemma {:induction false} EveryRun(chunk: Vecs, file: Option<seq<Byte>>, requests: seq<Option<int>>, i: nat)
    requires chunk.Valid() && chunk.rows != []
    requires file.None? || file == Some(HeldOutFile(chunk))
    requires Some(0) !in requests && i < |requests|
    ensures Answers(chunk, file, requests)[i] == FirstQueries(chunk, requests[i])
    decreases |requests|
  {
    hide FirstQueries, LaterQueries, HeldOutFile;
    if i == 0 {
      FirstAndLaterAgree(chunk, requests[0]);
    } else {
      EveryRun(chunk, FileAfter(chunk, file), requests[1..], i - 1);
    }
  }

  // ---------------------------------------------------------------------------------------------
  // The dataset object
  // ---------------------------------------------------------------------------------------------

  datatype Base = Crop(rows: seq<seq<Word>>) | NotFound

  /** The raw-chunk flavour of BenchDataset: `queryFile` is the file at the held-out query path. */
  class RawChunk {
    const base: seq<Byte>
    const nb: int
    const available: int
    var queryFile: Option<seq<Byte>>

    ghost predicate Valid()
      reads this
    {
      ReadVecs(base).Vectors? && available == Available(|ReadVecs(base).v.rows|)
    }

    /** What mapping the base file shows. */
    ghost function Chunk(): (chunk: Vecs)
      reads this
      requires Valid()
      ensures chunk.Valid()
    {
      ReadVecs(base).v
    }

    /** Resolution maps the base to count its rows. */
    constructor (base: seq<Byte>, nb: int, queryFile: Option<seq<Byte>>)
      requires ReadVecs(base).Vectors?
      ensures Valid()
      ensures this.base == base && this.nb == nb && this.queryFile == queryFile
    {
      this.base, this.nb, this.queryFile := base, nb, queryFile;
      available := |ReadVecs(base).v.rows| - HELD_OUT;
    }

    /** The crop is refused exactly when the chunk is too short for it.  A crop that is returned is the
        front of the chunk, and shares no row with the held-out tail exactly under the condition of
        `CropAvoidsHeldOut`. */
    method GetDatabase() returns (r: Base)
      requires Valid()
      ensures r.NotFound? <==> |Chunk().rows| < HELD_OUT + nb
      ensures r.Crop? ==>
                && |r.rows| <= |Chunk().rows| && r.rows == Chunk().rows[..|r.rows|]
                && (forall row: nat :: InCrop(|Chunk().rows|, nb, row) <==> row < |r.rows|)
      ensures r.Crop? ==>
                (|r.rows| + |HeldOutRows(Chunk())| <= |Chunk().rows|
                 <==> nb >= 0 || nb <= -HELD_OUT || |Chunk().rows| < HELD_OUT)
    {
      if nb > available {
        return NotFound;
      }
      r := Crop(Upto(ReadVecs(base).v.rows, nb));
    }

    /** `_derive_deep_queries`: the tail of the chunk, which is also what the new query file reads as. */
    method DeriveDeepQueries() returns (xq: seq<seq<Word>>)
      requires Valid()
      modifies this`queryFile
      ensures xq == HeldOutRows(Chunk())
      ensures |xq| <= |Chunk().rows| && xq == Chunk().rows[|Chunk().rows| - |xq|..]
      ensures forall row: nat ::
                InHeldOut(|Chunk().rows|, row) <==> |Chunk().rows| - |xq| <= row < |Chunk().rows|
      ensures queryFile == Some(HeldOutFile(Chunk()))
      ensures xq != [] ==> ReadVecs(queryFile.value) == Vectors(Vecs(Chunk().d, xq))
    {
      var src := ReadVecs(base).v;
      var start := |src.rows| - HELD_OUT;
      xq := From(src.rows, start);
      queryFile := Some(WriteVecs(Vecs(src.d, xq)));
      if xq != [] {
        FileHoldsHeldOut(src);
      }
    }

    method GetQueries(nq: Option<int>) returns (r: Answer)
      requires Valid()
      modifies this`queryFile
      ensures r == AnswerTo(Chunk(), old(queryFile), nq)
      ensures queryFile == FileAfter(Chunk(), old(queryFile))
    {
      if queryFile.None? {
        var xq := DeriveDeepQueries();
        r := Rows(if nq.Some? && nq.value != 0 then Upto(xq, nq.value) else xq);
      } else {
        r := LaterQueries(queryFile.value, nq);
      }
    }
  }
}

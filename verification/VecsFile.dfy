/** The .ivecs / .fvecs readers, the writer of the held-out Deep1B queries, and the split of the raw
    chunk into a base crop and a query slice (benchs/bench_datasets.py).

    A file is the sequence of its bytes.  A record is a little-endian int32 `d` followed by `d` 32-bit
    words; `fvecs_mmap` only views the same words as floats, so a component is its bit pattern. */
module VecsFile {
  import opened Common

  type Word = x: int | -0x8000_0000 <= x < 0x8000_0000

  // ---------------------------------------------------------------------------------------------
  // Words in bytes
  // ---------------------------------------------------------------------------------------------

  function ToBytes(w: Word): (b: seq<Byte>)
    ensures |b| == 4
  {
    var u: int := if w < 0 then w + 0x1_0000_0000 else w;
    [u % 0x100, u / 0x100 % 0x100, u / 0x1_0000 % 0x100, u / 0x100_0000]
  }

  function FromBytes(b: seq<Byte>): Word
    requires |b| == 4
  {
    var u: int := b[0] as int + 0x100 * b[1] as int + 0x1_0000 * b[2] as int + 0x100_0000 * b[3] as int;
    if u < 0x8000_0000 then u else u - 0x1_0000_0000
  }

  lemma WordRoundTrip(w: Word)
    ensures FromBytes(ToBytes(w)) == w
  {
    var u: int := if w < 0 then w + 0x1_0000_0000 else w;
    assert u == u % 0x100 + 0x100 * (u / 0x100);
    assert u / 0x100 == u / 0x100 % 0x100 + 0x100 * (u / 0x1_0000);
    assert u / 0x1_0000 == u / 0x1_0000 % 0x100 + 0x100 * (u / 0x100_0000);
  }

  function Power256(i: nat): (p: nat)
    ensures p > 0
  {
    if i == 0 then 1 else 256 * Power256(i - 1)
  }

  /** Low byte first, in two's complement: byte i of a word, negative or not, is its digit of weight
      256^i. */
  lemma LittleEndian(w: Word, i: nat)
    requires i < 4
    ensures ToBytes(w)[i] == w / Power256(i) % 256
  {
    var u: int := if w < 0 then w + 0x1_0000_0000 else w;
    Weights();
    Offset(w, i);
  }

  lemma Weights()
    ensures Power256(0) == 1 && Power256(1) == 0x100 && Power256(2) == 0x1_0000 && Power256(3) == 0x100_0000
  {
    assert Power256(2) == 256 * Power256(1);
    assert Power256(3) == 256 * Power256(2);
  }

  lemma Offset(w: int, i: nat)
    requires i < 4
    ensures (w + 0x1_0000_0000) / Power256(i) % 256 == w / Power256(i) % 256
  {
    Weights();
    if i == 0 {
      assert (w + 0x1_0000_0000) % 256 == w % 256;
    } else if i == 1 {
      assert (w + 0x1_0000_0000) / 0x100 == w / 0x100 + 0x100_0000;
    } else if i == 2 {
      assert (w + 0x1_0000_0000) / 0x1_0000 == w / 0x1_0000 + 0x1_0000;
    } else {
      assert (w + 0x1_0000_0000) / 0x100_0000 == w / 0x100_0000 + 0x100;
    }
  }

  lemma BytesRoundTrip(b: seq<Byte>)
    requires |b| == 4
    ensures ToBytes(FromBytes(b)) == b
  {
    var u: int := b[0] as int + 0x100 * b[1] as int + 0x1_0000 * b[2] as int + 0x100_0000 * b[3] as int;
    assert u % 0x100 == b[0] && u / 0x100 == b[1] as int + 0x100 * b[2] as int + 0x1_0000 * b[3] as int;
    assert u / 0x100 % 0x100 == b[1] && u / 0x1_0000 == b[2] as int + 0x100 * b[3] as int;
    assert u / 0x1_0000 % 0x100 == b[2] && u / 0x100_0000 == b[3];
  }

  /** Word `i` of a file. */
  function WordAt(file: seq<Byte>, i: nat): Word
    requires 4 * i + 4 <= |file|
  {
    FromBytes(file[4 * i..4 * i + 4])
  }

  function EncodeWords(ws: seq<Word>): (b: seq<Byte>)
    ensures |b| == 4 * |ws|
  {
    if ws == [] then [] else ToBytes(ws[0]) + EncodeWords(ws[1..])
  }

  lemma {:induction false} WordOfEncoded(ws: seq<Word>, tail: seq<Byte>, i: nat)
    requires i < |ws|
    ensures WordAt(EncodeWords(ws) + tail, i) == ws[i]
  {
    var file := EncodeWords(ws) + tail;
    var rest := EncodeWords(ws[1..]) + tail;
    assert file == ToBytes(ws[0]) + rest;
    if i == 0 {
      assert file[0..4] == ToBytes(ws[0]);
      WordRoundTrip(ws[0]);
    } else {
      assert file[4 * i..4 * i + 4] == rest[4 * (i - 1)..4 * (i - 1) + 4];
      WordOfEncoded(ws[1..], tail, i - 1);
    }
  }

  lemma {:induction false} EncodedWords(file: seq<Byte>, ws: seq<Word>)
    requires 4 * |ws| <= |file|
    requires forall i :: 0 <= i < |ws| ==> WordAt(file, i) == ws[i]
    ensures EncodeWords(ws) == file[..4 * |ws|]
  {
    if ws != [] {
      BytesRoundTrip(file[0..4]);
      assert WordAt(file, 0) == ws[0];
      forall i | 0 <= i < |ws[1..]|
        ensures WordAt(file[4..], i) == ws[1..][i]
      {
        assert file[4..][4 * i..4 * i + 4] == file[4 * (i + 1)..4 * (i + 1) + 4];
        assert WordAt(file, i + 1) == ws[i + 1];
      }
      EncodedWords(file[4..], ws[1..]);
      assert file[..4 * |ws|] == file[0..4] + file[4..][..4 * |ws[1..]|];
    }
  }

  // ---------------------------------------------------------------------------------------------
  // Records
  // ---------------------------------------------------------------------------------------------

  datatype Vecs = Vecs(d: nat, rows: seq<seq<Word>>) {
    predicate Valid() {
      0 < d < 0x8000_0000 && forall r :: r in rows ==> |r| == d
    }
  }

  /** `rec.tofile`: each row behind its dimension. */
  function Records(d: Word, rows: seq<seq<Word>>): seq<Word> {
    if rows == [] then [] else [d] + rows[0] + Records(d, rows[1..])
  }

  function WriteVecs(v: Vecs): seq<Byte>
    requires v.Valid()
  {
    EncodeWords(Records(v.d, v.rows))
  }

  /** The word a record starts at. */
  function Start(d: nat, i: nat): nat {
    (d + 1) * i
  }

  lemma StartNext(d: nat, i: nat)
    ensures Start(d, 0) == 0
    ensures Start(d, i + 1) == Start(d, i) + d + 1
  {
  }

  lemma StartMonotone(d: nat, i: nat, j: nat)
    requires i <= j
    ensures Start(d, i) <= Start(d, j)
  {
    assert Start(d, j) - Start(d, i) == (d + 1) * (j - i) >= 0;
  }

  lemma {:induction false} RecordsLength(d: Word, rows: seq<seq<Word>>)
    requires d > 0
    requires forall r :: r in rows ==> |r| == d
    ensures |Records(d, rows)| == Start(d, |rows|)
  {
    hide Start;
    StartNext(d, 0);
    if rows != [] {
      RecordsLength(d, rows[1..]);
      StartNext(d, |rows| - 1);
    }
  }

  lemma Shifted<T>(a: seq<T>, b: seq<T>, i: nat, j: nat)
    requires i <= j <= |b|
    ensures (a + b)[|a| + i..|a| + j] == b[i..j]
  {
  }

  lemma {:induction false} RecordSlice(d: Word, rows: seq<seq<Word>>, i: nat)
    requires d > 0
    requires forall r :: r in rows ==> |r| == d
    requires i < |rows|
    ensures Start(d, i + 1) <= |Records(d, rows)|
    ensures Start(d, i) <= Start(d, i + 1)
    ensures Records(d, rows)[Start(d, i)..Start(d, i + 1)] == [d] + rows[i]
  {
    hide Start;
    StartNext(d, i);
    var first, rest := [d] + rows[0], Records(d, rows[1..]);
    assert Records(d, rows) == first + rest;
    if i == 0 {
      StartNext(d, 0);
    } else {
      RecordSlice(d, rows[1..], i - 1);
      StartNext(d, i - 1);
      Shifted(first, rest, Start(d, i - 1), Start(d, i));
    }
  }

  lemma RecordsAt(d: Word, rows: seq<seq<Word>>, i: nat)
    requires d > 0
    requires forall r :: r in rows ==> |r| == d
    requires i <= |rows|
    ensures |Records(d, rows)| == Start(d, |rows|)
    ensures Start(d, i) <= Start(d, |rows|)
    ensures i < |rows| ==> Start(d, i) + d < Start(d, |rows|)
    ensures i < |rows| ==> Records(d, rows)[Start(d, i)] == d
    ensures i < |rows| ==> Records(d, rows)[Start(d, i) + 1..Start(d, i) + 1 + d] == rows[i]
  {
    hide Start, Records;
    RecordsLength(d, rows);
    StartMonotone(d, i, |rows|);
    if i < |rows| {
      RecordSlice(d, rows, i);
      StartNext(d, i);
      var at, record := Start(d, i), Records(d, rows)[Start(d, i)..Start(d, i + 1)];
      assert record[0] == Records(d, rows)[at];
      assert record[1..] == Records(d, rows)[at + 1..at + 1 + d];
    }
  }

  // ---------------------------------------------------------------------------------------------
  // Reading
  // ---------------------------------------------------------------------------------------------

  /** `NoHeader`: the file is shorter than one word, so indexing the header array fails.
      `BadDimension`: the ValueError for a header that is not positive. */
  datatype Read = Vectors(v: Vecs) | NoHeader | BadDimension(header: Word)

  function Row(file: seq<Byte>, d: nat, i: nat): (row: seq<Word>)
    requires 4 * Start(d, i + 1) <= |file|
    ensures |row| == d
  {
    StartNext(d, i);
    seq<Word>(d, j requires 0 <= j < d => WordAt(file, Start(d, i) + 1 + j))
  }

  function Rows(file: seq<Byte>, d: nat, n: nat): (rows: seq<seq<Word>>)
    requires 4 * Start(d, n) <= |file|
    ensures |rows| == n
    ensures forall r :: r in rows ==> |r| == d
  {
    if n == 0 then [] else
      StartMonotone(d, n - 1, n);
      Rows(file, d, n - 1) + [Row(file, d, n - 1)]
  }

  lemma StartOf(d: nat, n: nat, m: nat)
    requires m == (d + 1) * 4
    ensures 4 * Start(d, n) == m * n
  {
  }

  /** How many whole records fit in `size` bytes. */
  function RecordCount(size: nat, d: nat): (n: nat)
    ensures 4 * Start(d, n) <= size < 4 * Start(d, n) + 4 * (d + 1)
  {
    hide Start, Quotient;
    var record: nat := (d + 1) * 4;
    var n := Quotient(size, record);
    StartOf(d, n, record);
    n
  }

  /** `ivecs_mmap`: only the first header is looked at, and a truncated final record is dropped. */
  function ReadVecs(file: seq<Byte>): Read {
    if |file| < 4 then NoHeader else
      var d := WordAt(file, 0);
      if d <= 0 then BadDimension(d)
      else Vectors(Vecs(d, Rows(file, d, RecordCount(|file|, d))))
  }

  /** Reading fails for want of a header exactly below four bytes, and on the dimension exactly when the
      number in the first four is zero or, its top bit being set, negative. */
  lemma ReadFails(file: seq<Byte>)
    ensures ReadVecs(file).NoHeader? <==> |file| < 4
    ensures ReadVecs(file).BadDimension?
            <==> |file| >= 4 && (file[3] >= 128 || file[..4] == [0, 0, 0, 0])
  {
    hide Rows, RecordCount;
    if |file| >= 4 {
      var b := file[0..4];
      assert b == file[..4] && b[3] == file[3];
    }
  }

  lemma {:induction false} RowsAt(file: seq<Byte>, d: nat, n: nat, i: nat)
    requires 4 * Start(d, n) <= |file|
    requires i < n
    ensures 4 * Start(d, i + 1) <= |file|
    ensures Rows(file, d, n)[i] == Row(file, d, i)
  {
    hide Start, Row;
    StartMonotone(d, n - 1, n);
    StartMonotone(d, i + 1, n);
    if i < n - 1 {
      RowsAt(file, d, n - 1, i);
    }
  }

  lemma RowOfWritten(v: Vecs, tail: seq<Byte>, i: nat)
    requires v.Valid() && i < |v.rows|
    ensures 4 * Start(v.d, i + 1) <= |WriteVecs(v) + tail|
    ensures Row(WriteVecs(v) + tail, v.d, i) == v.rows[i]
  {
    hide Start, EncodeWords, WordAt, Records;
    var d, ws := v.d, Records(v.d, v.rows);
    var file := WriteVecs(v) + tail;
    RecordsAt(d, v.rows, i);
    StartNext(d, i);
    var at := Start(d, i);
    forall j | 0 <= j < d
      ensures WordAt(file, at + 1 + j) == v.rows[i][j]
    {
      WordOfEncoded(ws, tail, at + 1 + j);
      assert ws[at + 1..at + 1 + d][j] == ws[at + 1 + j];
    }
    assert Row(file, d, i) == v.rows[i];
  }

  lemma CountOfWritten(d: nat, n: nat, tail: nat)
    ensures RecordCount(4 * Start(d, n) + tail, d) >= n
    ensures RecordCount(4 * Start(d, n) + tail, d) == n <==> tail < 4 * (d + 1)
  {
    var size := 4 * Start(d, n) + tail;
    var m := RecordCount(size, d);
    hide RecordCount, Start;
    StartNext(d, m);
    StartNext(d, n);
    if m < n { StartMonotone(d, m + 1, n); }
    if m > n { StartMonotone(d, n + 1, m); }
  }

  /** Reading what was written returns the same vectors, and goes on doing so with bytes appended
      exactly as long as they do not make up another whole record. */
  lemma RoundTrip(v: Vecs, tail: seq<Byte>)
    requires v.Valid() && v.rows != []
    ensures ReadVecs(WriteVecs(v) + tail) == Vectors(v) <==> |tail| < 4 * (v.d + 1)
  {
    hide Start, EncodeWords, WordAt, Records, Row, Rows, RecordCount;
    var file := WriteVecs(v) + tail;
    var d, n := v.d, |v.rows|;
    var ws := Records(d, v.rows);
    RecordsAt(d, v.rows, 0);
    StartNext(d, 0);
    StartMonotone(d, 1, n);
    assert |file| == 4 * Start(d, n) + |tail|;
    WordOfEncoded(ws, tail, 0);
    assert WordAt(file, 0) == d;
    CountOfWritten(d, n, |tail|);
    var m := RecordCount(|file|, d);
    assert ReadVecs(file) == Vectors(Vecs(d, Rows(file, d, m)));
    if m == n {
      forall i | 0 <= i < n
        ensures Rows(file, d, n)[i] == v.rows[i]
      {
        RowsAt(file, d, n, i);
        RowOfWritten(v, tail, i);
      }
      assert Rows(file, d, n) == v.rows;
    }
  }

  /** The readers look at the first header only.  Writing back what was read restores the whole
      records of the file exactly when every one of them carries that same header. */
  lemma WriteReadBack(file: seq<Byte>)
    requires ReadVecs(file).Vectors?
    ensures var v := ReadVecs(file).v;
      && v.Valid() && |v.rows| == RecordCount(|file|, v.d)
      && (WriteVecs(v) == file[..4 * Start(v.d, |v.rows|)]
          <==> forall i {:trigger Start(v.d, i)} ::
                 0 <= i < |v.rows| ==> Start(v.d, i) < Start(v.d, |v.rows|) && WordAt(file, Start(v.d, i)) == v.d)
  {
    hide Start, EncodeWords, WordAt, Records, Row, Rows, RecordCount;
    var v := ReadVecs(file).v;
    var d, n := v.d, |v.rows|;
    var ws := Records(d, v.rows);
    RecordsAt(d, v.rows, 0);
    if WriteVecs(v) == file[..4 * Start(d, n)] {
      forall i | 0 <= i < n
        ensures Start(d, i) < Start(d, n) && WordAt(file, Start(d, i)) == d
      {
        RecordsAt(d, v.rows, i);
        WordOfEncoded(ws, file[4 * Start(d, n)..], Start(d, i));
        assert EncodeWords(ws) + file[4 * Start(d, n)..] == file;
      }
    } else if forall i {:trigger Start(d, i)} ::
                0 <= i < n ==> Start(d, i) < Start(d, n) && WordAt(file, Start(d, i)) == d {
      HeadersGiveWords(file, v);
      EncodedWords(file, ws);
      assert false;
    }
  }

  lemma RecordWord(d: Word, rows: seq<seq<Word>>, i: nat, j: nat)
    requires d > 0
    requires forall r :: r in rows ==> |r| == d
    requires i < |rows| && j <= d
    ensures |rows[i]| == d
    ensures Start(d, i) + j < |Records(d, rows)|
    ensures Records(d, rows)[Start(d, i) + j] == if j == 0 then d else rows[i][j - 1]
  {
    hide Start, Records;
    assert rows[i] in rows;
    RecordsAt(d, rows, i);
    if j > 0 {
      var at := Start(d, i) + 1;
      assert Records(d, rows)[at..at + d][j - 1] == Records(d, rows)[at + (j - 1)];
    }
  }

  lemma HeadersGiveWords(file: seq<Byte>, v: Vecs)
    requires v.Valid() && 4 * Start(v.d, |v.rows|) <= |file|
    requires v.rows == Rows(file, v.d, |v.rows|)
    requires forall i {:trigger Start(v.d, i)} ::
      0 <= i < |v.rows| ==> Start(v.d, i) < Start(v.d, |v.rows|) && WordAt(file, Start(v.d, i)) == v.d
    ensures |Records(v.d, v.rows)| == Start(v.d, |v.rows|)
    ensures forall k :: 0 <= k < Start(v.d, |v.rows|) ==> WordAt(file, k) == Records(v.d, v.rows)[k]
  {
    hide Start, EncodeWords, WordAt, Records, Rows;
    var d, n := v.d, |v.rows|;
    RecordsAt(d, v.rows, 0);
    forall k | 0 <= k < Start(d, n)
      ensures WordAt(file, k) == Records(d, v.rows)[k]
    {
      var i, j := Locate(d, n, k);
      RecordWord(d, v.rows, i, j);
      RowsAt(file, d, n, i);
      if j > 0 {
        assert Row(file, d, i)[j - 1] == WordAt(file, Start(d, i) + 1 + (j - 1));
      }
    }
  }

  lemma {:induction false} Locate(d: nat, n: nat, k: nat) returns (i: nat, j: nat)
    requires k < Start(d, n)
    ensures i < n && j <= d && k == Start(d, i) + j
    decreases n
  {
    hide Start;
    StartNext(d, 0);
    StartNext(d, n - 1);
    if k < Start(d, n - 1) {
      i, j := Locate(d, n - 1, k);
    } else {
      i, j := n - 1, k - Start(d, n - 1);
    }
  }
}

/** The word-wise Hamming computers of benchs/bench_hamming_computer.cpp and the default one of
    faiss/utils/hamming_distance/generic-inl.h against the plain count of differing bits.

    Memory is an array of bytes; a machine word is the little-endian number of its bytes. */
module Hamming {
  import opened Common

  // ---------------------------------------------------------------------------------------------
  // The plain count
  // ---------------------------------------------------------------------------------------------

  /** Bit `j` of a number. */
  function BitAt(x: nat, j: nat): nat {
    if j == 0 then x % 2 else BitAt(x / 2, j - 1)
  }

  /** Positions (byte, bit) at which two codes differ. */
  ghost function Differing(a: seq<Byte>, b: seq<Byte>): set<(nat, nat)>
    requires |a| == |b|
  {
    set i: nat, j: nat | i < |a| && j < 8 && BitAt(a[i], j) != BitAt(b[i], j) :: (i, j)
  }

  // ---------------------------------------------------------------------------------------------
  // Words
  // ---------------------------------------------------------------------------------------------

  function Word(b: seq<Byte>): nat {
    if b == [] then 0 else b[0] as int + 256 * Word(b[1..])
  }

  /** Bitwise exclusive or. */
  function Xor(x: nat, y: nat): nat {
    if x == 0 && y == 0 then 0 else (x % 2 + y % 2) % 2 + 2 * Xor(x / 2, y / 2)
  }

  /** `popcount64`; on a byte, the lookup table `hamdis_tab_ham_bytes`. */
  function Popcount(x: nat): nat {
    if x == 0 then 0 else x % 2 + Popcount(x / 2)
  }

  function Distance(x: nat, y: nat): nat {
    Popcount(Xor(x, y))
  }

  lemma DistanceHalves(x: nat, y: nat)
    ensures Distance(x, y) == (if x % 2 != y % 2 then 1 else 0) + Distance(x / 2, y / 2)
  {
    var bit, rest := (x % 2 + y % 2) % 2, Xor(x / 2, y / 2);
    if x != 0 || y != 0 {
      assert Xor(x, y) == bit + 2 * rest;
      assert (bit + 2 * rest) % 2 == bit && (bit + 2 * rest) / 2 == rest;
    }
  }

  /** Differing bits among the lowest `k`. */
  function DiffBits(x: nat, y: nat, k: nat): nat {
    if k == 0 then 0 else (if x % 2 != y % 2 then 1 else 0) + DiffBits(x / 2, y / 2, k - 1)
  }

  /** hi shifted left by k bits */
  function Shifted(hi: nat, k: nat): nat {
    if k == 0 then hi else 2 * Shifted(hi, k - 1)
  }

  lemma {:induction false} DistanceSplits(lo: nat, hi: nat, lo': nat, hi': nat, k: nat)
    requires lo < Shifted(1, k) && lo' < Shifted(1, k)
    ensures Distance(lo + Shifted(hi, k), lo' + Shifted(hi', k)) == DiffBits(lo, lo', k) + Distance(hi, hi')
  {
    hide Distance;
    if k > 0 {
      var x, y := lo + Shifted(hi, k), lo' + Shifted(hi', k);
      assert x % 2 == lo % 2 && x / 2 == lo / 2 + Shifted(hi, k - 1);
      assert y % 2 == lo' % 2 && y / 2 == lo' / 2 + Shifted(hi', k - 1);
      DistanceHalves(x, y);
      DistanceSplits(lo / 2, hi, lo' / 2, hi', k - 1);
    }
  }

  lemma ShiftNext(hi: nat, k: nat)
    ensures Shifted(hi, 0) == hi
    ensures Shifted(hi, k + 1) == 2 * Shifted(hi, k)
  {
  }

  lemma ByteShift(hi: nat)
    ensures Shifted(hi, 8) == 256 * hi
  {
    ShiftNext(hi, 0);
    ShiftNext(hi, 1);
    ShiftNext(hi, 2);
    ShiftNext(hi, 3);
    ShiftNext(hi, 4);
    ShiftNext(hi, 5);
    ShiftNext(hi, 6);
    ShiftNext(hi, 7);
  }

  /** Differing bits of two codes, byte by byte. */
  function BitDistance(a: seq<Byte>, b: seq<Byte>): nat
    requires |a| == |b|
  {
    if a == [] then 0 else DiffBits(a[0], b[0], 8) + BitDistance(a[1..], b[1..])
  }

  /** One exclusive or and one population count compare all bytes of a word at once. */
  lemma {:induction false} WordCompares(a: seq<Byte>, b: seq<Byte>)
    requires |a| == |b|
    ensures Distance(Word(a), Word(b)) == BitDistance(a, b)
  {
    hide Distance, DiffBits, Shifted;
    if a == [] {
      ZeroDistance();
    } else {
      var x, y := Word(a[1..]), Word(b[1..]);
      ByteShift(1);
      ByteShift(x);
      ByteShift(y);
      DistanceSplits(a[0], x, b[0], y, 8);
      WordCompares(a[1..], b[1..]);
    }
  }

  lemma ZeroDistance()
    ensures Distance(0, 0) == 0
  {
  }

  lemma {:induction false} BitDistanceAppend(a: seq<Byte>, b: seq<Byte>, c: seq<Byte>, d: seq<Byte>)
    requires |a| == |b| && |c| == |d|
    ensures BitDistance(a + c, b + d) == BitDistance(a, b) + BitDistance(c, d)
  {
    hide DiffBits;
    if a == [] {
      assert a + c == c && b + d == d;
    } else {
      BitDistanceAppend(a[1..], b[1..], c, d);
      assert (a + c)[1..] == a[1..] + c && (b + d)[1..] == b[1..] + d;
    }
  }

  lemma {:induction false} DiffBitsSnoc(x: nat, y: nat, k: nat)
    ensures DiffBits(x, y, k + 1) == DiffBits(x, y, k) + if BitAt(x, k) != BitAt(y, k) then 1 else 0
  {
    if k > 0 {
      DiffBitsSnoc(x / 2, y / 2, k - 1);
    }
  }

  /** Positions (i, bit) at which two bytes differ in their lowest `k` bits. */
  ghost function DifferingBits(x: nat, y: nat, k: nat, i: nat): set<(nat, nat)> {
    set j: nat | j < k && BitAt(x, j) != BitAt(y, j) :: (i, j)
  }

  lemma {:induction false} DiffBitsCount(x: nat, y: nat, k: nat, i: nat)
    ensures |DifferingBits(x, y, k, i)| == DiffBits(x, y, k)
  {
    hide BitAt;
    var all := DifferingBits(x, y, k, i);
    if k == 0 {
      assert all == {};
    } else {
      DiffBitsSnoc(x, y, k - 1);
      DiffBitsCount(x, y, k - 1, i);
      var before := DifferingBits(x, y, k - 1, i);
      if BitAt(x, k - 1) != BitAt(y, k - 1) {
        assert (i, k - 1) !in before;
        assert all == before + {(i, k - 1)};
      } else {
        assert all == before;
      }
    }
  }

  /** The byte-by-byte sum is the number of positions at which the codes differ. */
  lemma {:induction false} BitDistanceCounts(a: seq<Byte>, b: seq<Byte>)
    requires |a| == |b|
    ensures BitDistance(a, b) == |Differing(a, b)|
  {
    hide BitAt, DiffBits, BitDistance;
    if a == [] {
      NoCodes(a, b);
    } else {
      var n := |a| - 1;
      BitDistanceCounts(a[..n], b[..n]);
      BitDistanceAppend(a[..n], b[..n], [a[n]], [b[n]]);
      OneByte(a[n], b[n]);
      assert a == a[..n] + [a[n]] && b == b[..n] + [b[n]];
      DiffBitsCount(a[n], b[n], 8, n);
      DifferingSplits(a, b);
    }
  }

  lemma NoCodes(a: seq<Byte>, b: seq<Byte>)
    requires a == b == []
    ensures BitDistance(a, b) == |Differing(a, b)|
  {
    assert Differing(a, b) == {};
  }

  lemma OneByte(x: Byte, y: Byte)
    ensures BitDistance([x], [y]) == DiffBits(x, y, 8)
  {
    assert [x][1..] == [] && [y][1..] == [];
    assert BitDistance([], []) == 0;
  }

  lemma DifferingSplits(a: seq<Byte>, b: seq<Byte>)
    requires |a| == |b| > 0
    ensures var n := |a| - 1;
            |Differing(a, b)| == |Differing(a[..n], b[..n])| + |DifferingBits(a[n], b[n], 8, n)|
  {
    hide BitAt;
    var n := |a| - 1;
    var last := DifferingBits(a[n], b[n], 8, n);
    var before := Differing(a[..n], b[..n]);
    assert before * last == {};
    assert Differing(a, b) == before + last;
  }

  // ---------------------------------------------------------------------------------------------
  // Word by word
  // ---------------------------------------------------------------------------------------------

  /** The `count` bytes of memory at an address. */
  function Bytes(mem: array<Byte>, at: nat, count: nat): (r: seq<Byte>)
    reads mem
    requires at + count <= mem.Length
    ensures |r| == count
  {
    mem[at..at + count]
  }

  lemma OneMore(mem: array<Byte>, at: nat, count: nat, more: nat)
    requires at + count + more <= mem.Length
    ensures Bytes(mem, at, count + more) == Bytes(mem, at, count) + Bytes(mem, at + count, more)
  {
  }

  /** Adds the distance of `words` words from position `done` on to a running count. */
  method AddWords(a: array<Byte>, b: array<Byte>, at: nat, width: nat, done: nat, words: nat, accu: nat)
    returns (r: nat, doneNow: nat)
    requires done + width * words <= a.Length && at + done + width * words <= b.Length
    requires accu == BitDistance(Bytes(a, 0, done), Bytes(b, at, done))
    ensures doneNow == done + width * words
    ensures doneNow <= a.Length && at + doneNow <= b.Length
    ensures r == BitDistance(Bytes(a, 0, doneNow), Bytes(b, at, doneNow))
  {
    hide BitDistance, Word, Bytes;
    r, doneNow := accu, done;
    for i := 0 to words
      invariant doneNow == done + width * i
      invariant doneNow <= a.Length && at + doneNow <= b.Length
      invariant r == BitDistance(Bytes(a, 0, doneNow), Bytes(b, at, doneNow))
    {
      WordsLeft(width, i, words);
      var x, y := Bytes(a, doneNow, width), Bytes(b, at + doneNow, width);
      OneMore(a, 0, doneNow, width);
      OneMore(b, at, doneNow, width);
      BitDistanceAppend(Bytes(a, 0, doneNow), Bytes(b, at, doneNow), x, y);
      WordCompares(x, y);
      r := r + Popcount(Xor(Word(x), Word(y)));
      doneNow := doneNow + width;
    }
  }

  lemma WordsLeft(width: nat, i: nat, words: nat)
    requires i < words
    ensures width * (i + 1) == width * i + width <= width * words
  {
    var rest: nat := words - i - 1;
    assert width * rest >= 0;
    assert width * words == width * (i + 1) + width * rest by {
      assert words == (i + 1) + rest;
    }
  }

  lemma NoBytes(a: array<Byte>, b: array<Byte>, at: nat)
    requires at <= b.Length
    ensures BitDistance(Bytes(a, 0, 0), Bytes(b, at, 0)) == 0
  {
  }

  /** HammingComputerM8 (8-byte words) and HammingComputerM4 (4-byte words): the fields are the address
      of the first code and the number of words in a code. */
  class HammingComputerM {
    const width: nat
    var a: array<Byte>
    var n: nat

    ghost predicate Valid()
      reads this
    {
      width > 0 && width * n <= a.Length
    }

    constructor (width: nat, a8: array<Byte>, codeSize: nat)
      requires width > 0 && codeSize % width == 0 && codeSize <= a8.Length
      ensures Valid() && this.width == width && a == a8 && CodeSize() == codeSize
    {
      this.width := width;
      a, n := a8, codeSize / width;
    }

    method Set(a8: array<Byte>, codeSize: nat)
      requires width > 0 && codeSize % width == 0 && codeSize <= a8.Length
      modifies this
      ensures Valid() && a == a8 && CodeSize() == codeSize
    {
      a := a8;
      n := codeSize / width;
    }

    function CodeSize(): nat
      reads this
    {
      width * n
    }

    method Hamming(b: array<Byte>, at: nat) returns (accu: nat)
      requires Valid() && at + CodeSize() <= b.Length
      ensures accu == BitDistance(Bytes(a, 0, CodeSize()), Bytes(b, at, CodeSize()))
    {
      hide BitDistance, Bytes;
      NoBytes(a, b, at);
      var done;
      accu, done := AddWords(a, b, at, width, 0, n, 0);
    }
  }

  /** HammingComputerDefault: 8-byte words in an unrolled loop entered part-way, then the left-over bytes. */
  class HammingComputerDefault {
    var a8: array<Byte>
    var quotient8: nat
    var remainder8: nat

    ghost predicate Valid()
      reads this
    {
      remainder8 < 8 && CodeSize() <= a8.Length
    }

    constructor (a8: array<Byte>, codeSize: nat)
      requires codeSize <= a8.Length
      ensures Valid() && this.a8 == a8 && CodeSize() == codeSize
    {
      this.a8 := a8;
      quotient8, remainder8 := codeSize / 8, codeSize % 8;
    }

    function CodeSize(): nat
      reads this
    {
      8 * quotient8 + remainder8
    }

    method Hamming(b: array<Byte>, at: nat) returns (accu: nat)
      requires Valid() && at + CodeSize() <= b.Length
      ensures accu == BitDistance(Bytes(a8, 0, CodeSize()), Bytes(b, at, CodeSize()))
    {
      hide BitDistance, Bytes;
      NoBytes(a8, b, at);
      var done: nat;
      var len := quotient8;
      ghost var turns: nat := quotient8 / 8;
      accu, done := AddWords(a8, b, at, 8, 0, len % 8, 0);
      while len > 7
        invariant len == 8 * turns + quotient8 % 8
        invariant done == 8 * (quotient8 - 8 * turns)
        invariant done <= a8.Length && at + done <= b.Length
        invariant accu == BitDistance(Bytes(a8, 0, done), Bytes(b, at, done))
      {
        len := len - 8;
        turns := turns - 1;
        accu, done := AddWords(a8, b, at, 8, done, 8, accu);
      }
      accu, done := AddWords(a8, b, at, 1, done, remainder8, accu);
    }
  }

  /** The default computer, and the two word sizes, return one and the same number: how many bits differ. */
  method AllComputersAgree(a: array<Byte>, b: array<Byte>, at: nat, codeSize: nat)
    returns (m8: nat, m4: nat, default8: nat)
    requires codeSize % 8 == 0 && codeSize <= a.Length && at + codeSize <= b.Length
    ensures m8 == m4 == default8 == |Differing(Bytes(a, 0, codeSize), Bytes(b, at, codeSize))|
  {
    hide BitDistance, Bytes, Differing;
    var c8 := new HammingComputerM(8, a, codeSize);
    var c4 := new HammingComputerM(4, a, codeSize);
    var c := new HammingComputerDefault(a, codeSize);
    BitDistanceCounts(Bytes(a, 0, codeSize), Bytes(b, at, codeSize));
    m8 := c8.Hamming(b, at);
    m4 := c4.Hamming(b, at);
    default8 := c.Hamming(b, at);
  }

  /** `hamming_cpt_test`: one computer, n consecutive codes, one result each. */
  method HammingCptTest(width: nat, codeSize: nat, data1: array<Byte>, data2: array<Byte>, n: nat, rst: array<int>)
    requires width > 0 && codeSize % width == 0 && codeSize <= data1.Length
    requires codeSize * n <= data2.Length && n <= rst.Length
    modifies rst
    ensures forall i :: 0 <= i < n ==>
              codeSize * i + codeSize <= data2.Length
              && rst[i] == |Differing(Bytes(data1, 0, codeSize), Bytes(data2, codeSize * i, codeSize))|
    ensures forall i :: n <= i < rst.Length ==> rst[i] == old(rst[i])
  {
    hide BitDistance, Bytes, Differing;
    var computer := new HammingComputerM(width, data1, codeSize);
    var at := 0;
    for i := 0 to n
      invariant at == codeSize * i
      invariant computer.Valid() && computer.a == data1 && computer.CodeSize() == codeSize && fresh(computer)
      invariant forall j :: 0 <= j < i ==>
                  codeSize * j + codeSize <= data2.Length
                  && rst[j] == |Differing(Bytes(data1, 0, codeSize), Bytes(data2, codeSize * j, codeSize))|
      invariant forall j :: i <= j < rst.Length ==> rst[j] == old(rst[j])
    {
      WordsLeft(codeSize, i, n);
      BitDistanceCounts(Bytes(data1, 0, codeSize), Bytes(data2, at, codeSize));
      rst[i] := computer.Hamming(data2, at);
      at := at + codeSize;
    }
  }
}

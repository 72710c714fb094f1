/** dataset_iterator and the three-stage pipeline of compute_populated_index_2 (bench_gpu_1bn.py). */
module PopulateIndex {
  import opened Common
  import opened Pipeline

  /** block_ranges, from base row i0 on. */
  function BlockRanges(nb: nat, bs: nat, i0: nat): (r: seq<(nat, nat)>)
    requires bs > 0
    decreases nb - i0
  {
    if i0 >= nb then [] else [(i0, Min(nb, i0 + bs))] + BlockRanges(nb, bs, i0 + bs)
  }

  datatype Block<V> = Block(i0: nat, xs: seq<V>)
  datatype Assigned<V> = Assigned(i0: nat, xs: seq<V>, assign: seq<nat>)

  /** Stage 1, prepare_block. */
  function PrepareBlock<V>(x: seq<V>, preproc: V -> V, r: (nat, nat)): Block<V> {
    Block(r.0, if r.0 <= r.1 <= |x| then Map(preproc, x[r.0..r.1]) else [])
  }

  /** Stage 2, quantize. */
  function Quantize<V>(coarse: V -> nat, b: Block<V>): Assigned<V> {
    Assigned(b.i0, b.xs, Map(coarse, b.xs))
  }

  /** Stage 3: the vectors and inverted lists the index receives, in the order it receives them. */
  function AddAll<V>(blocks: seq<Assigned<V>>): seq<(V, nat)> {
    if blocks == [] then []
    else
      var b := blocks[|blocks| - 1];
      AddAll(blocks[..|blocks| - 1])
      + seq(Min(|b.xs|, |b.assign|), i requires 0 <= i < Min(|b.xs|, |b.assign|) => (b.xs[i], b.assign[i]))
  }

  /** What row r of the base should become. */
  function Entry<V>(x: seq<V>, preproc: V -> V, coarse: V -> nat, r: nat): (V, nat)
    requires r < |x|
  {
    (preproc(x[r]), coarse(preproc(x[r])))
  }

  /** Consecutive blocks: each starts where the one before ended, none is empty or longer than bs,
      all but the last have exactly bs rows, and together they span i0..nb. */
  lemma {:induction false} BlocksTile(nb: nat, bs: nat, i0: nat)
    requires bs > 0
    ensures var r := BlockRanges(nb, bs, i0);
            && (r == [] <==> i0 >= nb)
            && (r != [] ==> r[0].0 == i0 && r[|r| - 1].1 == nb)
            && (forall j :: 0 <= j < |r| ==> r[j].0 < r[j].1 <= r[j].0 + bs && r[j].1 <= nb)
            && (forall j :: 0 < j < |r| ==> r[j].0 == r[j - 1].1)
            && (forall j :: 0 <= j < |r| - 1 ==> r[j].1 == r[j].0 + bs)
    decreases nb - i0
  {
    if i0 < nb {
      BlocksTile(nb, bs, i0 + bs);
      var r, rest := BlockRanges(nb, bs, i0), BlockRanges(nb, bs, i0 + bs);
      assert forall j :: 0 < j < |r| ==> r[j] == rest[j - 1];
    }
  }

  /** Everything the two stages deliver. */
  ghost function Delivered<V>(x: seq<V>, bs: nat, preproc: V -> V, coarse: V -> nat): (d: seq<Assigned<V>>)
    requires bs > 0
  {
    var l := BlockRanges(|x|, bs, 0);
    seq(|l|, j requires 0 <= j < |l| => Quantize(coarse, PrepareBlock(x, preproc, l[j])))
  }

  ghost predicate Carries<V>(got: seq<(V, nat)>, x: seq<V>, preproc: V -> V, coarse: V -> nat) {
    |got| <= |x| && forall r :: 0 <= r < |got| ==> got[r] == Entry(x, preproc, coarse, r)
  }

  lemma OneMoreBlock<V>(x: seq<V>, preproc: V -> V, coarse: V -> nat, blocks: seq<Assigned<V>>, lo: nat, hi: nat)
    requires Carries(AddAll(blocks), x, preproc, coarse) && |AddAll(blocks)| == lo <= hi <= |x|
    ensures var more := blocks + [Quantize(coarse, PrepareBlock(x, preproc, (lo, hi)))];
            Carries(AddAll(more), x, preproc, coarse) && |AddAll(more)| == hi
  {
    var b := Quantize(coarse, PrepareBlock(x, preproc, (lo, hi)));
    assert (blocks + [b])[..|blocks|] == blocks;
  }

  /** The first m blocks carry exactly the base rows before the m-th block boundary. */
  lemma {:induction false} BlocksCarryRows<V>(x: seq<V>, bs: nat, preproc: V -> V, coarse: V -> nat, m: nat)
    requires bs > 0 && m <= |BlockRanges(|x|, bs, 0)|
    ensures var ranges, got := BlockRanges(|x|, bs, 0), AddAll(Delivered(x, bs, preproc, coarse)[..m]);
            |got| == (if m == 0 then 0 else ranges[m - 1].1) && Carries(got, x, preproc, coarse)
  {
    hide BlockRanges, Carries, Quantize, PrepareBlock;
    var ranges, all := BlockRanges(|x|, bs, 0), Delivered(x, bs, preproc, coarse);
    BlocksTile(|x|, bs, 0);
    if m == 0 {
      NoBlock(x, preproc, coarse);
    } else {
      BlocksCarryRows(x, bs, preproc, coarse, m - 1);
      assert all[..m] == all[..m - 1] + [all[m - 1]];
      assert ranges[m - 1] == (ranges[m - 1].0, ranges[m - 1].1);
      OneMoreBlock(x, preproc, coarse, all[..m - 1], ranges[m - 1].0, ranges[m - 1].1);
    }
  }

  lemma NoBlock<V>(x: seq<V>, preproc: V -> V, coarse: V -> nat)
    ensures Carries(AddAll<V>([]), x, preproc, coarse) && |AddAll<V>([])| == 0
  {
  }

  /** Every block says which base row it starts at. */
  lemma BlockStarts<V>(x: seq<V>, bs: nat, preproc: V -> V, coarse: V -> nat, j: nat)
    requires bs > 0 && j < |BlockRanges(|x|, bs, 0)|
    ensures Delivered(x, bs, preproc, coarse)[j].i0 == |AddAll(Delivered(x, bs, preproc, coarse)[..j])|
  {
    hide BlockRanges, Carries, AddAll;
    BlocksCarryRows(x, bs, preproc, coarse, j);
    BlocksTile(|x|, bs, 0);
  }

  lemma StartsOfPrefix<V>(x: seq<V>, bs: nat, preproc: V -> V, coarse: V -> nat, out: seq<Assigned<V>>)
    requires bs > 0 && |out| <= |Delivered(x, bs, preproc, coarse)| && out == Delivered(x, bs, preproc, coarse)[..|out|]
    ensures forall j :: 0 <= j < |out| ==> out[j].i0 == |AddAll(out[..j])|
  {
    hide Delivered, AddAll, BlockRanges;
    DeliveredCount(x, bs, preproc, coarse);
    forall j | 0 <= j < |out| ensures out[j].i0 == |AddAll(out[..j])| {
      BlockStarts(x, bs, preproc, coarse, j);
      assert Delivered(x, bs, preproc, coarse)[..j] == out[..j];
    }
  }

  lemma DeliveredCount<V>(x: seq<V>, bs: nat, preproc: V -> V, coarse: V -> nat)
    requires bs > 0
    ensures |Delivered(x, bs, preproc, coarse)| == |BlockRanges(|x|, bs, 0)|
  {
  }

  /** Whatever the interleaving, the index has at any time received a prefix of the base, row by row in
      base order, preprocessed and with its own inverted list; a finished pipeline all of it. */
  lemma PopulatedIndexCorrect<V>(x: seq<V>, bs: nat, preproc: V -> V, coarse: V -> nat, sched: seq<Step2>)
    requires bs > 0 && x != []
    requires Legal2(r => PrepareBlock(x, preproc, r), b => Quantize(coarse, b), BlockRanges(|x|, bs, 0), sched)
    ensures var f, g, l := r => PrepareBlock(x, preproc, r), b => Quantize(coarse, b), BlockRanges(|x|, bs, 0);
            var s := Exec2(f, g, l, sched);
            && Carries(AddAll(s.second.out), x, preproc, coarse)
            && (forall j :: 0 <= j < |s.second.out| ==> s.second.out[j].i0 == |AddAll(s.second.out[..j])|)
            && ((forall a :: !Enabled2(l, s, a)) ==> |AddAll(s.second.out)| == |x|)
  {
    hide Carries, Quantize, PrepareBlock, Enabled2, AddAll;
    var f, g, l := r => PrepareBlock(x, preproc, r), b => Quantize(coarse, b), BlockRanges(|x|, bs, 0);
    StackedImapCorrect(f, g, l, sched);
    var s := Exec2(f, g, l, sched);
    BlocksTile(|x|, bs, 0);
    assert Map(g, Map(f, l)) == Delivered(x, bs, preproc, coarse);
    BlocksCarryRows(x, bs, preproc, coarse, |s.second.out|);
    StartsOfPrefix(x, bs, preproc, coarse, s.second.out);
  }
}

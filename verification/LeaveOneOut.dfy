/** Leave-one-dataset-out evaluation of the selection rules (analyze_selector.py). */
module LeaveOneOut {
  import opened Common
  import opened Selector

  type Data = map<string, Rec>
  type Cell = (nat, real)
  type VolumeCell = (nat, real, real)

  // ---------- one N* per dataset and cell ----------

  datatype NRow = NRow(dataset: string, k: nat, tau: real, graph: string, nstar: real)

  function CellRow(name: string, rec: Rec, c: Cell): seq<NRow> {
    var g := BestGraph(rec, GRAPHS, c.0, c.1);
    if g.None? then []
    else
      var ns := Crossover(rec, c.0, c.1, g.value);
      if ns.None? || ns.value <= 0.0 then [] else [NRow(name, c.0, c.1, g.value, ns.value)]
  }

  function DatasetRows(name: string, rec: Rec, cells: seq<Cell>): seq<NRow> {
    if cells == [] then []
    else DatasetRows(name, rec, cells[..|cells| - 1]) + CellRow(name, rec, cells[|cells| - 1])
  }

  function NstarRows(data: Data, names: seq<string>, cells: seq<Cell>): seq<NRow>
    requires forall n :: n in names ==> n in data
  {
    if names == [] then []
    else
      var n := names[|names| - 1];
      NstarRows(data, names[..|names| - 1], cells) + DatasetRows(n, data[n], cells)
  }

  /** What a row says: at its cell the right choice between SuCo and a fastest graph switches at nstar. */
  ghost predicate SwitchesHere(rec: Rec, r: NRow) {
    && r.nstar > 0.0
    && (exists i :: 0 <= i < |GRAPHS| && FirstFastest(rec, GRAPHS, r.k, r.tau, i) && r.graph == GRAPHS[i])
    && CostLine(rec, PARTITION, r.k, r.tau).Some? && CostLine(rec, r.graph, r.k, r.tau).Some?
    && SwitchesAt(CostLine(rec, PARTITION, r.k, r.tau).value, CostLine(rec, r.graph, r.k, r.tau).value, r.nstar)
  }

  lemma CellRowIs(name: string, rec: Rec, c: Cell, r: NRow)
    ensures r in CellRow(name, rec, c) <==> r.dataset == name && (r.k, r.tau) == c && SwitchesHere(rec, r)
  {
    hide CostLine, FirstFastest, SwitchesAt, BestGraph;
    var g := BestGraph(rec, GRAPHS, c.0, c.1);
    BestGraphIsFastest(rec, GRAPHS, c.0, c.1);
    if (r.k, r.tau) == c {
      if SwitchesHere(rec, r) {
        var i :| 0 <= i < |GRAPHS| && FirstFastest(rec, GRAPHS, r.k, r.tau, i) && r.graph == GRAPHS[i];
        FastestIsBest(rec, GRAPHS, r.k, r.tau, i);
        CrossoverExact(rec, r.k, r.tau, r.graph, r.nstar);
      } else if r in CellRow(name, rec, c) {
        CrossoverExact(rec, r.k, r.tau, r.graph, r.nstar);
      }
    }
  }

  lemma {:induction false} DatasetRowsAre(name: string, rec: Rec, cells: seq<Cell>, r: NRow)
    ensures r in DatasetRows(name, rec, cells) <==> r.dataset == name && (r.k, r.tau) in cells && SwitchesHere(rec, r)
  {
    hide SwitchesHere, CellRow;
    if cells != [] {
      var m := |cells| - 1;
      DatasetRowsAre(name, rec, cells[..m], r);
      CellRowIs(name, rec, cells[m], r);
      assert cells == cells[..m] + [cells[m]];
    }
  }

  /** There is a row exactly for a listed dataset and cell at which the right choice between SuCo and the
      fastest graph switches at a positive volume, and it names that graph and that volume. */
  lemma {:induction false} NstarRowsAre(data: Data, names: seq<string>, cells: seq<Cell>, r: NRow)
    requires forall n :: n in names ==> n in data
    ensures r in NstarRows(data, names, cells)
            <==> r.dataset in names && (r.k, r.tau) in cells && SwitchesHere(data[r.dataset], r)
  {
    hide SwitchesHere, DatasetRows;
    if names != [] {
      var m := |names| - 1;
      NstarRowsAre(data, names[..m], cells, r);
      DatasetRowsAre(names[m], data[names[m]], cells, r);
      assert names == names[..m] + [names[m]];
    }
  }

  /** collect_nstar */
  method CollectNstar(data: Data, names: seq<string>, cells: seq<Cell>) returns (rows: seq<NRow>)
    requires forall n :: n in names ==> n in data
    ensures rows == NstarRows(data, names, cells)
  {
    hide DatasetRows;
    rows := [];
    for i := 0 to |names|
      invariant rows == NstarRows(data, names[..i], cells)
    {
      var more := CollectDataset(names[i], data[names[i]], cells);
      assert names[..i + 1][..i] == names[..i];
      rows := rows + more;
    }
    assert names[..|names|] == names;
  }

  /** The inner loop of collect_nstar. */
  method CollectDataset(name: string, rec: Rec, cells: seq<Cell>) returns (rows: seq<NRow>)
    ensures rows == DatasetRows(name, rec, cells)
  {
    hide BestGraph, Crossover;
    rows := [];
    for j := 0 to |cells|
      invariant rows == DatasetRows(name, rec, cells[..j])
    {
      var (k, tau) := cells[j];
      assert cells[..j + 1][..j] == cells[..j];
      var g := BestGraph(rec, GRAPHS, k, tau);
      if g.Some? {
        var ns := Crossover(rec, k, tau, g.value);
        if ns.Some? && ns.value > 0.0 {
          rows := rows + [NRow(name, k, tau, g.value, ns.value)];
        }
      }
    }
    assert cells[..|cells|] == cells;
  }

  // ---------- what a fold is fitted on ----------

  function Training(rows: seq<NRow>, held: string): seq<real> {
    if rows == [] then []
    else
      var r := rows[|rows| - 1];
      Training(rows[..|rows| - 1], held) + if r.dataset != held then [r.nstar] else []
  }

  /** The training values are those of the rows of all other datasets. */
  lemma {:induction false} TrainingIs(rows: seq<NRow>, held: string, x: real)
    ensures x in Training(rows, held) <==> exists r :: r in rows && r.dataset != held && r.nstar == x
    ensures |Training(rows, held)| == |set i | 0 <= i < |rows| && rows[i].dataset != held|
  {
    var others := set i | 0 <= i < |rows| && rows[i].dataset != held;
    if rows == [] {
      assert others == {};
    } else {
      var n := |rows| - 1;
      TrainingIs(rows[..n], held, x);
      OthersNext(rows, held, n);
      assert rows == rows[..n] + [rows[n]];
    }
  }

  lemma OthersNext(rows: seq<NRow>, held: string, n: nat)
    requires |rows| == n + 1
    ensures |set i | 0 <= i < |rows| && rows[i].dataset != held|
            == |set i | 0 <= i < n && rows[..n][i].dataset != held| + if rows[n].dataset != held then 1 else 0
  {
    assert (set i | 0 <= i < |rows| && rows[i].dataset != held)
           == (set i | 0 <= i < n && rows[..n][i].dataset != held) + if rows[n].dataset != held then {n} else {};
  }

  lemma {:induction false} TrainingAppend(a: seq<NRow>, b: seq<NRow>, held: string)
    ensures Training(a + b, held) == Training(a, held) + Training(b, held)
  {
    if b == [] {
      assert a + b == a;
    } else {
      assert (a + b)[..|a + b| - 1] == a + b[..|b| - 1];
      TrainingAppend(a, b[..|b| - 1], held);
    }
  }

  lemma {:induction false} HeldRowsDrop(name: string, rec: Rec, cells: seq<Cell>)
    ensures Training(DatasetRows(name, rec, cells), name) == []
  {
    if cells != [] {
      var n := |cells| - 1;
      HeldRowsDrop(name, rec, cells[..n]);
      TrainingAppend(DatasetRows(name, rec, cells[..n]), CellRow(name, rec, cells[n]), name);
      OneRowDrops(name, rec, cells[n]);
    }
  }

  lemma OneRowDrops(name: string, rec: Rec, c: Cell)
    ensures Training(CellRow(name, rec, c), name) == []
  {
  }

  /** Oracle winners over all folds but the held one, in iteration order. */
  function CellWinners(rec: Rec, cells: seq<VolumeCell>): seq<string> {
    if cells == [] then []
    else
      var c := cells[|cells| - 1];
      var costs := CostsOf(rec, AllMethods(), c.0, c.1, c.2);
      CellWinners(rec, cells[..|cells| - 1]) + if costs == [] then [] else [Cheapest(costs).0]
  }

  function Winners(data: Data, names: seq<string>, cells: seq<VolumeCell>, held: string): seq<string>
    requires forall n :: n in names ==> n in data
  {
    if names == [] then []
    else
      var n := names[|names| - 1];
      Winners(data, names[..|names| - 1], cells, held) + if n == held then [] else CellWinners(data[n], cells)
  }

  function CellGraphs(rec: Rec, cells: seq<Cell>): seq<string> {
    if cells == [] then []
    else
      var g := BestGraph(rec, GRAPHS, cells[|cells| - 1].0, cells[|cells| - 1].1);
      CellGraphs(rec, cells[..|cells| - 1]) + if g.None? then [] else [g.value]
  }

  function GraphWinners(data: Data, names: seq<string>, cells: seq<Cell>, held: string): seq<string>
    requires forall n :: n in names ==> n in data
  {
    if names == [] then []
    else
      var n := names[|names| - 1];
      GraphWinners(data, names[..|names| - 1], cells, held) + if n == held then [] else CellGraphs(data[n], cells)
  }

  // ---------- counting winners ----------

  /** A dictionary with its insertion order. */
  datatype Dict = Dict(keys: seq<string>, count: map<string, nat>)

  /** wins[o] = wins.get(o, 0) + 1 */
  function Bump(d: Dict, key: string): Dict {
    if key in d.count then d.(count := d.count[key := d.count[key] + 1])
    else Dict(d.keys + [key], d.count[key := 1])
  }

  function Tally(list: seq<string>): Dict {
    if list == [] then Dict([], map[]) else Bump(Tally(list[..|list| - 1]), list[|list| - 1])
  }

  /** max(wins, key=wins.get): the first of the largest. */
  function ArgMax(keys: seq<string>, count: map<string, nat>): string
    requires keys != [] && forall x :: x in keys ==> x in count
  {
    var last := keys[|keys| - 1];
    if |keys| == 1 then last
    else
      var best := ArgMax(keys[..|keys| - 1], count);
      if best in count && count[last] > count[best] then last else best
  }

  function MostFrequent(list: seq<string>): string {
    TallyCounts(list, "");
    if Tally(list).keys == [] then "HNSW32" else ArgMax(Tally(list).keys, Tally(list).count)
  }

  function Count(list: seq<string>, x: string): nat {
    if list == [] then 0 else Count(list[..|list| - 1], x) + if list[|list| - 1] == x then 1 else 0
  }

  lemma {:induction false} TallyCounts(list: seq<string>, x: string)
    ensures var d := Tally(list);
            && (forall y :: y in d.keys <==> y in d.count)
            && (x in d.count <==> Count(list, x) > 0)
            && (x in d.count ==> d.count[x] == Count(list, x))
            && (d.keys == [] <==> list == [])
  {
    if list != [] {
      TallyCounts(list[..|list| - 1], x);
    }
  }

  /** Where x occurs first. */
  function FirstAt(list: seq<string>, x: string): (at: nat)
    ensures at <= |list| && (at < |list| <==> x in list)
    ensures at < |list| ==> list[at] == x
  {
    if list == [] then 0
    else
      var n := |list| - 1;
      var at := FirstAt(list[..n], x);
      assert list == list[..n] + [list[n]];
      if at < n || list[n] == x then at else n + 1
  }

  /** The dictionary keeps its keys in the order of their first occurrence. */
  lemma {:induction false} KeysInOrder(list: seq<string>)
    ensures forall i :: 0 <= i < |Tally(list).keys| ==> Tally(list).keys[i] in list
    ensures forall i, j :: 0 <= i < j < |Tally(list).keys| ==>
              FirstAt(list, Tally(list).keys[i]) < FirstAt(list, Tally(list).keys[j])
  {
    if list != [] {
      var n := |list| - 1;
      var d := Tally(list[..n]);
      KeysInOrder(list[..n]);
      TallyCounts(list[..n], list[n]);
      assert list == list[..n] + [list[n]];
      assert forall x :: x in list[..n] ==> FirstAt(list, x) == FirstAt(list[..n], x) < n;
      NewKey(list[..n], list[n]);
    }
  }

  lemma NewKey(list: seq<string>, x: string)
    ensures x !in Tally(list).count <==> x !in list
  {
    TallyCounts(list, x);
    CountPositive(list, x);
  }

  lemma {:induction false} CountPositive(list: seq<string>, x: string)
    ensures Count(list, x) > 0 <==> x in list
  {
    if list != [] {
      CountPositive(list[..|list| - 1], x);
      assert list == list[..|list| - 1] + [list[|list| - 1]];
    }
  }

  lemma {:induction false} ArgMaxIs(keys: seq<string>, count: map<string, nat>) returns (i: nat)
    requires keys != [] && forall x :: x in keys ==> x in count
    ensures i < |keys| && keys[i] == ArgMax(keys, count)
    ensures forall j :: 0 <= j < |keys| ==> if j < i then count[keys[j]] < count[keys[i]] else count[keys[j]] <= count[keys[i]]
  {
    var m := |keys| - 1;
    i := m;
    if m > 0 {
      var best := ArgMaxIs(keys[..m], count);
      assert forall j :: 0 <= j < m ==> keys[..m][j] == keys[j];
      if count[keys[m]] <= count[keys[best]] {
        i := best;
      }
    }
  }

  /** The pick really is a most frequent winner, and of equally frequent ones the first to win. */
  lemma MostFrequentIs(list: seq<string>, x: string)
    requires list != []
    ensures Count(list, x) <= Count(list, MostFrequent(list)) && Count(list, MostFrequent(list)) > 0
    ensures Count(list, x) == Count(list, MostFrequent(list)) ==> FirstAt(list, MostFrequent(list)) <= FirstAt(list, x)
  {
    hide Tally, FirstAt, Count;
    var d := Tally(list);
    TallyCounts(list, x);
    var i := ArgMaxIs(d.keys, d.count);
    TallyCounts(list, MostFrequent(list));
    KeysInOrder(list);
    if x in d.count {
      var j :| 0 <= j < |d.keys| && d.keys[j] == x;
    }
  }

  /** The counting loops of one fold; `skip` folds contribute nothing. */
  method CountWinners(data: Data, names: seq<string>, cells: seq<VolumeCell>, held: string) returns (wins: Dict)
    requires forall n :: n in names ==> n in data
    ensures wins == Tally(Winners(data, names, cells, held))
  {
    hide CellWinners, Bump, Tally;
    wins := Dict([], map[]);
    assert wins == Tally([]) by { TallyNext([], ""); }
    for i := 0 to |names|
      invariant wins == Tally(Winners(data, names[..i], cells, held))
    {
      assert names[..i + 1][..i] == names[..i];
      if names[i] == held {
        assert Winners(data, names[..i], cells, held) + [] == Winners(data, names[..i], cells, held);
        continue;
      }
      wins := CountCells(data[names[i]], cells, Winners(data, names[..i], cells, held), wins);
    }
    assert names[..|names|] == names;
  }

  lemma TallyNext(list: seq<string>, x: string)
    ensures Tally([]) == Dict([], map[]) && Tally(list + [x]) == Bump(Tally(list), x)
  {
    assert (list + [x])[..|list|] == list;
  }

  lemma CellWinnersNext(rec: Rec, cells: seq<VolumeCell>, j: nat)
    requires j < |cells|
    ensures var costs := CostsOf(rec, AllMethods(), cells[j].0, cells[j].1, cells[j].2);
            CellWinners(rec, cells[..j + 1])
            == CellWinners(rec, cells[..j]) + if costs == [] then [] else [Cheapest(costs).0]
  {
    hide CostsOf, Cheapest;
    assert cells[..j + 1][..j] == cells[..j];
  }

  method CountCells(rec: Rec, cells: seq<VolumeCell>, ghost before: seq<string>, was: Dict) returns (wins: Dict)
    requires was == Tally(before)
    ensures wins == Tally(before + CellWinners(rec, cells))
  {
    hide Bump, Tally, CellWinners, CostsOf, Cheapest;
    wins := was;
    ghost var seen := [];
    NoWinners(rec, cells);
    assert before + [] == before;
    for j := 0 to |cells|
      invariant seen == CellWinners(rec, cells[..j])
      invariant wins == Tally(before + seen)
    {
      var (k, tau, n) := cells[j];
      CellWinnersNext(rec, cells, j);
      var o, _ := OracleAndCosts(rec, k, tau, n);
      if o.Some? {
        TallyNext(before + seen, o.value);
        assert before + seen + [o.value] == before + (seen + [o.value]);
        wins := Bump(wins, o.value);
        seen := seen + [o.value];
      }
    }
    assert cells[..|cells|] == cells;
  }

  lemma NoGraphs(rec: Rec, cells: seq<Cell>)
    ensures CellGraphs(rec, cells[..0]) == []
  {
  }

  lemma CellGraphsNext(rec: Rec, cells: seq<Cell>, j: nat)
    requires j < |cells|
    ensures var g := BestGraph(rec, GRAPHS, cells[j].0, cells[j].1);
            CellGraphs(rec, cells[..j + 1]) == CellGraphs(rec, cells[..j]) + if g.None? then [] else [g.value]
  {
    hide BestGraph;
    assert cells[..j + 1][..j] == cells[..j];
  }

  method CountCellGraphs(rec: Rec, cells: seq<Cell>, ghost before: seq<string>, was: Dict) returns (gwins: Dict)
    requires was == Tally(before)
    ensures gwins == Tally(before + CellGraphs(rec, cells))
  {
    hide Bump, Tally, CellGraphs, BestGraph;
    gwins := was;
    ghost var seen := [];
    NoGraphs(rec, cells);
    assert before + [] == before;
    for j := 0 to |cells|
      invariant seen == CellGraphs(rec, cells[..j])
      invariant gwins == Tally(before + seen)
    {
      CellGraphsNext(rec, cells, j);
      var g := BestGraph(rec, GRAPHS, cells[j].0, cells[j].1);
      if g.Some? {
        TallyNext(before + seen, g.value);
        assert before + seen + [g.value] == before + (seen + [g.value]);
        gwins := Bump(gwins, g.value);
        seen := seen + [g.value];
      }
    }
    assert cells[..|cells|] == cells;
  }

  /** The graph-winner loop of a fold. */
  method CountGraphWinners(data: Data, names: seq<string>, cells: seq<Cell>, held: string) returns (gwins: Dict)
    requires forall n :: n in names ==> n in data
    ensures gwins == Tally(GraphWinners(data, names, cells, held))
  {
    hide CellGraphs, Bump, Tally;
    gwins := Dict([], map[]);
    assert gwins == Tally([]) by { TallyNext([], ""); }
    for i := 0 to |names|
      invariant gwins == Tally(GraphWinners(data, names[..i], cells, held))
    {
      assert names[..i + 1][..i] == names[..i];
      if names[i] == held {
        assert GraphWinners(data, names[..i], cells, held) + [] == GraphWinners(data, names[..i], cells, held);
        continue;
      }
      gwins := CountCellGraphs(data[names[i]], cells, GraphWinners(data, names[..i], cells, held), gwins);
    }
    assert names[..|names|] == names;
  }

  lemma NoWinners(rec: Rec, cells: seq<VolumeCell>)
    ensures CellWinners(rec, cells[..0]) == []
  {
  }

  // ---------- one fold ----------

  /** What is fitted with one dataset held out. */
  datatype Fit = Fit(nstarHat: real, modePick: string, graphDefault: string)

  /** None is the skipped fold without training rows. `median` stands for ten to the median of the
      logarithms of its argument. */
  function FitFold(data: Data, names: seq<string>, rows: seq<NRow>, cells: seq<Cell>, volumeCells: seq<VolumeCell>,
                   held: string, median: seq<real> -> real): Option<Fit>
    requires forall n :: n in names ==> n in data
  {
    var train := Training(rows, held);
    if train == [] then None
    else Some(Fit(median(train), MostFrequent(Winners(data, names, volumeCells, held)),
                  MostFrequent(GraphWinners(data, names, cells, held))))
  }

  /** The head of a fold: the training rows, the two counting loops and the picks. */
  method FitHeld(data: Data, names: seq<string>, rows: seq<NRow>, cells: seq<Cell>, volumeCells: seq<VolumeCell>,
                 held: string, median: seq<real> -> real) returns (fit: Option<Fit>)
    requires forall n :: n in names ==> n in data
    ensures fit == FitFold(data, names, rows, cells, volumeCells, held, median)
  {
    hide Tally, Winners, GraphWinners, ArgMax, Training;
    var train := Training(rows, held);
    if train == [] {
      return None;
    }
    var wins := CountWinners(data, names, volumeCells, held);
    TallyCounts(Winners(data, names, volumeCells, held), "");
    var modePick := if wins.keys == [] then "HNSW32" else ArgMax(wins.keys, wins.count);
    var gwins := CountGraphWinners(data, names, cells, held);
    TallyCounts(GraphWinners(data, names, cells, held), "");
    var graphDefault := if gwins.keys == [] then "HNSW32" else ArgMax(gwins.keys, gwins.count);
    fit := Some(Fit(median(train), modePick, graphDefault));
  }

  ghost predicate SameExcept(data: Data, data': Data, held: string) {
    data.Keys == data'.Keys && forall n :: n in data && n != held ==> data[n] == data'[n]
  }

  lemma {:induction false} WinnersIgnoreHeld(data: Data, data': Data, names: seq<string>, cells: seq<VolumeCell>, held: string)
    requires SameExcept(data, data', held) && forall n :: n in names ==> n in data
    ensures Winners(data, names, cells, held) == Winners(data', names, cells, held)
  {
    if names != [] {
      WinnersIgnoreHeld(data, data', names[..|names| - 1], cells, held);
    }
  }

  lemma {:induction false} GraphsIgnoreHeld(data: Data, data': Data, names: seq<string>, cells: seq<Cell>, held: string)
    requires SameExcept(data, data', held) && forall n :: n in names ==> n in data
    ensures GraphWinners(data, names, cells, held) == GraphWinners(data', names, cells, held)
  {
    if names != [] {
      GraphsIgnoreHeld(data, data', names[..|names| - 1], cells, held);
    }
  }

  lemma {:induction false} TrainingIgnoresHeld(data: Data, data': Data, names: seq<string>, cells: seq<Cell>, held: string)
    requires SameExcept(data, data', held) && forall n :: n in names ==> n in data
    ensures Training(NstarRows(data, names, cells), held) == Training(NstarRows(data', names, cells), held)
  {
    if names != [] {
      hide Training, DatasetRows;
      var n := |names| - 1;
      var name := names[n];
      TrainingIgnoresHeld(data, data', names[..n], cells, held);
      TrainingAppend(NstarRows(data, names[..n], cells), DatasetRows(name, data[name], cells), held);
      TrainingAppend(NstarRows(data', names[..n], cells), DatasetRows(name, data'[name], cells), held);
      if name == held {
        HeldRowsDrop(held, data[held], cells);
        HeldRowsDrop(held, data'[held], cells);
      }
    }
  }

  /** Non-interference: whatever the held-out record says, the fold is skipped or not, and fitted, alike:
      same threshold, same mode pick, same graph default. `order` is the order the N* rows were
      collected in, `names` the order of the folds. */
  lemma HeldOutIsUnseen(data: Data, data': Data, order: seq<string>, names: seq<string>, cells: seq<Cell>,
                        volumeCells: seq<VolumeCell>, held: string, median: seq<real> -> real)
    requires SameExcept(data, data', held) && forall n :: n in names || n in order ==> n in data
    ensures FitFold(data, names, NstarRows(data, order, cells), cells, volumeCells, held, median)
         == FitFold(data', names, NstarRows(data', order, cells), cells, volumeCells, held, median)
  {
    hide Training, NstarRows, Winners, GraphWinners;
    TrainingIgnoresHeld(data, data', order, cells, held);
    WinnersIgnoreHeld(data, data', names, volumeCells, held);
    GraphsIgnoreHeld(data, data', names, cells, held);
  }

  // ---------- regret ----------

  function CostOf(costs: Costs, pick: string): Option<real> {
    if costs == [] then None
    else if costs[|costs| - 1].0 == pick then Some(costs[|costs| - 1].1)
    else CostOf(costs[..|costs| - 1], pick)
  }

  predicate Positive(costs: Costs) {
    forall i :: 0 <= i < |costs| ==> costs[i].1 > 0.0
  }

  /** How much dearer than the best, relative to it. */
  function Ratio(cost: real, best: real): (r: real)
    requires best > 0.0
    ensures cost >= best ==> r >= 0.0
    ensures r == 0.0 <==> cost == best
  {
    (cost - best) / best
  }

  /** regret: None for an infeasible pick. (A best cost of zero would divide by zero.) */
  function Regret(costs: Costs, pick: string): Option<real>
    requires costs != [] && Positive(costs)
  {
    var c := CostOf(costs, pick);
    if c.None? then None else
      CheapestPositive(costs);
      Some(Ratio(c.value, Cheapest(costs).1))
  }

  lemma {:induction false} CheapestPositive(costs: Costs)
    requires costs != [] && Positive(costs)
    ensures Cheapest(costs).1 > 0.0 && Cheapest(costs) in costs
    ensures forall c :: c in costs ==> Cheapest(costs).1 <= c.1
  {
    if |costs| > 1 {
      CheapestPositive(costs[..|costs| - 1]);
      assert costs == costs[..|costs| - 1] + [costs[|costs| - 1]];
    }
  }

  /** max(regret(costs, m) for m in costs) over the first i entries. */
  function WorstRegret(costs: Costs, i: nat): real
    requires 0 < i <= |costs| && Positive(costs)
  {
    CheapestPositive(costs);
    var r := Ratio(costs[i - 1].1, Cheapest(costs).1);
    if i == 1 then r else var w := WorstRegret(costs, i - 1); if r > w then r else w
  }

  /** The regret recorded for a pick: the worst feasible one if the pick is infeasible. */
  function Charge(costs: Costs, pick: string): real
    requires costs != [] && Positive(costs)
  {
    var r := Regret(costs, pick);
    if r.None? then WorstRegret(costs, |costs|) else r.value
  }

  predicate DistinctKeys(costs: Costs) {
    forall i, j :: 0 <= i < j < |costs| ==> costs[i].0 != costs[j].0
  }

  lemma {:induction false} CostOfEntry(costs: Costs, i: nat)
    requires i < |costs| && DistinctKeys(costs)
    ensures CostOf(costs, costs[i].0) == Some(costs[i].1)
  {
    if i < |costs| - 1 {
      CostOfEntry(costs[..|costs| - 1], i);
    }
  }

  lemma {:induction false} CostOfMember(costs: Costs, pick: string)
    requires CostOf(costs, pick).Some?
    ensures (pick, CostOf(costs, pick).value) in costs
  {
    if costs[|costs| - 1].0 != pick {
      CostOfMember(costs[..|costs| - 1], pick);
    }
  }

  lemma {:induction false} WorstIsWorst(costs: Costs, i: nat, j: nat)
    requires j < i <= |costs| && Positive(costs)
    ensures Cheapest(costs).1 > 0.0 && WorstRegret(costs, i) >= Ratio(costs[j].1, Cheapest(costs).1)
  {
    CheapestPositive(costs);
    if j < i - 1 {
      WorstIsWorst(costs, i - 1, j);
    }
  }

  lemma {:induction false} WorstIsSome(costs: Costs, i: nat) returns (j: nat)
    requires 0 < i <= |costs| && Positive(costs)
    ensures j < i && Cheapest(costs).1 > 0.0
    ensures WorstRegret(costs, i) == Ratio(costs[j].1, Cheapest(costs).1)
  {
    hide Cheapest, Ratio;
    CheapestPositive(costs);
    j := i - 1;
    if i > 1 && WorstRegret(costs, i - 1) >= Ratio(costs[i - 1].1, Cheapest(costs).1) {
      j := WorstIsSome(costs, i - 1);
    }
  }

  /** No recorded regret is negative, the oracle's own is zero, and an infeasible pick is charged the
      largest regret of the feasible methods in its cell. */
  lemma ChargeLaws(costs: Costs, pick: string)
    requires costs != [] && Positive(costs) && DistinctKeys(costs)
    ensures Charge(costs, pick) >= 0.0
    ensures Charge(costs, Cheapest(costs).0) == 0.0
    ensures CostOf(costs, pick).None? ==>
              && (forall i :: 0 <= i < |costs| ==> Charge(costs, pick) >= Charge(costs, costs[i].0))
              && exists i :: 0 <= i < |costs| && Charge(costs, pick) == Charge(costs, costs[i].0)
  {
    hide Cheapest, Ratio;
    CheapestPositive(costs);
    var b :| 0 <= b < |costs| && costs[b] == Cheapest(costs);
    CostOfEntry(costs, b);
    if CostOf(costs, pick).Some? {
      CostOfMember(costs, pick);
    } else {
      WorstIsWorst(costs, |costs|, b);
      var w := WorstIsSome(costs, |costs|);
      CostOfEntry(costs, w);
      assert Charge(costs, pick) == Charge(costs, costs[w].0);
      forall i | 0 <= i < |costs| ensures Charge(costs, pick) >= Charge(costs, costs[i].0) {
        CostOfEntry(costs, i);
        WorstIsWorst(costs, |costs|, i);
      }
    }
  }

  // ---------- the evaluation loop ----------

  /** Recorded regrets of one fold, rule by rule. */
  datatype Regrets = Regrets(fitted: seq<real>, alwaysHnsw32: seq<real>, alwaysMode: seq<real>,
                             random: seq<real>, oracle: seq<real>)

  /** All costs of a cell, which must be positive for the regret to be defined. */
  predicate PositiveCosts(rec: Rec, cells: seq<VolumeCell>) {
    forall c :: c in cells ==> Positive(CostsOf(rec, AllMethods(), c.0, c.1, c.2))
  }

  function Record(r: Regrets, fit: Fit, costs: Costs, n: real, draw: nat): Regrets
    requires costs != [] && Positive(costs)
  {
    Regrets(r.fitted + [Charge(costs, RuleConstant(fit.nstarHat, n, fit.graphDefault))],
            r.alwaysHnsw32 + [Charge(costs, "HNSW32")],
            r.alwaysMode + [Charge(costs, fit.modePick)],
            r.random + [Charge(costs, costs[draw % |costs|].0)],
            r.oracle + [Charge(costs, Cheapest(costs).0)])
  }

  /** The regrets of a fold over its feasible cells; draw(j) is the random generator's choice in cell j. */
  function FoldRegrets(fit: Fit, rec: Rec, cells: seq<VolumeCell>, draw: nat -> nat): Regrets
    requires PositiveCosts(rec, cells)
  {
    if cells == [] then Regrets([], [], [], [], [])
    else
      var m := |cells| - 1;
      var c := cells[m];
      var before, costs := FoldRegrets(fit, rec, cells[..m], draw), CostsOf(rec, AllMethods(), c.0, c.1, c.2);
      if costs == [] then before else Record(before, fit, costs, c.2, draw(m))
  }

  function FeasibleCells(rec: Rec, cells: seq<VolumeCell>): (n: nat)
    ensures n <= |cells|
  {
    if cells == [] then 0
    else
      var c := cells[|cells| - 1];
      FeasibleCells(rec, cells[..|cells| - 1]) + if CostsOf(rec, AllMethods(), c.0, c.1, c.2) == [] then 0 else 1
  }

  method EvaluateFold(fit: Fit, rec: Rec, cells: seq<VolumeCell>, draw: nat -> nat)
    returns (regrets: Regrets, nCells: nat, nInfeasible: nat)
    requires PositiveCosts(rec, cells)
    ensures regrets == FoldRegrets(fit, rec, cells, draw)
    ensures nCells == FeasibleCells(rec, cells) && nInfeasible == |cells| - nCells
  {
    hide Record, CostsOf, Positive, Cheapest;
    regrets, nCells, nInfeasible := Regrets([], [], [], [], []), 0, 0;
    for j := 0 to |cells|
      invariant PositiveCosts(rec, cells[..j]) && regrets == FoldRegrets(fit, rec, cells[..j], draw)
      invariant nCells == FeasibleCells(rec, cells[..j]) && nInfeasible == j - nCells
    {
      var (k, tau, n) := cells[j];
      assert cells[..j + 1][..j] == cells[..j];
      assert PositiveCosts(rec, cells[..j + 1]);
      var o, costs := OracleAndCosts(rec, k, tau, n);
      if o.None? {
        nInfeasible := nInfeasible + 1;
      } else {
        nCells := nCells + 1;
        assert cells[j] in cells;
        regrets := Record(regrets, fit, costs, n, draw(j));
      }
    }
    assert cells[..|cells|] == cells;
  }

  ghost predicate NonNegative(s: seq<real>) {
    forall i :: 0 <= i < |s| ==> s[i] >= 0.0
  }

  lemma {:induction false} CostKeysDistinct(rec: Rec, methods: seq<string>, k: nat, tau: real, n: real)
    requires forall i, j :: 0 <= i < j < |methods| ==> methods[i] != methods[j]
    ensures DistinctKeys(CostsOf(rec, methods, k, tau, n))
    ensures forall c :: c in CostsOf(rec, methods, k, tau, n) ==> c.0 in methods
  {
    if methods != [] {
      hide TotalCost;
      CostKeysDistinct(rec, methods[..|methods| - 1], k, tau, n);
    }
  }

  lemma RecordLaws(r: Regrets, fit: Fit, costs: Costs, n: real, d: nat)
    requires costs != [] && Positive(costs) && DistinctKeys(costs)
    ensures var r' := Record(r, fit, costs, n, d);
            && |r'.fitted| == |r.fitted| + 1 && |r'.alwaysHnsw32| == |r.alwaysHnsw32| + 1
            && |r'.alwaysMode| == |r.alwaysMode| + 1 && |r'.random| == |r.random| + 1 && |r'.oracle| == |r.oracle| + 1
            && (NonNegative(r.fitted) ==> NonNegative(r'.fitted))
            && (NonNegative(r.alwaysHnsw32) ==> NonNegative(r'.alwaysHnsw32))
            && (NonNegative(r.alwaysMode) ==> NonNegative(r'.alwaysMode))
            && (NonNegative(r.random) ==> NonNegative(r'.random))
            && r'.oracle == r.oracle + [0.0]
  {
    hide Charge, Cheapest;
    ChargeLaws(costs, RuleConstant(fit.nstarHat, n, fit.graphDefault));
    ChargeLaws(costs, "HNSW32");
    ChargeLaws(costs, fit.modePick);
    ChargeLaws(costs, costs[d % |costs|].0);
  }

  /** Over a whole fold: one regret a feasible cell for every rule, none negative, the oracle's all zero. */
  lemma {:induction false} FoldLaws(fit: Fit, rec: Rec, cells: seq<VolumeCell>, draw: nat -> nat)
    requires PositiveCosts(rec, cells)
    ensures var r, m := FoldRegrets(fit, rec, cells, draw), FeasibleCells(rec, cells);
            && |r.fitted| == |r.alwaysHnsw32| == |r.alwaysMode| == |r.random| == |r.oracle| == m
            && NonNegative(r.fitted) && NonNegative(r.alwaysHnsw32) && NonNegative(r.alwaysMode) && NonNegative(r.random)
            && forall i :: 0 <= i < m ==> r.oracle[i] == 0.0
  {
    if cells != [] {
      var m := |cells| - 1;
      var c := cells[m];
      var costs := CostsOf(rec, AllMethods(), c.0, c.1, c.2);
      FoldLaws(fit, rec, cells[..m], draw);
      if costs != [] {
        hide CostsOf, Record, NonNegative;
        CostKeysDistinct(rec, AllMethods(), c.0, c.1, c.2);
        RecordLaws(FoldRegrets(fit, rec, cells[..m], draw), fit, costs, c.2, draw(m));
      }
    }
  }

  // ---------- what is recorded, in terms of costs ----------

  ghost predicate Feasible(rec: Rec, m: string, c: VolumeCell) {
    m in AllMethods() && TotalCost(rec, m, c.0, c.1, c.2).Some?
  }

  ghost function CostAt(rec: Rec, m: string, c: VolumeCell): real
    requires Feasible(rec, m, c)
  {
    TotalCost(rec, m, c.0, c.1, c.2).value
  }

  ghost predicate LeastCost(rec: Rec, c: VolumeCell, best: real) {
    && (exists m :: Feasible(rec, m, c) && CostAt(rec, m, c) == best)
    && forall m :: Feasible(rec, m, c) ==> best <= CostAt(rec, m, c)
  }

  /** `r` times the best cost is what `cost` exceeds it by. */
  ghost predicate IsRatio(r: real, cost: real, best: real) {
    r * best == cost - best
  }

  ghost predicate CoversRatio(r: real, cost: real, best: real) {
    cost - best <= r * best
  }

  /** Measured in the cheapest cost, `r` is the excess of the pick, or of the dearest feasible method for a
      pick that is not feasible. */
  ghost predicate IsExcess(rec: Rec, c: VolumeCell, pick: string, r: real, best: real) {
    if Feasible(rec, pick, c) then IsRatio(r, CostAt(rec, pick, c), best)
    else
      && (exists m :: Feasible(rec, m, c) && IsRatio(r, CostAt(rec, m, c), best))
      && forall m :: Feasible(rec, m, c) ==> CoversRatio(r, CostAt(rec, m, c), best)
  }

  ghost predicate Charged(rec: Rec, c: VolumeCell, pick: string, r: real) {
    exists best :: LeastCost(rec, c, best) && IsExcess(rec, c, pick, r, best)
  }

  lemma RatioTimes(cost: real, best: real)
    requires best > 0.0
    ensures IsRatio(Ratio(cost, best), cost, best)
  {
  }

  lemma RatioOrder(r: real, cost: real, best: real)
    requires best > 0.0 && Ratio(cost, best) <= r
    ensures CoversRatio(r, cost, best)
  {
    RatioTimes(cost, best);
    assert (r - Ratio(cost, best)) * best >= 0.0;
  }

  /** The costs of a cell as a list and as a relation. */
  lemma CostsAreFeasible(rec: Rec, c: VolumeCell)
    ensures var costs := CostsOf(rec, AllMethods(), c.0, c.1, c.2);
            && DistinctKeys(costs)
            && (forall i :: 0 <= i < |costs| ==>
                  Feasible(rec, costs[i].0, c) && CostAt(rec, costs[i].0, c) == costs[i].1)
            && (forall m :: Feasible(rec, m, c) ==> (m, CostAt(rec, m, c)) in costs)
            && (costs == [] <==> forall m :: !Feasible(rec, m, c))
  {
    hide CostsOf, TotalCost;
    CostsAre(rec, AllMethods(), c.0, c.1, c.2);
    CostKeysDistinct(rec, AllMethods(), c.0, c.1, c.2);
    var costs := CostsOf(rec, AllMethods(), c.0, c.1, c.2);
    assert forall i :: 0 <= i < |costs| ==> costs[i] in costs;
    if costs != [] {
      assert Feasible(rec, costs[0].0, c);
    }
  }

  lemma CheapestIsLeast(rec: Rec, c: VolumeCell)
    requires CostsOf(rec, AllMethods(), c.0, c.1, c.2) != [] && Positive(CostsOf(rec, AllMethods(), c.0, c.1, c.2))
    ensures LeastCost(rec, c, Cheapest(CostsOf(rec, AllMethods(), c.0, c.1, c.2)).1)
  {
    hide CostsOf, Cheapest, Feasible, CostAt;
    var costs := CostsOf(rec, AllMethods(), c.0, c.1, c.2);
    CostsAreFeasible(rec, c);
    CheapestPositive(costs);
  }

  lemma FeasibleCharge(costs: Costs, i: nat)
    requires i < |costs| && Positive(costs) && DistinctKeys(costs)
    ensures IsRatio(Charge(costs, costs[i].0), costs[i].1, Cheapest(costs).1)
  {
    hide Cheapest, Ratio, Positive, DistinctKeys, IsRatio;
    CheapestPositive(costs);
    CostOfEntry(costs, i);
    RatioTimes(costs[i].1, Cheapest(costs).1);
  }

  lemma InfeasibleCharge(costs: Costs, pick: string) returns (w: nat)
    requires costs != [] && Positive(costs) && CostOf(costs, pick).None?
    ensures w < |costs| && IsRatio(Charge(costs, pick), costs[w].1, Cheapest(costs).1)
    ensures forall i :: 0 <= i < |costs| ==> CoversRatio(Charge(costs, pick), costs[i].1, Cheapest(costs).1)
  {
    hide Cheapest, Ratio, Positive, IsRatio, CoversRatio;
    CheapestPositive(costs);
    w := WorstIsSome(costs, |costs|);
    RatioTimes(costs[w].1, Cheapest(costs).1);
    forall i | 0 <= i < |costs|
      ensures CoversRatio(Charge(costs, pick), costs[i].1, Cheapest(costs).1)
    {
      WorstIsWorst(costs, |costs|, i);
      RatioOrder(Charge(costs, pick), costs[i].1, Cheapest(costs).1);
    }
  }

  /** The charge of a cell is the excess of the pick's cost. */
  lemma ChargeIsExcess(rec: Rec, c: VolumeCell, pick: string)
    requires CostsOf(rec, AllMethods(), c.0, c.1, c.2) != [] && Positive(CostsOf(rec, AllMethods(), c.0, c.1, c.2))
    ensures Charged(rec, c, pick, Charge(CostsOf(rec, AllMethods(), c.0, c.1, c.2), pick))
  {
    hide CostsOf, Cheapest, Feasible, CostAt, LeastCost, Positive, Charge, DistinctKeys, IsRatio, CoversRatio;
    var costs := CostsOf(rec, AllMethods(), c.0, c.1, c.2);
    var r, best := Charge(costs, pick), Cheapest(costs).1;
    CostsAreFeasible(rec, c);
    CheapestIsLeast(rec, c);
    if Feasible(rec, pick, c) {
      var i :| 0 <= i < |costs| && costs[i] == (pick, CostAt(rec, pick, c));
      FeasibleCharge(costs, i);
    } else {
      if CostOf(costs, pick).Some? {
        CostOfMember(costs, pick);
      }
      var w := InfeasibleCharge(costs, pick);
      assert Feasible(rec, costs[w].0, c);
    }
    assert IsExcess(rec, c, pick, r, best);
  }

  /** `at` lists the cells in which some method is feasible. */
  ghost predicate FeasibleAt(rec: Rec, cells: seq<VolumeCell>, at: seq<nat>) {
    && (forall p, q :: 0 <= p < q < |at| ==> at[p] < at[q])
    && (forall p :: 0 <= p < |at| ==> at[p] < |cells|)
    && forall i :: 0 <= i < |cells| ==> (i in at <==> exists m :: Feasible(rec, m, cells[i]))
  }

  /** The method drawn in a cell: a position among the feasible ones. */
  ghost predicate IsDrawn(rec: Rec, c: VolumeCell, draw: nat, m: string) {
    var costs := CostsOf(rec, AllMethods(), c.0, c.1, c.2);
    Feasible(rec, m, c) && costs != [] && m == costs[draw % |costs|].0
  }

  /** What the five lists hold for one cell, at position p. */
  ghost predicate CellRecorded(fit: Fit, rec: Rec, c: VolumeCell, draw: nat, r: Regrets, p: nat)
    requires p < |r.fitted| == |r.alwaysHnsw32| == |r.alwaysMode| == |r.random| == |r.oracle|
  {
    && Charged(rec, c, if c.2 < fit.nstarHat then "SuCo" else fit.graphDefault, r.fitted[p])
    && Charged(rec, c, "HNSW32", r.alwaysHnsw32[p])
    && Charged(rec, c, fit.modePick, r.alwaysMode[p])
    && (exists m :: IsDrawn(rec, c, draw, m) && Charged(rec, c, m, r.random[p]))
    && r.oracle[p] == 0.0
  }

  /** Cell by cell: the p-th entry of every list belongs to the p-th feasible cell. */
  ghost predicate Recorded(fit: Fit, rec: Rec, cells: seq<VolumeCell>, draw: nat -> nat, r: Regrets, at: seq<nat>) {
    && FeasibleAt(rec, cells, at)
    && |at| == |r.fitted| == |r.alwaysHnsw32| == |r.alwaysMode| == |r.random| == |r.oracle|
    && forall p :: 0 <= p < |at| ==> CellRecorded(fit, rec, cells[at[p]], draw(at[p]), r, p)
  }

  lemma NewCellRecorded(before: Regrets, fit: Fit, rec: Rec, c: VolumeCell, draw: nat, p: nat)
    requires p == |before.fitted| == |before.alwaysHnsw32| == |before.alwaysMode| == |before.random| == |before.oracle|
    requires CostsOf(rec, AllMethods(), c.0, c.1, c.2) != [] && Positive(CostsOf(rec, AllMethods(), c.0, c.1, c.2))
    ensures var r := Record(before, fit, CostsOf(rec, AllMethods(), c.0, c.1, c.2), c.2, draw);
            && p + 1 == |r.fitted| == |r.alwaysHnsw32| == |r.alwaysMode| == |r.random| == |r.oracle|
            && CellRecorded(fit, rec, c, draw, r, p)
  {
    hide CostsOf, Charge, Cheapest, Feasible, Positive, Charged;
    var costs := CostsOf(rec, AllMethods(), c.0, c.1, c.2);
    CostsAreFeasible(rec, c);
    var drawn := costs[draw % |costs|].0;
    ChargeIsExcess(rec, c, RuleConstant(fit.nstarHat, c.2, fit.graphDefault));
    ChargeIsExcess(rec, c, "HNSW32");
    ChargeIsExcess(rec, c, fit.modePick);
    ChargeIsExcess(rec, c, drawn);
    ChargeLaws(costs, drawn);
    assert IsDrawn(rec, c, draw, drawn);
  }

  lemma CellKept(fit: Fit, rec: Rec, c: VolumeCell, draw: nat, before: Regrets, costs: Costs, n: real, d: nat, p: nat)
    requires p < |before.fitted| == |before.alwaysHnsw32| == |before.alwaysMode| == |before.random| == |before.oracle|
    requires CellRecorded(fit, rec, c, draw, before, p) && costs != [] && Positive(costs)
    ensures var r := Record(before, fit, costs, n, d);
            && p < |r.fitted| == |r.alwaysHnsw32| == |r.alwaysMode| == |r.random| == |r.oracle|
            && CellRecorded(fit, rec, c, draw, r, p)
  {
    hide Charge, Cheapest, Positive, Charged, IsDrawn;
  }

  lemma FeasibleNext(rec: Rec, cells: seq<VolumeCell>, at: seq<nat>, m: nat)
    requires m + 1 == |cells| && FeasibleAt(rec, cells[..m], at)
    ensures var c := cells[m];
            FeasibleAt(rec, cells, if CostsOf(rec, AllMethods(), c.0, c.1, c.2) == [] then at else at + [m])
  {
    hide CostsOf, Feasible;
    CostsAreFeasible(rec, cells[m]);
    assert forall i :: 0 <= i < m ==> cells[..m][i] == cells[i];
  }

  /** What a fold records: at its p-th feasible cell the fitted rule is charged for SuCo below the fitted
      threshold and for the graph default from there on, the other rules for their fixed or drawn picks,
      and the oracle nothing. */
  lemma {:induction false} FoldRecords(fit: Fit, rec: Rec, cells: seq<VolumeCell>, draw: nat -> nat)
    returns (at: seq<nat>)
    requires PositiveCosts(rec, cells)
    ensures Recorded(fit, rec, cells, draw, FoldRegrets(fit, rec, cells, draw), at)
  {
    hide FeasibleAt, CellRecorded, Record, CostsOf, Positive;
    if cells == [] {
      at := [];
      NoFeasible(rec);
    } else {
      var m := |cells| - 1;
      var c := cells[m];
      var costs, before := CostsOf(rec, AllMethods(), c.0, c.1, c.2), FoldRegrets(fit, rec, cells[..m], draw);
      at := FoldRecords(fit, rec, cells[..m], draw);
      FeasibleNext(rec, cells, at, m);
      AtBelow(rec, cells[..m], at);
      if costs != [] {
        forall p | 0 <= p < |at|
          ensures var r := Record(before, fit, costs, c.2, draw(m));
                  && p < |r.fitted| == |r.alwaysHnsw32| == |r.alwaysMode| == |r.random| == |r.oracle|
                  && CellRecorded(fit, rec, cells[at[p]], draw(at[p]), r, p)
        {
          assert cells[..m][at[p]] == cells[at[p]];
          CellKept(fit, rec, cells[at[p]], draw(at[p]), before, costs, c.2, draw(m), p);
        }
        NewCellRecorded(before, fit, rec, c, draw(m), |at|);
        at := at + [m];
      }
    }
  }

  lemma NoFeasible(rec: Rec)
    ensures FeasibleAt(rec, [], [])
  {
  }

  lemma AtBelow(rec: Rec, cells: seq<VolumeCell>, at: seq<nat>)
    requires FeasibleAt(rec, cells, at)
    ensures forall p :: 0 <= p < |at| ==> at[p] < |cells|
  {
  }

  // ---------- all folds ----------

  /** What evaluate_rules is called with, and what it reads from the globals. */
  datatype Study = Study(data: Data, names: seq<string>, rows: seq<NRow>, cells: seq<Cell>,
                         volumeCells: seq<VolumeCell>, median: seq<real> -> real, draw: (string, nat) -> nat)

  ghost predicate ValidStudy(st: Study) {
    forall n :: n in st.names ==> n in st.data && PositiveCosts(st.data[n], st.volumeCells)
  }

  function FitOf(st: Study, n: string): Option<Fit>
    requires ValidStudy(st)
  {
    FitFold(st.data, st.names, st.rows, st.cells, st.volumeCells, n, st.median)
  }

  function ResultOf(st: Study, n: string): Regrets
    requires ValidStudy(st) && n in st.names
  {
    match FitOf(st, n)
    case None => Regrets([], [], [], [], [])
    case Some(fit) => FoldRegrets(fit, st.data[n], st.volumeCells, DrawsOf(st, n))
  }

  /** The draws of one fold, cell by cell. */
  function DrawsOf(st: Study, n: string): (d: nat -> nat)
    ensures forall j: nat :: d(j) == st.draw(n, j)
  {
    j => st.draw(n, j)
  }

  /** A held-out dataset's lists hold the charges of its feasible cells, and nothing if its fold is skipped. */
  ghost predicate Explained(st: Study, n: string, r: Regrets)
    requires ValidStudy(st) && n in st.names
  {
    match FitOf(st, n)
    case None => r == Regrets([], [], [], [], [])
    case Some(fit) => exists at :: Recorded(fit, st.data[n], st.volumeCells, DrawsOf(st, n), r, at)
  }

  lemma ResultIsExplained(st: Study, n: string)
    requires ValidStudy(st) && n in st.names
    ensures Explained(st, n, ResultOf(st, n))
  {
    hide FoldRegrets, PositiveCosts, FitFold, Recorded;
    if FitOf(st, n).Some? {
      var at := FoldRecords(FitOf(st, n).value, st.data[n], st.volumeCells, DrawsOf(st, n));
    }
  }

  /** Feasible cells that a fold contributes. */
  function CellsOf(st: Study, n: string): nat
    requires ValidStudy(st) && n in st.names
  {
    if FitOf(st, n).None? then 0 else FeasibleCells(st.data[n], st.volumeCells)
  }

  function CellTotal(st: Study, ns: seq<string>): nat
    requires ValidStudy(st) && forall n :: n in ns ==> n in st.names
  {
    if ns == [] then 0 else CellTotal(st, ns[..|ns| - 1]) + CellsOf(st, ns[|ns| - 1])
  }

  /** All cells of all folds that are not skipped. */
  function VisitTotal(st: Study, ns: seq<string>): nat
    requires ValidStudy(st) && forall n :: n in ns ==> n in st.names
  {
    if ns == [] then 0
    else VisitTotal(st, ns[..|ns| - 1]) + if FitOf(st, ns[|ns| - 1]).None? then 0 else |st.volumeCells|
  }

  /** One regret a counted cell and rule, none negative, and none at all for the oracle. */
  ghost predicate Lawful(r: Regrets, m: nat) {
    && |r.fitted| == |r.alwaysHnsw32| == |r.alwaysMode| == |r.random| == |r.oracle| == m
    && NonNegative(r.fitted) && NonNegative(r.alwaysHnsw32) && NonNegative(r.alwaysMode) && NonNegative(r.random)
    && forall i :: 0 <= i < m ==> r.oracle[i] == 0.0
  }

  lemma ResultIsLawful(st: Study, n: string)
    requires ValidStudy(st) && n in st.names
    ensures Lawful(ResultOf(st, n), CellsOf(st, n))
  {
    hide FoldRegrets, FeasibleCells, PositiveCosts, FitFold;
    if FitOf(st, n).Some? {
      FoldLaws(FitOf(st, n).value, st.data[n], st.volumeCells, DrawsOf(st, n));
    }
  }

  /** The body of the loop over the held-out datasets. */
  method EvaluateHeld(st: Study, held: string) returns (regrets: Regrets, nCells: nat, nInfeasible: nat)
    requires ValidStudy(st) && held in st.names
    ensures regrets == ResultOf(st, held) && Lawful(regrets, CellsOf(st, held)) && Explained(st, held, regrets)
    ensures nCells == CellsOf(st, held)
    ensures nCells + nInfeasible == if FitOf(st, held).None? then 0 else |st.volumeCells|
  {
    hide FoldRegrets, FeasibleCells, PositiveCosts, FitFold, Lawful, Explained, DrawsOf;
    ResultIsLawful(st, held);
    ResultIsExplained(st, held);
    regrets, nCells, nInfeasible := Regrets([], [], [], [], []), 0, 0;
    var fit := FitHeld(st.data, st.names, st.rows, st.cells, st.volumeCells, held, st.median);
    if fit.Some? {
      regrets, nCells, nInfeasible := EvaluateFold(fit.value, st.data[held], st.volumeCells, DrawsOf(st, held));
    }
  }

  /** evaluate_rules: every dataset is held out once; the two counters add up over the folds. */
  method EvaluateRules(st: Study) returns (perDs: map<string, Regrets>, nCells: nat, nInfeasible: nat)
    requires ValidStudy(st)
    ensures perDs.Keys == set n | n in st.names
    ensures forall n :: n in st.names ==> perDs[n] == ResultOf(st, n) && Lawful(perDs[n], CellsOf(st, n))
    ensures forall n :: n in st.names ==> Explained(st, n, perDs[n])
    ensures nCells == CellTotal(st, st.names)
    ensures nCells + nInfeasible == VisitTotal(st, st.names)
  {
    hide ResultOf, CellsOf, Lawful, Explained, FitOf, ValidStudy;
    var names := st.names;
    perDs, nCells, nInfeasible := map[], 0, 0;
    for i := 0 to |names|
      invariant perDs.Keys == set n | n in names[..i]
      invariant forall n :: n in names[..i] ==> perDs[n] == ResultOf(st, n) && Lawful(perDs[n], CellsOf(st, n))
      invariant forall n :: n in names[..i] ==> Explained(st, n, perDs[n])
      invariant nCells == CellTotal(st, names[..i])
      invariant nCells + nInfeasible == VisitTotal(st, names[..i])
    {
      var held := names[i];
      assert names[..i + 1] == names[..i] + [held] && names[..i + 1][..i] == names[..i];
      var regrets, c, d := EvaluateHeld(st, held);
      nCells, nInfeasible := nCells + c, nInfeasible + d;
      perDs := perDs[held := regrets];
    }
    assert names[..|names|] == names;
  }
}

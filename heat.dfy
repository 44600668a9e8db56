/** The explicit heat-flow scheme of simulate, as functions on the cell array:
    the delta pass (every interior cell's pending change, computed from the
    temperatures before the step), the apply pass (temp += delta on interior
    cells) and the stop predicate. Temperatures are real numbers. */
module Heat {
  import opened Grid

  datatype Material = Pan | Brownie

  /** One grid cell (struct pan). The struct's conductivity field is never read
      or written by the program and is not modelled. */
  datatype Cell = Cell(temp: real, delta: real, mass: real, diffusivity: real, mat: Material)

  /** The scalar fields of struct application that the simulation uses. Lengths
      are in metres (already divided by 1000 from the configuration's mm). */
  datatype Config = Config(
    divperlength: nat, divperwidth: nat,
    panlength: real, panwidth: real, pandepth: real,
    divlength: real, divwidth: real,
    timestep: real, totalmass: real,
    airtemp: real, contactres: real, tempDone: real)

  /** A cell array that holds exactly one cell per grid position. */
  predicate Shaped(cells: seq<Cell>, cfg: Config)
  {
    |cells| == cfg.divperlength * cfg.divperwidth
  }

  /** The cell at grid position (x, y). */
  function At(cells: seq<Cell>, cfg: Config, x: int, y: int): Cell
    requires Shaped(cells, cfg) && InGrid(cfg.divperlength, cfg.divperwidth, x, y)
  {
    CoordInRange(cfg.divperlength, cfg.divperwidth, x, y);
    cells[PanCoord(cfg.divperlength, x, y)]
  }

  /** The k-th neighbour of an interior cell, in the order of the source's
      `adjacents` array: left, right, then the two along the width. */
  function Neighbour(cells: seq<Cell>, cfg: Config, i: int, j: int, k: int): Cell
    requires Shaped(cells, cfg) && Interior(cfg.divperlength, cfg.divperwidth, i, j) && 0 <= k < 4
  {
    if k == 0 then At(cells, cfg, i - 1, j)
    else if k == 1 then At(cells, cfg, i + 1, j)
    else if k == 2 then At(cells, cfg, i, j - 1)
    else At(cells, cfg, i, j + 1)
  }

  /** The face length used for the k-th neighbour (`lengths[k]`). */
  function FaceLength(cfg: Config, k: int): real
  {
    if k < 2 then cfg.divlength else cfg.divwidth
  }

  /** The thermal resistance between a cell and its k-th neighbour is defined
      and nonzero (so that the source's divisions are divisions of reals). */
  predicate LinkDefined(cells: seq<Cell>, cfg: Config, i: int, j: int, k: int)
    requires Shaped(cells, cfg) && Interior(cfg.divperlength, cfg.divperwidth, i, j) && 0 <= k < 4
  {
    Conductive(cfg, At(cells, cfg, i, j), Neighbour(cells, cfg, i, j, k), FaceLength(cfg, k))
  }

  ghost predicate FlowsDefined(cells: seq<Cell>, cfg: Config)
  {
    Shaped(cells, cfg) &&
    forall i, j, k :: Interior(cfg.divperlength, cfg.divperwidth, i, j) && 0 <= k < 4 ==>
      LinkDefined(cells, cfg, i, j, k)
  }

  /** The resistance in series between cells c and n across a face of the given
      length is defined and nonzero. */
  predicate Conductive(cfg: Config, c: Cell, n: Cell, len: real)
  {
    c.diffusivity != 0.0 && n.diffusivity != 0.0 && cfg.contactres != 0.0 &&
    len / c.diffusivity + len / n.diffusivity + 1.0 / cfg.contactres != 0.0
  }

  /** The source's heatflow between cell c and neighbour n across a face of
      the given length: their temperature difference over the resistance in
      series. */
  function HeatFlow(cfg: Config, c: Cell, n: Cell, len: real): (r: real)
    requires Conductive(cfg, c, n, len)
  {
    (n.temp - c.temp) / (len / c.diffusivity + len / n.diffusivity + 1.0 / cfg.contactres)
  }

  /** Heat that cell c receives from cell n across a face of the given length:
      the heatflow times the face length and the pan depth. */
  function Conducted(cfg: Config, c: Cell, n: Cell, len: real): real
    requires Conductive(cfg, c, n, len)
  {
    HeatFlow(cfg, c, n, len) * len * cfg.pandepth
  }

  /** Heat and resistance read only the temperatures and diffusivities of the
      two cells. */
  lemma ConductionReadsOnlyFields(cfg: Config, c: Cell, n: Cell, c2: Cell, n2: Cell, len: real)
    requires Conductive(cfg, c, n, len)
    requires c2.temp == c.temp && c2.diffusivity == c.diffusivity
    requires n2.temp == n.temp && n2.diffusivity == n.diffusivity
    ensures Conductive(cfg, c2, n2, len) && HeatFlow(cfg, c2, n2, len) == HeatFlow(cfg, c, n, len)
    ensures Conducted(cfg, c2, n2, len) == Conducted(cfg, c, n, len)
  {
  }

  /** Exchange of a cell with the surrounding air. */
  function AirTerm(cfg: Config, c: Cell): (r: real)
  {
    (cfg.airtemp - c.temp) * cfg.divlength * cfg.divwidth * cfg.contactres
  }

  /** Heat received by interior cell (i, j) from its k-th neighbour. */
  function Flow(cells: seq<Cell>, cfg: Config, i: int, j: int, k: int): real
    requires Shaped(cells, cfg) && Interior(cfg.divperlength, cfg.divperwidth, i, j) && 0 <= k < 4
    requires LinkDefined(cells, cfg, i, j, k)
  {
    Conducted(cfg, At(cells, cfg, i, j), Neighbour(cells, cfg, i, j, k), FaceLength(cfg, k))
  }

  /** The delta accumulated after the first k neighbours. */
  function FlowSum(cells: seq<Cell>, cfg: Config, i: int, j: int, k: nat): real
    requires FlowsDefined(cells, cfg) && Interior(cfg.divperlength, cfg.divperwidth, i, j) && k <= 4
  {
    if k == 0 then 0.0 else FlowSum(cells, cfg, i, j, k - 1) + Flow(cells, cfg, i, j, k - 1)
  }

  /** One more neighbour added to the running sum, seen through the flat
      indices of the cell and of its k-th neighbour. */
  lemma FlowSumNext(cells: seq<Cell>, cfg: Config, i: int, j: int, k: nat, coord: int, adjacent: int, len: real)
    requires FlowsDefined(cells, cfg) && Interior(cfg.divperlength, cfg.divperwidth, i, j) && k < 4
    requires coord == PanCoord(cfg.divperlength, i, j) && adjacent == NeighbourCoord(cfg.divperlength, i, j, k)
    requires len == FaceLength(cfg, k)
    ensures 0 <= coord < |cells| && 0 <= adjacent < |cells| && coord != adjacent
    ensures Conductive(cfg, cells[coord], cells[adjacent], len)
    ensures Accumulates(cfg, cells[coord], cells[adjacent], len, FlowSum(cells, cfg, i, j, k), FlowSum(cells, cfg, i, j, k + 1))
  {
    NeighboursInBounds(cfg.divperlength, cfg.divperwidth, i, j);
    assert LinkDefined(cells, cfg, i, j, k);
    assert Neighbour(cells, cfg, i, j, k) == cells[adjacent];
  }

  /** s1 is the running sum s0 with the heat cell c receives from n added. */
  predicate Accumulates(cfg: Config, c: Cell, n: Cell, len: real, s0: real, s1: real)
    requires Conductive(cfg, c, n, len)
  {
    s1 == s0 + Conducted(cfg, c, n, len)
  }

  /** One round of simulate's neighbour loop on the whole array: with the
      cell's delta holding the running sum s0, adding the neighbour's heatflow
      stores s1, the sum with that neighbour's flow added. Nothing else in the
      array changes. */
  lemma AccumulateNext(pre: seq<Cell>, cur: seq<Cell>, cfg: Config, coord: int, adjacent: int, len: real,
                       flow: real, s0: real, s1: real)
    requires 0 <= coord < |pre| && 0 <= adjacent < |pre| && coord != adjacent
    requires Conductive(cfg, pre[coord], pre[adjacent], len)
    requires cur == pre[coord := pre[coord].(delta := s0)]
    requires flow == Conducted(cfg, pre[coord], pre[adjacent], len)
    requires Accumulates(cfg, pre[coord], pre[adjacent], len, s0, s1)
    ensures cur[coord := cur[coord].(delta := cur[coord].delta + flow)] == pre[coord := pre[coord].(delta := s1)]
  {
    assert cur[coord].delta + flow == s1;
    var updated := pre[coord].(delta := s1);
    assert cur[coord].(delta := s1) == updated;
  }

  /** Exchange with the surrounding air, added once per cell. */
  function AirExchange(cells: seq<Cell>, cfg: Config, i: int, j: int): real
    requires Shaped(cells, cfg) && Interior(cfg.divperlength, cfg.divperwidth, i, j)
  {
    AirTerm(cfg, At(cells, cfg, i, j))
  }

  /** The delta the first pass computes for interior cell (i, j). */
  function CellDelta(cells: seq<Cell>, cfg: Config, i: int, j: int): real
    requires FlowsDefined(cells, cfg) && Interior(cfg.divperlength, cfg.divperwidth, i, j)
  {
    FlowSum(cells, cfg, i, j, 4) + AirExchange(cells, cfg, i, j)
  }

  /** Cell c of the array after the delta pass. */
  function DeltaUpdated(cells: seq<Cell>, cfg: Config, c: int): Cell
    requires FlowsDefined(cells, cfg) && 0 <= c < |cells|
  {
    var L, W := cfg.divperlength, cfg.divperwidth;
    CoordOnto(L, W, c);
    if Interior(L, W, c % L, c / L) then cells[c].(delta := CellDelta(cells, cfg, c % L, c / L))
    else cells[c]
  }

  /** The first phase of simulate: every interior cell's delta, from the
      temperatures as they were before the step. It writes only delta fields,
      and those only of interior cells. */
  function DeltaPass(cells: seq<Cell>, cfg: Config): (r: seq<Cell>)
    requires FlowsDefined(cells, cfg)
    ensures |r| == |cells|
    ensures forall c :: 0 <= c < |cells| ==> r[c] == cells[c].(delta := r[c].delta)
    ensures FixedOffInterior(cells, r, cfg.divperlength, cfg.divperwidth)
  {
    seq(|cells|, c requires 0 <= c < |cells| => DeltaUpdated(cells, cfg, c))
  }

  /** Cell c of the array after the apply pass. */
  function Applied(cells: seq<Cell>, cfg: Config, c: int): Cell
    requires Shaped(cells, cfg) && 0 <= c < |cells|
  {
    var L, W := cfg.divperlength, cfg.divperwidth;
    CoordOnto(L, W, c);
    if Interior(L, W, c % L, c / L) then cells[c].(temp := cells[c].temp + cells[c].delta)
    else cells[c]
  }

  /** The second phase of simulate: interior cells take their delta. It writes
      only temp fields. */
  function ApplyPass(cells: seq<Cell>, cfg: Config): (r: seq<Cell>)
    requires Shaped(cells, cfg)
    ensures |r| == |cells|
    ensures forall c :: 0 <= c < |cells| ==> r[c] == cells[c].(temp := r[c].temp)
    ensures FixedOffInterior(cells, r, cfg.divperlength, cfg.divperwidth)
  {
    seq(|cells|, c requires 0 <= c < |cells| => Applied(cells, cfg, c))
  }

  /** One full step of simulate on the cell array. It writes only the delta
      and temp fields of interior cells, so the resistances stay defined and
      the next step can be taken. */
  function Step(cells: seq<Cell>, cfg: Config): (r: seq<Cell>)
    requires FlowsDefined(cells, cfg)
    ensures |r| == |cells|
    ensures forall c :: 0 <= c < |cells| ==> r[c] == cells[c].(delta := r[c].delta, temp := r[c].temp)
    ensures FixedOffInterior(cells, r, cfg.divperlength, cfg.divperwidth)
    ensures FlowsDefined(r, cfg)
  {
    var r := ApplyPass(DeltaPass(cells, cfg), cfg);
    assert SameDiffusivity(cells, r);
    FlowsDefinedByDiffusivity(cells, r, cfg);
    r
  }

  /** The stop predicate: every interior cell has reached tempDone. */
  ghost predicate AllDone(cells: seq<Cell>, cfg: Config)
    requires Shaped(cells, cfg)
  {
    forall x, y :: Interior(cfg.divperlength, cfg.divperwidth, x, y) ==> At(cells, cfg, x, y).temp >= cfg.tempDone
  }

  /** The stop test restricted to the interior cells that the apply loops have
      visited before (i, j). */
  ghost predicate DoneBefore(cells: seq<Cell>, cfg: Config, i: int, j: int)
    requires Shaped(cells, cfg)
  {
    forall x, y :: Interior(cfg.divperlength, cfg.divperwidth, x, y) && Visited(x, y, i, j) ==>
      At(cells, cfg, x, y).temp >= cfg.tempDone
  }

  /** Visiting interior cell (i, j) adds exactly its own test to the conjunction. */
  lemma DoneBeforeStep(cells: seq<Cell>, cfg: Config, i: int, j: int)
    requires Shaped(cells, cfg) && Interior(cfg.divperlength, cfg.divperwidth, i, j)
    ensures DoneBefore(cells, cfg, i, j + 1) <==>
      DoneBefore(cells, cfg, i, j) && At(cells, cfg, i, j).temp >= cfg.tempDone
  {
  }

  /** Two loop positions that have visited the same interior cells give the
      same partial test. */
  lemma DoneBeforeMove(cells: seq<Cell>, cfg: Config, i: int, j: int, i2: int, j2: int)
    requires Shaped(cells, cfg)
    requires forall x, y :: Interior(cfg.divperlength, cfg.divperwidth, x, y) ==>
      (Visited(x, y, i, j) <==> Visited(x, y, i2, j2))
    ensures DoneBefore(cells, cfg, i, j) <==> DoneBefore(cells, cfg, i2, j2)
  {
  }

  /** Once every interior cell is visited the partial test is the stop predicate. */
  lemma DoneBeforeAll(cells: seq<Cell>, cfg: Config, i: int, j: int)
    requires Shaped(cells, cfg)
    requires forall x, y :: Interior(cfg.divperlength, cfg.divperwidth, x, y) ==> Visited(x, y, i, j)
    ensures DoneBefore(cells, cfg, i, j) <==> AllDone(cells, cfg)
  {
  }

  // ---------------------------------------------------------------------------
  // Properties of the scheme

  /** Two arrays that agree on every temperature and diffusivity. */
  ghost predicate SameConduction(a: seq<Cell>, b: seq<Cell>)
  {
    |a| == |b| &&
    forall c :: 0 <= c < |a| ==> a[c].temp == b[c].temp && a[c].diffusivity == b[c].diffusivity
  }

  lemma {:induction false} FlowSumReadsOnlyConduction(a: seq<Cell>, b: seq<Cell>, cfg: Config, i: int, j: int, k: nat)
    requires FlowsDefined(a, cfg) && FlowsDefined(b, cfg) && SameConduction(a, b)
    requires Interior(cfg.divperlength, cfg.divperwidth, i, j) && k <= 4
    ensures FlowSum(a, cfg, i, j, k) == FlowSum(b, cfg, i, j, k)
  {
    if k > 0 {
      FlowSumReadsOnlyConduction(a, b, cfg, i, j, k - 1);
      NeighboursInBounds(cfg.divperlength, cfg.divperwidth, i, j);
    }
  }

  /** The delta of a cell depends on nothing but temperatures and diffusivities:
      in particular not on any delta already written, so computing the deltas in
      place, one cell after another, reads only pre-step values. */
  lemma DeltaReadsOnlyConduction(a: seq<Cell>, b: seq<Cell>, cfg: Config, i: int, j: int)
    requires FlowsDefined(a, cfg) && SameConduction(a, b)
    requires Interior(cfg.divperlength, cfg.divperwidth, i, j)
    ensures FlowsDefined(b, cfg)
    ensures CellDelta(a, cfg, i, j) == CellDelta(b, cfg, i, j)
  {
    assert SameDiffusivity(a, b);
    FlowsDefinedByDiffusivity(a, b, cfg);
    FlowSumReadsOnlyConduction(a, b, cfg, i, j, 4);
    NeighboursInBounds(cfg.divperlength, cfg.divperwidth, i, j);
  }

  /** Two arrays that agree on every diffusivity. */
  ghost predicate SameDiffusivity(a: seq<Cell>, b: seq<Cell>)
  {
    |a| == |b| && forall c :: 0 <= c < |a| ==> a[c].diffusivity == b[c].diffusivity
  }

  /** Whether the resistances are defined depends only on the diffusivities. */
  lemma FlowsDefinedByDiffusivity(a: seq<Cell>, b: seq<Cell>, cfg: Config)
    requires FlowsDefined(a, cfg) && SameDiffusivity(a, b)
    ensures FlowsDefined(b, cfg)
  {
    forall i, j, k | Interior(cfg.divperlength, cfg.divperwidth, i, j) && 0 <= k < 4
      ensures LinkDefined(b, cfg, i, j, k)
    {
      assert LinkDefined(a, cfg, i, j, k);
      NeighboursInBounds(cfg.divperlength, cfg.divperwidth, i, j);
    }
  }

  /** Running the delta pass again on its own output gives the same array: the
      pass never reads what it writes. */
  lemma DeltaPassIdempotent(cells: seq<Cell>, cfg: Config)
    requires FlowsDefined(cells, cfg)
    ensures FlowsDefined(DeltaPass(cells, cfg), cfg)
    ensures DeltaPass(DeltaPass(cells, cfg), cfg) == DeltaPass(cells, cfg)
  {
    var d := DeltaPass(cells, cfg);
    assert SameConduction(cells, d) && SameDiffusivity(cells, d);
    FlowsDefinedByDiffusivity(cells, d, cfg);
    var L, W := cfg.divperlength, cfg.divperwidth;
    forall c | 0 <= c < |d|
      ensures DeltaPass(d, cfg)[c] == d[c]
    {
      CoordOnto(L, W, c);
      if Interior(L, W, c % L, c / L) {
        DeltaReadsOnlyConduction(cells, d, cfg, c % L, c / L);
      }
    }
  }

  /** Cell (x, y) after the delta pass: interior cells get their delta, the
      boundary rows and columns are left as they were. */
  lemma DeltaPassAt(cells: seq<Cell>, cfg: Config, x: int, y: int)
    requires FlowsDefined(cells, cfg) && InGrid(cfg.divperlength, cfg.divperwidth, x, y)
    ensures Shaped(DeltaPass(cells, cfg), cfg)
    ensures At(DeltaPass(cells, cfg), cfg, x, y) ==
      if Interior(cfg.divperlength, cfg.divperwidth, x, y)
      then At(cells, cfg, x, y).(delta := CellDelta(cells, cfg, x, y))
      else At(cells, cfg, x, y)
  {
    CoordDecode(cfg.divperlength, x, y);
    CoordInRange(cfg.divperlength, cfg.divperwidth, x, y);
  }

  /** The delta of an interior cell, written out over its four neighbours: the
      two along the length across faces of divlength, the two along the width
      across faces of divwidth, plus the exchange with the air. */
  lemma DeltaFormula(cells: seq<Cell>, cfg: Config, i: int, j: int)
    requires FlowsDefined(cells, cfg) && Interior(cfg.divperlength, cfg.divperwidth, i, j)
    ensures
      var c := At(cells, cfg, i, j);
      var left, right := At(cells, cfg, i - 1, j), At(cells, cfg, i + 1, j);
      var down, up := At(cells, cfg, i, j - 1), At(cells, cfg, i, j + 1);
      Conductive(cfg, c, left, cfg.divlength) && Conductive(cfg, c, right, cfg.divlength) &&
      Conductive(cfg, c, down, cfg.divwidth) && Conductive(cfg, c, up, cfg.divwidth) &&
      CellDelta(cells, cfg, i, j) ==
        Conducted(cfg, c, left, cfg.divlength) + Conducted(cfg, c, right, cfg.divlength) +
        Conducted(cfg, c, down, cfg.divwidth) + Conducted(cfg, c, up, cfg.divwidth) +
        (cfg.airtemp - c.temp) * cfg.divlength * cfg.divwidth * cfg.contactres
  {
    FlowsWrittenOut(cells, cfg, i, j);
    FlowSumWrittenOut(cells, cfg, i, j);
    var c := At(cells, cfg, i, j);
    var air := AirExchange(cells, cfg, i, j);
    assert air == AirTerm(cfg, c);
    assert CellDelta(cells, cfg, i, j) ==
      Flow(cells, cfg, i, j, 0) + Flow(cells, cfg, i, j, 1) + Flow(cells, cfg, i, j, 2) + Flow(cells, cfg, i, j, 3) + air;
  }

  /** The four flows of an interior cell, one per neighbour. */
  lemma FlowsWrittenOut(cells: seq<Cell>, cfg: Config, i: int, j: int)
    requires FlowsDefined(cells, cfg) && Interior(cfg.divperlength, cfg.divperwidth, i, j)
    ensures
      var c := At(cells, cfg, i, j);
      var left, right := At(cells, cfg, i - 1, j), At(cells, cfg, i + 1, j);
      var down, up := At(cells, cfg, i, j - 1), At(cells, cfg, i, j + 1);
      Conductive(cfg, c, left, cfg.divlength) && Conductive(cfg, c, right, cfg.divlength) &&
      Conductive(cfg, c, down, cfg.divwidth) && Conductive(cfg, c, up, cfg.divwidth) &&
      Flow(cells, cfg, i, j, 0) == Conducted(cfg, c, left, cfg.divlength) &&
      Flow(cells, cfg, i, j, 1) == Conducted(cfg, c, right, cfg.divlength) &&
      Flow(cells, cfg, i, j, 2) == Conducted(cfg, c, down, cfg.divwidth) &&
      Flow(cells, cfg, i, j, 3) == Conducted(cfg, c, up, cfg.divwidth)
  {
    NeighboursInBounds(cfg.divperlength, cfg.divperwidth, i, j);
    assert LinkDefined(cells, cfg, i, j, 0) && LinkDefined(cells, cfg, i, j, 1);
    assert LinkDefined(cells, cfg, i, j, 2) && LinkDefined(cells, cfg, i, j, 3);
  }

  /** The running sum after all four neighbours. */
  lemma FlowSumWrittenOut(cells: seq<Cell>, cfg: Config, i: int, j: int)
    requires FlowsDefined(cells, cfg) && Interior(cfg.divperlength, cfg.divperwidth, i, j)
    ensures forall k :: 0 <= k < 4 ==> LinkDefined(cells, cfg, i, j, k)
    ensures FlowSum(cells, cfg, i, j, 4) ==
      Flow(cells, cfg, i, j, 0) + Flow(cells, cfg, i, j, 1) + Flow(cells, cfg, i, j, 2) + Flow(cells, cfg, i, j, 3)
  {
    assert FlowSum(cells, cfg, i, j, 1) == Flow(cells, cfg, i, j, 0);
    assert FlowSum(cells, cfg, i, j, 2) == FlowSum(cells, cfg, i, j, 1) + Flow(cells, cfg, i, j, 1);
    assert FlowSum(cells, cfg, i, j, 3) == FlowSum(cells, cfg, i, j, 2) + Flow(cells, cfg, i, j, 2);
  }

  /** A step ends the simulation exactly when every interior cell's old
      temperature plus its new delta reaches tempDone. */
  lemma StepDoneIff(cells: seq<Cell>, cfg: Config)
    requires FlowsDefined(cells, cfg)
    ensures Shaped(Step(cells, cfg), cfg)
    ensures AllDone(Step(cells, cfg), cfg) <==>
      forall x, y :: Interior(cfg.divperlength, cfg.divperwidth, x, y) ==>
        At(cells, cfg, x, y).temp + CellDelta(cells, cfg, x, y) >= cfg.tempDone
  {
    forall x, y | Interior(cfg.divperlength, cfg.divperwidth, x, y)
      ensures At(Step(cells, cfg), cfg, x, y).temp == At(cells, cfg, x, y).temp + CellDelta(cells, cfg, x, y)
    {
      StepAt(cells, cfg, x, y);
    }
  }

  /** Cell (x, y) after the apply pass: interior cells add their delta to their
      temperature, boundary cells are left as they were. */
  lemma ApplyPassAt(cells: seq<Cell>, cfg: Config, x: int, y: int)
    requires Shaped(cells, cfg) && InGrid(cfg.divperlength, cfg.divperwidth, x, y)
    ensures Shaped(ApplyPass(cells, cfg), cfg)
    ensures At(ApplyPass(cells, cfg), cfg, x, y) ==
      if Interior(cfg.divperlength, cfg.divperwidth, x, y)
      then At(cells, cfg, x, y).(temp := At(cells, cfg, x, y).temp + At(cells, cfg, x, y).delta)
      else At(cells, cfg, x, y)
  {
    CoordDecode(cfg.divperlength, x, y);
    CoordInRange(cfg.divperlength, cfg.divperwidth, x, y);
  }

  /** One step seen from cell (x, y): an interior cell stores its delta and
      adds it to its temperature; mass, diffusivity and material never change,
      and boundary cells keep everything. */
  lemma StepAt(cells: seq<Cell>, cfg: Config, x: int, y: int)
    requires FlowsDefined(cells, cfg) && InGrid(cfg.divperlength, cfg.divperwidth, x, y)
    ensures Shaped(Step(cells, cfg), cfg)
    ensures At(Step(cells, cfg), cfg, x, y) ==
      if Interior(cfg.divperlength, cfg.divperwidth, x, y)
      then var c, d := At(cells, cfg, x, y), CellDelta(cells, cfg, x, y);
           c.(delta := d, temp := c.temp + d)
      else At(cells, cfg, x, y)
  {
    DeltaPassAt(cells, cfg, x, y);
    ApplyPassAt(DeltaPass(cells, cfg), cfg, x, y);
  }

  lemma {:induction false} FlowSumAtRest(cells: seq<Cell>, cfg: Config, i: int, j: int, k: nat)
    requires FlowsDefined(cells, cfg) && Interior(cfg.divperlength, cfg.divperwidth, i, j) && k <= 4
    requires forall c :: 0 <= c < |cells| ==> cells[c].temp == cfg.airtemp
    ensures FlowSum(cells, cfg, i, j, k) == 0.0
  {
    if k > 0 {
      FlowSumAtRest(cells, cfg, i, j, k - 1);
      NeighboursInBounds(cfg.divperlength, cfg.divperwidth, i, j);
      var c, n, len := At(cells, cfg, i, j), Neighbour(cells, cfg, i, j, k - 1), FaceLength(cfg, k - 1);
      assert LinkDefined(cells, cfg, i, j, k - 1);
      assert n.temp - c.temp == 0.0;
      var r := len / c.diffusivity + len / n.diffusivity + 1.0 / cfg.contactres;
      assert (n.temp - c.temp) / r == 0.0;
      assert Flow(cells, cfg, i, j, k - 1) == 0.0;
    }
  }

  /** No flow at equilibrium: when every cell is at the air temperature, every
      interior delta is zero and a step leaves every temperature unchanged. */
  lemma Equilibrium(cells: seq<Cell>, cfg: Config)
    requires FlowsDefined(cells, cfg)
    requires forall c :: 0 <= c < |cells| ==> cells[c].temp == cfg.airtemp
    ensures forall x, y :: Interior(cfg.divperlength, cfg.divperwidth, x, y) ==> CellDelta(cells, cfg, x, y) == 0.0
    ensures forall c :: 0 <= c < |cells| ==> Step(cells, cfg)[c].temp == cells[c].temp
  {
    var L, W := cfg.divperlength, cfg.divperwidth;
    forall x, y | Interior(L, W, x, y)
      ensures CellDelta(cells, cfg, x, y) == 0.0
    {
      FlowSumAtRest(cells, cfg, x, y, 4);
      CoordInRange(L, W, x, y);
    }
    forall c | 0 <= c < |cells|
      ensures Step(cells, cfg)[c].temp == cells[c].temp
    {
      CoordOnto(L, W, c);
      StepAt(cells, cfg, c % L, c / L);
    }
  }

  /** With no interior cell (a grid at most two cells long or wide) the stop
      predicate holds at once. */
  lemma DoneWithoutInterior(cells: seq<Cell>, cfg: Config)
    requires Shaped(cells, cfg) && (cfg.divperlength <= 2 || cfg.divperwidth <= 2)
    ensures AllDone(cells, cfg)
  {
  }

  /** What one cell gains across a face the other loses: the exchange between
      two cells is antisymmetric (conservation between each pair of neighbours;
      the program itself only ever applies one side of a pair that touches the
      boundary). */
  lemma ConductionAntisymmetric(cfg: Config, c: Cell, n: Cell, len: real)
    requires Conductive(cfg, c, n, len)
    ensures Conductive(cfg, n, c, len)
    ensures Conducted(cfg, n, c, len) == -Conducted(cfg, c, n, len)
  {
    var r := len / c.diffusivity + len / n.diffusivity + 1.0 / cfg.contactres;
    assert len / n.diffusivity + len / c.diffusivity + 1.0 / cfg.contactres == r;
    assert (c.temp - n.temp) / r == -((n.temp - c.temp) / r);
  }

  /** With positive dimensions, diffusivities and contact resistance, heat flows
      from the warmer cell to the colder one and not at all between equals. */
  lemma HeatFlowsDownhill(cfg: Config, c: Cell, n: Cell, len: real)
    requires len > 0.0 && cfg.pandepth > 0.0 && cfg.contactres > 0.0
    requires c.diffusivity > 0.0 && n.diffusivity > 0.0
    ensures Conductive(cfg, c, n, len)
    ensures n.temp < c.temp ==> Conducted(cfg, c, n, len) < 0.0
    ensures n.temp > c.temp ==> Conducted(cfg, c, n, len) > 0.0
    ensures n.temp == c.temp ==> Conducted(cfg, c, n, len) == 0.0
  {
    var a, b, e := len / c.diffusivity, len / n.diffusivity, 1.0 / cfg.contactres;
    assert a > 0.0 && b > 0.0 && e > 0.0;
    var r := a + b + e;
    var q := (n.temp - c.temp) / r;
    assert n.temp < c.temp ==> q < 0.0;
    assert n.temp > c.temp ==> q > 0.0;
    assert n.temp == c.temp ==> q == 0.0;
    assert Conducted(cfg, c, n, len) == q * len * cfg.pandepth;
  }

  /** Positive dimensions, diffusivities and contact resistance make every
      resistance in the grid defined and nonzero. */
  lemma FlowsDefinedWhenPositive(cells: seq<Cell>, cfg: Config)
    requires Shaped(cells, cfg)
    requires cfg.contactres > 0.0 && cfg.divlength > 0.0 && cfg.divwidth > 0.0 && cfg.pandepth > 0.0
    requires forall c :: 0 <= c < |cells| ==> cells[c].diffusivity > 0.0
    ensures FlowsDefined(cells, cfg)
  {
    forall i, j, k | Interior(cfg.divperlength, cfg.divperwidth, i, j) && 0 <= k < 4
      ensures LinkDefined(cells, cfg, i, j, k)
    {
      NeighboursInBounds(cfg.divperlength, cfg.divperwidth, i, j);
      HeatFlowsDownhill(cfg, At(cells, cfg, i, j), Neighbour(cells, cfg, i, j, k), FaceLength(cfg, k));
    }
  }

  /** An interior cell warmer than the air and than each of its neighbours,
      under positive parameters, gets a negative delta. */
  lemma WarmestCellCools(cells: seq<Cell>, cfg: Config, i: int, j: int)
    requires FlowsDefined(cells, cfg) && Interior(cfg.divperlength, cfg.divperwidth, i, j)
    requires cfg.contactres > 0.0 && cfg.divlength > 0.0 && cfg.divwidth > 0.0 && cfg.pandepth > 0.0
    requires forall c :: 0 <= c < |cells| ==> cells[c].diffusivity > 0.0
    requires At(cells, cfg, i, j).temp > cfg.airtemp
    requires forall k :: 0 <= k < 4 ==> Neighbour(cells, cfg, i, j, k).temp < At(cells, cfg, i, j).temp
    ensures CellDelta(cells, cfg, i, j) < 0.0
  {
    var c := At(cells, cfg, i, j);
    NeighboursInBounds(cfg.divperlength, cfg.divperwidth, i, j);
    forall k | 0 <= k < 4
      ensures Flow(cells, cfg, i, j, k) < 0.0
    {
      HeatFlowsDownhill(cfg, c, Neighbour(cells, cfg, i, j, k), FaceLength(cfg, k));
    }
    assert FlowSum(cells, cfg, i, j, 1) < 0.0;
    assert FlowSum(cells, cfg, i, j, 2) < 0.0;
    assert FlowSum(cells, cfg, i, j, 3) < 0.0;
    assert FlowSum(cells, cfg, i, j, 4) < 0.0;
    NegativeProduct(cfg.airtemp - c.temp, cfg.divlength, cfg.divwidth, cfg.contactres);
    assert AirExchange(cells, cfg, i, j) < 0.0;
  }

  lemma NegativeProduct(a: real, b: real, c: real, d: real)
    requires a < 0.0 && b > 0.0 && c > 0.0 && d > 0.0
    ensures a * b * c * d < 0.0
  {
    assert a * b < 0.0;
    assert a * b * c < 0.0;
  }

  /** A 3 x 3 pan whose centre is warmer than the air while every other cell is
      at the air temperature: one step cools the centre, and, since only the
      interior is updated, the eight cells around it stay exactly as they were
      (they do not warm up). */
  lemma HotCentreCools(cells: seq<Cell>, cfg: Config)
    requires Shaped(cells, cfg) && cfg.divperlength == 3 && cfg.divperwidth == 3
    requires cfg.contactres > 0.0 && cfg.divlength > 0.0 && cfg.divwidth > 0.0 && cfg.pandepth > 0.0
    requires forall c :: 0 <= c < |cells| ==> cells[c].diffusivity > 0.0
    requires At(cells, cfg, 1, 1).temp > cfg.airtemp
    requires forall x, y :: InGrid(3, 3, x, y) && !(x == 1 && y == 1) ==> At(cells, cfg, x, y).temp == cfg.airtemp
    ensures FlowsDefined(cells, cfg)
    ensures At(Step(cells, cfg), cfg, 1, 1).temp < At(cells, cfg, 1, 1).temp
    ensures forall x, y :: InGrid(3, 3, x, y) && !(x == 1 && y == 1) ==>
      At(Step(cells, cfg), cfg, x, y) == At(cells, cfg, x, y)
  {
    FlowsDefinedWhenPositive(cells, cfg);
    forall k | 0 <= k < 4
      ensures Neighbour(cells, cfg, 1, 1, k).temp < At(cells, cfg, 1, 1).temp
    {
    }
    WarmestCellCools(cells, cfg, 1, 1);
    StepAt(cells, cfg, 1, 1);
    forall x, y | InGrid(3, 3, x, y) && !(x == 1 && y == 1)
      ensures At(Step(cells, cfg), cfg, x, y) == At(cells, cfg, x, y)
    {
      StepAt(cells, cfg, x, y);
    }
  }
}

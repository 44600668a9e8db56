/** The simulation object of panfea.c (struct application) and the operations
    that change it in place: appInit builds it from the header and the mask,
    simulate advances it by one step. */
module Driver {
  import opened Grid
  import opened Heat
  import opened Mask

  class Application {
    /** Number of steps taken so far; unsigned in the source, so it wraps. */
    var iteration: uint32
    const cfg: Config
    /** The cells, one per grid position, indexed by PanCoord. */
    const pan: array<Cell>

    ghost predicate Valid()
    {
      pan.Length == cfg.divperlength * cfg.divperwidth
    }

    constructor (cfg: Config, pan: array<Cell>)
      requires pan.Length == cfg.divperlength * cfg.divperwidth
      ensures Valid() && this.cfg == cfg && this.pan == pan && iteration == 0
    {
      this.cfg := cfg;
      this.pan := pan;
      iteration := 0;
    }

    /** The body of simulate's first double loop for interior cell (i, j): the
        delta is reset, the four neighbour flows are added, then the exchange
        with the air. Only that cell's delta changes. */
    method ComputeCellDelta(i: int, j: int)
      requires Valid() && FlowsDefined(pan[..], cfg) && Interior(cfg.divperlength, cfg.divperwidth, i, j)
      modifies pan
      ensures 0 <= PanCoord(cfg.divperlength, i, j) < pan.Length
      ensures pan[..] == old(pan[..])[PanCoord(cfg.divperlength, i, j) :=
        old(pan[..])[PanCoord(cfg.divperlength, i, j)].(delta := CellDelta(old(pan[..]), cfg, i, j))]
    {
      ghost var pre := pan[..];
      var coord := PanCoord(cfg.divperlength, i, j);
      AccumulateFlows(i, j, coord);
      ghost var before := pan[..];
      pan[coord] := pan[coord].(delta := pan[coord].delta + AirTerm(cfg, pan[coord]));
      assert pan[..] == before[coord := pre[coord].(delta := CellDelta(pre, cfg, i, j))];
    }

    /** The reset and the loop over the four neighbours (in the order of the
        adjacents array) of interior cell (i, j), whose index is coord. */
    method AccumulateFlows(i: int, j: int, coord: int)
      requires Valid() && FlowsDefined(pan[..], cfg) && Interior(cfg.divperlength, cfg.divperwidth, i, j)
      requires coord == PanCoord(cfg.divperlength, i, j)
      modifies pan
      ensures 0 <= coord < pan.Length
      ensures pan[..] == old(pan[..])[coord := old(pan[..])[coord].(delta := FlowSum(old(pan[..]), cfg, i, j, 4))]
    {
      ghost var pre := pan[..];
      CoordInRange(cfg.divperlength, cfg.divperwidth, i, j);
      pan[coord] := pan[coord].(delta := 0.0);
      for k := 0 to 4
        invariant pan[..] == pre[coord := pre[coord].(delta := FlowSum(pre, cfg, i, j, k))]
      {
        var adjacent, len := NeighbourCoord(cfg.divperlength, i, j, k), FaceLength(cfg, k);
        FlowSumNext(pre, cfg, i, j, k, coord, adjacent, len);
        AddNeighbourFlow(pre, coord, adjacent, len, FlowSum(pre, cfg, i, j, k), FlowSum(pre, cfg, i, j, k + 1));
      }
    }

    /** One round of the neighbour loop: the heatflow between the cell at coord
        and the neighbour at adjacent, times the face length and the pan depth,
        is added to the cell's delta, which goes from the running sum s0 to s1. */
    method AddNeighbourFlow(ghost pre: seq<Cell>, coord: int, adjacent: int, len: real, ghost s0: real, ghost s1: real)
      requires 0 <= coord < |pre| && 0 <= adjacent < |pre| && coord != adjacent
      requires Conductive(cfg, pre[coord], pre[adjacent], len)
      requires Accumulates(cfg, pre[coord], pre[adjacent], len, s0, s1)
      requires pan[..] == pre[coord := pre[coord].(delta := s0)]
      modifies pan
      ensures pan[..] == pre[coord := pre[coord].(delta := s1)]
    {
      ghost var cur := pan[..];
      ConductionReadsOnlyFields(cfg, pre[coord], pre[adjacent], cur[coord], cur[adjacent], len);
      var heatflow := HeatFlow(cfg, pan[coord], pan[adjacent], len);
      var flow := heatflow * len * cfg.pandepth;
      AccumulateNext(pre, cur, cfg, coord, adjacent, len, flow, s0, s1);
      pan[coord] := pan[coord].(delta := pan[coord].delta + flow);
    }

    /** Phase one of simulate: every interior cell's delta, computed from the
        temperatures before the step. */
    method ComputeDeltas()
      requires Valid() && FlowsDefined(pan[..], cfg)
      modifies pan
      ensures pan[..] == DeltaPass(old(pan[..]), cfg)
    {
      var L: int, W: int := cfg.divperlength, cfg.divperwidth;
      ghost var pre := pan[..];
      ghost var target := DeltaPass(pre, cfg);
      SweptStart(pre, target, L);
      SweptMove(pan[..], pre, target, L, 0, 0, 1, 1);
      var i := 1;
      while i < L - 1
        invariant 1 <= i && (i <= L - 1 || i == 1)
        invariant SweptTo(pan[..], pre, target, L, i, 1)
      {
        var j := 1;
        while j < W - 1
          invariant 1 <= j && (j <= W - 1 || j == 1)
          invariant SweptTo(pan[..], pre, target, L, i, j)
        {
          ghost var cur := pan[..];
          assert SameConduction(pre, cur);
          DeltaReadsOnlyConduction(pre, cur, cfg, i, j);
          SweptStep(cur, pre, target, L, W, i, j);
          DeltaPassAt(pre, cfg, i, j);
          ComputeCellDelta(i, j);
          assert pan[..] == cur[PanCoord(L, i, j) := target[PanCoord(L, i, j)]];
          j := j + 1;
        }
        SweptMove(pan[..], pre, target, L, i, j, i + 1, 1);
        i := i + 1;
      }
      SweptAll(pan[..], pre, target, L, W, i, 1);
    }

    /** Phase two of simulate: interior cells add their delta to their
        temperature, and the result says whether every one of them has now
        reached tempDone. */
    method ApplyDeltas() returns (done: bool)
      requires Valid()
      modifies pan
      ensures pan[..] == ApplyPass(old(pan[..]), cfg)
      ensures done == AllDone(pan[..], cfg)
    {
      var L: int, W: int := cfg.divperlength, cfg.divperwidth;
      ghost var pre := pan[..];
      ghost var target := ApplyPass(pre, cfg);
      SweptStart(pre, target, L);
      SweptMove(pan[..], pre, target, L, 0, 0, 1, 1);
      done := true;
      var i := 1;
      while i < L - 1
        invariant 1 <= i && (i <= L - 1 || i == 1)
        invariant SweptTo(pan[..], pre, target, L, i, 1)
        invariant done == DoneBefore(target, cfg, i, 1)
      {
        var j := 1;
        while j < W - 1
          invariant 1 <= j && (j <= W - 1 || j == 1)
          invariant SweptTo(pan[..], pre, target, L, i, j)
          invariant done == DoneBefore(target, cfg, i, j)
        {
          SweptStep(pan[..], pre, target, L, W, i, j);
          ApplyPassAt(pre, cfg, i, j);
          DoneBeforeStep(target, cfg, i, j);
          var coord := PanCoord(L, i, j);
          pan[coord] := pan[coord].(temp := pan[coord].temp + pan[coord].delta);
          if pan[coord].temp < cfg.tempDone {
            done := false;
          }
          j := j + 1;
        }
        SweptMove(pan[..], pre, target, L, i, j, i + 1, 1);
        DoneBeforeMove(target, cfg, i, j, i + 1, 1);
        i := i + 1;
      }
      SweptAll(pan[..], pre, target, L, W, i, 1);
      DoneBeforeAll(target, cfg, i, 1);
    }

    /** simulate: one explicit step of the heat equation over the interior,
        then the stop test; the iteration counter goes up by one modulo 2^32. */
    method Simulate() returns (done: bool)
      requires Valid() && FlowsDefined(pan[..], cfg)
      modifies this, pan
      ensures pan[..] == Step(old(pan[..]), cfg) && FlowsDefined(pan[..], cfg)
      ensures done == AllDone(pan[..], cfg)
      ensures iteration == (old(iteration) + 1) % UINT_RANGE
    {
      ComputeDeltas();
      done := ApplyDeltas();
      iteration := (iteration + 1) % UINT_RANGE;
    }
  }

  /** appInit after the header has been read: the cell array is allocated
      (holding whatever the allocator left there, given as prior), the mask is
      decoded into it, and the counter starts at zero. */
  method AppInit(h: Header, mask: seq<char>, prior: seq<Cell>) returns (app: Application, diagnostics: seq<Diagnostic>)
    requires h.divperlength > 0 && h.divperwidth > 0
    requires |prior| == h.divperlength * h.divperwidth
    ensures fresh(app) && fresh(app.pan) && app.Valid()
    ensures app.cfg == ConfigOf(h) && app.iteration == 0
    ensures app.pan[..] == Decoded(prior, mask, h)
    ensures diagnostics == Diagnostics(mask, h.divperlength, h.divperwidth)
  {
    var n := h.divperlength * h.divperwidth;
    var pan := new Cell[n](k requires 0 <= k < n => prior[k]);
    assert pan[..] == prior;
    var pos;
    diagnostics, pos := DecodeMask(pan, mask, h);
    app := new Application(ConfigOf(h), pan);
  }
}

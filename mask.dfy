/** Building the initial pan from the configuration (appInit): the header values
    and the material mask that follows them. The mask is the byte stream left
    after the header: one byte that is skipped, then for each i < divperlength a
    row of divperwidth tag bytes followed by one skipped byte. Tag '0' makes a
    pan cell, tag '1' a brownie cell; the tag of row i, column j goes to cell
    (i, j). */
module Mask {
  import opened Grid
  import opened Heat

  datatype Option<T> = None | Some(value: T)

  /** The header of the configuration file, in the order appInit reads it;
      lengths in millimetres. */
  datatype Header = Header(
    divperlength: nat, divperwidth: nat,
    panlength: real, panwidth: real, pandepth: real,
    timestep: real, airtemp: real, pantemp: real, inittemp: real,
    totalmass: real, contactres: real, diffusivity: real, pandiff: real,
    tempDone: real)

  /** The run's parameters derived from the header: lengths converted to metres
      and split into equal divisions. */
  function ConfigOf(h: Header): (cfg: Config)
    requires h.divperlength > 0 && h.divperwidth > 0
    ensures cfg.divperlength == h.divperlength && cfg.divperwidth == h.divperwidth
    ensures cfg.panlength * 1000.0 == h.panlength && cfg.panwidth * 1000.0 == h.panwidth
    ensures cfg.pandepth * 1000.0 == h.pandepth
    ensures cfg.divlength * (h.divperlength as real) == cfg.panlength
    ensures cfg.divwidth * (h.divperwidth as real) == cfg.panwidth
    ensures cfg.airtemp == h.airtemp && cfg.contactres == h.contactres && cfg.tempDone == h.tempDone
    ensures cfg.timestep == h.timestep && cfg.totalmass == h.totalmass
  {
    var panlength, panwidth := h.panlength / 1000.0, h.panwidth / 1000.0;
    Config(h.divperlength, h.divperwidth,
           panlength, panwidth, h.pandepth / 1000.0,
           panlength / (h.divperlength as real), panwidth / (h.divperwidth as real),
           h.timestep, h.totalmass, h.airtemp, h.contactres, h.tempDone)
  }

  /** The mass given to each brownie cell: the total mass shared over all
      divperlength * divperwidth cells. */
  function CellMass(h: Header): (m: real)
    requires h.divperlength > 0 && h.divperwidth > 0
    ensures m * (h.divperlength as real) * (h.divperwidth as real) == h.totalmass
  {
    h.totalmass / (h.divperlength as real) / (h.divperwidth as real)
  }

  /** Offset in the mask of the tag of cell (i, j): past the first skipped byte
      and i rows of W tags plus their separator. */
  function TagOffset(W: nat, i: nat, j: nat): nat
  {
    1 + i * (W + 1) + j
  }

  /** The byte read for cell (i, j), or None when the read meets the end of the
      input. Once one read fails every later one fails too (the stream stays at
      or past its end), so a read succeeds exactly when its offset lies inside
      the mask. */
  function ReadTag(mask: seq<char>, W: nat, i: nat, j: nat): Option<char>
  {
    var p := TagOffset(W, i, j);
    if p < |mask| then Some(mask[p]) else None
  }

  predicate IsTag(t: Option<char>)
  {
    t == Some('0') || t == Some('1')
  }

  /** The cell after its tag has been read. A pan cell gets material, temperature
      and diffusivity and keeps the rest of what the fresh allocation held; a
      brownie cell also gets delta 0 and its mass; anything else (an unknown
      byte or the end of the input) leaves the cell as it was. */
  function DecodeCell(prior: Cell, tag: Option<char>, h: Header): Cell
    requires h.divperlength > 0 && h.divperwidth > 0
  {
    if tag == Some('0') then
      prior.(mat := Pan, temp := h.pantemp, diffusivity := h.pandiff)
    else if tag == Some('1') then
      prior.(mat := Brownie, temp := h.inittemp, delta := 0.0, mass := CellMass(h), diffusivity := h.diffusivity)
    else prior
  }

  /** The cell array after the mask has been read over prior, the array as
      allocated. Index c holds cell (c % L, c / L). */
  function Decoded(prior: seq<Cell>, mask: seq<char>, h: Header): (r: seq<Cell>)
    requires |prior| == h.divperlength * h.divperwidth
    ensures |r| == |prior|
  {
    var L, W := h.divperlength, h.divperwidth;
    seq(|prior|, c requires 0 <= c < |prior| =>
      CoordOnto(L, W, c);
      DecodeCell(prior[c], ReadTag(mask, W, c % L, c / L), h))
  }

  /** What appInit prints for a cell whose tag is not '0' or '1': the cell, its
      index, and whether the input had ended. */
  datatype Diagnostic = Diagnostic(i: nat, j: nat, coord: int, atEof: bool)

  function DiagnosticFor(mask: seq<char>, L: nat, W: nat, i: nat, j: nat): Diagnostic
  {
    Diagnostic(i, j, PanCoord(L, i, j), ReadTag(mask, W, i, j) == None)
  }

  /** The diagnostics printed for the cells before (i, j) in reading order. */
  function DiagnosticsBefore(mask: seq<char>, L: nat, W: nat, i: nat, j: nat): seq<Diagnostic>
    requires i <= L && j <= W
    decreases i, j
  {
    if j > 0 then
      DiagnosticsBefore(mask, L, W, i, j - 1) +
      (if IsTag(ReadTag(mask, W, i, j - 1)) then [] else [DiagnosticFor(mask, L, W, i, j - 1)])
    else if i > 0 then DiagnosticsBefore(mask, L, W, i - 1, W)
    else []
  }

  /** All diagnostics of a mask, in reading order. */
  function Diagnostics(mask: seq<char>, L: nat, W: nat): seq<Diagnostic>
  {
    DiagnosticsBefore(mask, L, W, L, 0)
  }

  lemma {:induction false} DiagnosticsBeforeExact(mask: seq<char>, L: nat, W: nat, i: nat, j: nat, d: Diagnostic)
    requires i <= L && j <= W && (i == L ==> j == 0)
    ensures d in DiagnosticsBefore(mask, L, W, i, j) <==>
      InGrid(L, W, d.i, d.j) && Visited(d.i, d.j, i, j) &&
      !IsTag(ReadTag(mask, W, d.i, d.j)) && d == DiagnosticFor(mask, L, W, d.i, d.j)
    decreases i, j
  {
    if j > 0 {
      DiagnosticsBeforeExact(mask, L, W, i, j - 1, d);
    } else if i > 0 {
      DiagnosticsBeforeExact(mask, L, W, i - 1, W, d);
    }
  }

  /** A cell is reported exactly when its tag is neither '0' nor '1' (an unknown
      byte, or the end of the input), and each report names a cell of the grid. */
  lemma DiagnosticsExact(mask: seq<char>, L: nat, W: nat, d: Diagnostic)
    ensures d in Diagnostics(mask, L, W) <==>
      InGrid(L, W, d.i, d.j) && !IsTag(ReadTag(mask, W, d.i, d.j)) && d == DiagnosticFor(mask, L, W, d.i, d.j)
  {
    DiagnosticsBeforeExact(mask, L, W, L, 0, d);
  }

  /** The tag of cell (x, y) lands at index panCoord(x, y). */
  lemma DecodedAt(prior: seq<Cell>, mask: seq<char>, h: Header, x: int, y: int)
    requires |prior| == h.divperlength * h.divperwidth
    requires InGrid(h.divperlength, h.divperwidth, x, y)
    ensures 0 <= PanCoord(h.divperlength, x, y) < |prior|
    ensures Decoded(prior, mask, h)[PanCoord(h.divperlength, x, y)] ==
      DecodeCell(prior[PanCoord(h.divperlength, x, y)], ReadTag(mask, h.divperwidth, x, y), h)
  {
    CoordInRange(h.divperlength, h.divperwidth, x, y);
    CoordDecode(h.divperlength, x, y);
  }

  /** The tags sit before the final separator, at offset L*(W+1). */
  lemma TagOffsetBound(L: nat, W: nat, i: nat, j: nat)
    requires InGrid(L, W, i, j)
    ensures TagOffset(W, i, j) < L * (W + 1)
  {
    MulMono(W + 1, i, L - 1);
    assert (W + 1) * (L - 1) == L * (W + 1) - W - 1;
  }

  /** Distinct cells have their tags at distinct offsets, and no tag sits on a
      skipped byte (offset 0 and the offsets k*(W+1), k >= 1): the offset
      determines the row i and the column j. */
  lemma TagOffsetLayout(W: nat, i: nat, j: nat)
    requires j < W
    ensures TagOffset(W, i, j) % (W + 1) == j + 1
    ensures TagOffset(W, i, j) / (W + 1) == i
  {
    assert i * (W + 1) == (W + 1) * i;
    assert TagOffset(W, i, j) == PanCoord(W + 1, j + 1, i);
    CoordDecode(W + 1, j + 1, i);
  }

  /** The row separator sits between the last tag of row i and the first of row i + 1. */
  lemma NextRowOffset(W: nat, i: nat)
    ensures TagOffset(W, i + 1, 0) == TagOffset(W, i, W) + 1
  {
    assert (i + 1) * (W + 1) == i * (W + 1) + (W + 1);
  }

  // ---------------------------------------------------------------------------
  // Writing a mask: the inverse of the decoder

  function TagChar(m: Material): char
  {
    if m == Pan then '0' else '1'
  }

  /** A well-formed mask for the material rows (row i lists cells (i, 0..W-1)),
      each row followed by a newline, after the newline that ends the header. */
  function EncodeMask(rows: seq<seq<Material>>): seq<char>
  {
    ['\n'] + EncodeRows(rows)
  }

  function EncodeRows(rows: seq<seq<Material>>): seq<char>
  {
    if rows == [] then [] else seq(|rows[0]|, j requires 0 <= j < |rows[0]| => TagChar(rows[0][j])) + ['\n'] + EncodeRows(rows[1..])
  }

  lemma {:induction false} EncodeRowsLength(rows: seq<seq<Material>>, W: nat)
    requires forall i :: 0 <= i < |rows| ==> |rows[i]| == W
    ensures |EncodeRows(rows)| == |rows| * (W + 1)
  {
    if rows != [] {
      EncodeRowsLength(rows[1..], W);
      assert |rows| * (W + 1) == (W + 1) + (|rows| - 1) * (W + 1);
    }
  }

  lemma RowOffsetArithmetic(n: nat, W: nat, i: nat, j: nat)
    requires i < n && j < W
    ensures i * (W + 1) + j < n * (W + 1)
    ensures i > 0 ==> i * (W + 1) + j == (W + 1) + ((i - 1) * (W + 1) + j)
  {
    MulMono(W + 1, i, n - 1);
    assert (W + 1) * (n - 1) == n * (W + 1) - (W + 1);
    assert i * (W + 1) == (i - 1) * (W + 1) + (W + 1);
  }

  lemma {:induction false} EncodeRowsAt(rows: seq<seq<Material>>, W: nat, i: nat, j: nat)
    requires forall i :: 0 <= i < |rows| ==> |rows[i]| == W
    requires i < |rows| && j < W
    ensures i * (W + 1) + j < |EncodeRows(rows)|
    ensures EncodeRows(rows)[i * (W + 1) + j] == TagChar(rows[i][j])
  {
    EncodeRowsLength(rows, W);
    RowOffsetArithmetic(|rows|, W, i, j);
    if i > 0 {
      EncodeRowsAt(rows[1..], W, i - 1, j);
    }
  }

  /** The encoded mask is 1 + L*(W+1) bytes long and decoding it reads back
      every cell's material: no diagnostics, and cell (x, y) at panCoord(x, y)
      becomes a pan or brownie cell exactly as rows[x][y] says. */
  lemma DecodeEncode(rows: seq<seq<Material>>, h: Header, prior: seq<Cell>)
    requires h.divperlength > 0 && h.divperwidth > 0
    requires |rows| == h.divperlength && forall i :: 0 <= i < |rows| ==> |rows[i]| == h.divperwidth
    requires |prior| == h.divperlength * h.divperwidth
    ensures |EncodeMask(rows)| == 1 + h.divperlength * (h.divperwidth + 1)
    ensures Diagnostics(EncodeMask(rows), h.divperlength, h.divperwidth) == []
    ensures forall x, y :: InGrid(h.divperlength, h.divperwidth, x, y) ==>
      0 <= PanCoord(h.divperlength, x, y) < |prior| &&
      var r := Decoded(prior, EncodeMask(rows), h)[PanCoord(h.divperlength, x, y)];
      r.mat == rows[x][y] &&
      r.temp == (if rows[x][y] == Pan then h.pantemp else h.inittemp) &&
      r.diffusivity == (if rows[x][y] == Pan then h.pandiff else h.diffusivity)
  {
    var L, W := h.divperlength, h.divperwidth;
    var mask := EncodeMask(rows);
    EncodeRowsLength(rows, W);
    forall x, y | InGrid(L, W, x, y)
      ensures ReadTag(mask, W, x, y) == Some(TagChar(rows[x][y]))
    {
      EncodeRowsAt(rows, W, x, y);
      assert mask[TagOffset(W, x, y)] == EncodeRows(rows)[x * (W + 1) + y];
    }
    var ds := Diagnostics(mask, L, W);
    if ds != [] {
      DiagnosticsExact(mask, L, W, ds[0]);
      assert false;
    }
    forall x, y | InGrid(L, W, x, y)
      ensures 0 <= PanCoord(L, x, y) < |prior|
      ensures var r := Decoded(prior, mask, h)[PanCoord(L, x, y)];
        r.mat == rows[x][y] &&
        r.temp == (if rows[x][y] == Pan then h.pantemp else h.inittemp) &&
        r.diffusivity == (if rows[x][y] == Pan then h.pandiff else h.diffusivity)
    {
      DecodedAt(prior, mask, h, x, y);
    }
  }

  // ---------------------------------------------------------------------------
  // The loop of appInit

  /** The stream position before the read of cell (i, j): the tag's offset as
      long as no read has failed; after a failed read (which needs some cell
      whose tag lies past the end) a position at or past the end that has fallen
      behind the offset, because failed reads do not advance it. */
  ghost predicate PositionBefore(pos: nat, failed: bool, mask: seq<char>, L: nat, W: nat, i: nat, j: nat)
  {
    (!failed ==> pos == TagOffset(W, i, j)) &&
    (failed ==> |mask| <= pos < TagOffset(W, i, j)) &&
    (failed ==> exists x, y :: InGrid(L, W, x, y) && TagOffset(W, x, y) >= |mask|)
  }

  /** Skipping the separator after row i brings the position to row i + 1. */
  lemma PositionNextRow(pos: nat, failed: bool, mask: seq<char>, L: nat, W: nat, i: nat)
    requires PositionBefore(pos, failed, mask, L, W, i, W)
    ensures PositionBefore(pos + 1, failed, mask, L, W, i + 1, 0)
  {
    NextRowOffset(W, i);
  }

  /** After the last row the position is 1 + L*(W+1) when every tag was read,
      and never beyond it. */
  lemma PositionAtEnd(pos: nat, failed: bool, mask: seq<char>, L: nat, W: nat)
    requires PositionBefore(pos, failed, mask, L, W, L, 0)
    ensures pos <= 1 + L * (W + 1)
    ensures L * (W + 1) <= |mask| ==> pos == 1 + L * (W + 1)
  {
    if failed {
      var x, y :| InGrid(L, W, x, y) && TagOffset(W, x, y) >= |mask|;
      TagOffsetBound(L, W, x, y);
    }
  }

  /** Reads row i of the mask (divperwidth tags) into pan: the inner loop of
      appInit. */
  method DecodeRow(pan: array<Cell>, mask: seq<char>, h: Header, i: nat, ghost prior: seq<Cell>,
                   diagnostics0: seq<Diagnostic>, pos0: nat, ghost failed0: bool)
    returns (diagnostics: seq<Diagnostic>, pos: nat, ghost failed: bool)
    requires i < h.divperlength && pan.Length == |prior| == h.divperlength * h.divperwidth
    requires SweptTo(pan[..], prior, Decoded(prior, mask, h), h.divperlength, i, 0)
    requires diagnostics0 == DiagnosticsBefore(mask, h.divperlength, h.divperwidth, i, 0)
    requires PositionBefore(pos0, failed0, mask, h.divperlength, h.divperwidth, i, 0)
    modifies pan
    ensures SweptTo(pan[..], prior, Decoded(prior, mask, h), h.divperlength, i, h.divperwidth)
    ensures diagnostics == DiagnosticsBefore(mask, h.divperlength, h.divperwidth, i, h.divperwidth)
    ensures PositionBefore(pos, failed, mask, h.divperlength, h.divperwidth, i, h.divperwidth)
  {
    var L, W := h.divperlength, h.divperwidth;
    diagnostics, pos, failed := diagnostics0, pos0, failed0;
    var j := 0;
    while j < W
      invariant 0 <= j <= W
      invariant SweptTo(pan[..], prior, Decoded(prior, mask, h), L, i, j)
      invariant diagnostics == DiagnosticsBefore(mask, L, W, i, j)
      invariant PositionBefore(pos, failed, mask, L, W, i, j)
    {
      SweptStep(pan[..], prior, Decoded(prior, mask, h), L, W, i, j);
      DecodedAt(prior, mask, h, i, j);
      var coord := PanCoord(L, i, j);
      var tag: Option<char> := None;
      if pos < |mask| {
        tag := Some(mask[pos]);
        pos := pos + 1;
      } else {
        failed := true;
      }
      assert tag == ReadTag(mask, W, i, j);
      if tag == Some('0') {
        pan[coord] := pan[coord].(mat := Pan, temp := h.pantemp, diffusivity := h.pandiff);
      } else if tag == Some('1') {
        pan[coord] := pan[coord].(mat := Brownie, temp := h.inittemp, delta := 0.0, mass := CellMass(h), diffusivity := h.diffusivity);
      } else {
        diagnostics := diagnostics + [Diagnostic(i, j, coord, tag == None)];
      }
      j := j + 1;
    }
  }

  /** Reads the mask into pan, cell by cell in the order of appInit's loops.
      Returns the diagnostics it prints and the stream offset it ends at (the
      position only moves on a successful read and on each skip). */
  method DecodeMask(pan: array<Cell>, mask: seq<char>, h: Header) returns (diagnostics: seq<Diagnostic>, pos: nat)
    requires pan.Length == h.divperlength * h.divperwidth
    modifies pan
    ensures pan[..] == Decoded(old(pan[..]), mask, h)
    ensures diagnostics == Diagnostics(mask, h.divperlength, h.divperwidth)
    ensures pos <= 1 + h.divperlength * (h.divperwidth + 1)
    ensures h.divperlength * (h.divperwidth + 1) <= |mask| ==> pos == 1 + h.divperlength * (h.divperwidth + 1)
  {
    var L, W := h.divperlength, h.divperwidth;
    ghost var prior := pan[..];
    ghost var failed := false;
    diagnostics := [];
    pos := 1;
    var i := 0;
    SweptStart(prior, Decoded(prior, mask, h), L);
    while i < L
      invariant 0 <= i <= L
      invariant SweptTo(pan[..], prior, Decoded(prior, mask, h), L, i, 0)
      invariant diagnostics == DiagnosticsBefore(mask, L, W, i, 0)
      invariant PositionBefore(pos, failed, mask, L, W, i, 0)
    {
      diagnostics, pos, failed := DecodeRow(pan, mask, h, i, prior, diagnostics, pos, failed);
      PositionNextRow(pos, failed, mask, L, W, i);
      pos := pos + 1;
      forall c | 0 <= c < |prior| && L > 0
        ensures Visited(c % L, c / L, i, W) == Visited(c % L, c / L, i + 1, 0)
      {
        CoordOnto(L, W, c);
      }
      SweptMove(pan[..], prior, Decoded(prior, mask, h), L, i, W, i + 1, 0);
      i := i + 1;
    }
    forall c | 0 <= c < |prior| && L > 0
      ensures Visited(c % L, c / L, L, 0)
    {
      CoordOnto(L, W, c);
    }
    SweptAll(pan[..], prior, Decoded(prior, mask, h), L, W, L, 0);
    PositionAtEnd(pos, failed, mask, L, W);
  }
}

/** Rectangles that cover the screen exactly once, and what the window commands do to them. */
module Tiling {

  /** A window as the layout sees it: its edges, and whether it is the minibuffer. */
  datatype Win = Win(x1: int, y1: int, x2: int, y2: int, minibuf: bool, modeLine: bool, rSeparator: bool)

  predicate Owns(w: Win, x: int, y: int) {
    !w.minibuf && w.x1 <= x < w.x2 && w.y1 <= y < w.y2
  }

  /** How many windows a cell of the screen belongs to. */
  function Owners(ws: seq<Win>, x: int, y: int): nat {
    if ws == [] then 0 else (if Owns(ws[0], x, y) then 1 else 0) + Owners(ws[1..], x, y)
  }

  predicate Within(w: Win, width: int, height: int) {
    w.minibuf || (0 <= w.x1 <= w.x2 <= width && 0 <= w.y1 <= w.y2 <= height)
  }

  /** The ordinary windows lie on the screen and cover each of its cells exactly once. */
  ghost predicate Tiles(ws: seq<Win>, width: int, height: int) {
    && (forall i :: 0 <= i < |ws| ==> Within(ws[i], width, height))
    && (forall x, y :: 0 <= x < width && 0 <= y < height ==> Owners(ws, x, y) == 1)
  }

  predicate NonEmpty(w: Win) {
    w.minibuf || (w.x1 < w.x2 && w.y1 < w.y2)
  }

  predicate AllNonEmpty(ws: seq<Win>) {
    forall i :: 0 <= i < |ws| ==> NonEmpty(ws[i])
  }

  // ---- counting owners ----

  lemma {:induction false} OwnersConcat(a: seq<Win>, b: seq<Win>, x: int, y: int)
    ensures Owners(a + b, x, y) == Owners(a, x, y) + Owners(b, x, y)
  {
    if a == [] {
      assert a + b == b;
    } else {
      assert (a + b)[1..] == a[1..] + b;
      OwnersConcat(a[1..], b, x, y);
    }
  }

  lemma OwnersOf(ws: seq<Win>, k: nat, x: int, y: int)
    requires k < |ws|
    ensures Owners(ws, x, y) == Owners(ws[..k], x, y) + (if Owns(ws[k], x, y) then 1 else 0) + Owners(ws[k + 1..], x, y)
  {
    assert ws == ws[..k] + ws[k..];
    assert ws[k..][1..] == ws[k + 1..];
    OwnersConcat(ws[..k], ws[k..], x, y);
  }

  lemma OwnersUpdate(ws: seq<Win>, k: nat, w: Win, x: int, y: int)
    requires k < |ws|
    ensures Owners(ws[k := w], x, y) + (if Owns(ws[k], x, y) then 1 else 0)
         == Owners(ws, x, y) + if Owns(w, x, y) then 1 else 0
  {
    var after := ws[k := w];
    OwnersOf(ws, k, x, y);
    OwnersOf(after, k, x, y);
    assert after[..k] == ws[..k] && after[k + 1..] == ws[k + 1..];
  }

  lemma OwnersRemove(ws: seq<Win>, k: nat, x: int, y: int)
    requires k < |ws|
    ensures Owners(ws[..k] + ws[k + 1..], x, y) + (if Owns(ws[k], x, y) then 1 else 0) == Owners(ws, x, y)
  {
    OwnersOf(ws, k, x, y);
    OwnersConcat(ws[..k], ws[k + 1..], x, y);
  }

  lemma {:induction false} SomeOwner(ws: seq<Win>, x: int, y: int) returns (i: nat)
    requires Owners(ws, x, y) > 0
    ensures i < |ws| && Owns(ws[i], x, y)
  {
    if Owns(ws[0], x, y) {
      i := 0;
    } else {
      i := SomeOwner(ws[1..], x, y);
      i := i + 1;
    }
  }

  lemma OneIsCounted(ws: seq<Win>, i: nat, x: int, y: int)
    requires i < |ws| && Owns(ws[i], x, y)
    ensures Owners(ws, x, y) >= 1
  {
    OwnersOf(ws, i, x, y);
  }

  lemma NoTwoOwners(ws: seq<Win>, i: nat, j: nat, x: int, y: int)
    requires i < j < |ws| && Owns(ws[i], x, y) && Owns(ws[j], x, y)
    ensures Owners(ws, x, y) >= 2
  {
    OwnersOf(ws, i, x, y);
    OneIsCounted(ws[i + 1..], j - i - 1, x, y);
  }

  /** Only one window owns a cell of a tiled screen. */
  lemma OnlyOne(ws: seq<Win>, width: int, height: int, i: nat, j: nat, x: int, y: int)
    requires Tiles(ws, width, height) && i < |ws| && j < |ws| && 0 <= x < width && 0 <= y < height
    requires Owns(ws[i], x, y) && Owns(ws[j], x, y)
    ensures i == j
  {
    if i < j {
      NoTwoOwners(ws, i, j, x, y);
    } else if j < i {
      NoTwoOwners(ws, j, i, x, y);
    }
  }

  /** The windows of `after` own one cell just where those of `ws` own another. */
  lemma {:induction false} SameOwners(ws: seq<Win>, after: seq<Win>, x: int, y: int, x1: int, y1: int)
    requires |ws| == |after| && forall i :: 0 <= i < |ws| ==> (Owns(after[i], x1, y1) <==> Owns(ws[i], x, y))
    ensures Owners(after, x1, y1) == Owners(ws, x, y)
  {
    if ws != [] {
      assert Owns(after[0], x1, y1) <==> Owns(ws[0], x, y);
      SameOwners(ws[1..], after[1..], x, y, x1, y1);
    }
  }

  // ---- turning the screen ----

  function Turned(w: Win): Win {
    w.(x1 := w.y1, y1 := w.x1, x2 := w.y2, y2 := w.x2)
  }

  function AllTurned(ws: seq<Win>): (r: seq<Win>)
    ensures |r| == |ws|
  {
    seq(|ws|, i requires 0 <= i < |ws| => Turned(ws[i]))
  }

  lemma TurnedTiles(ws: seq<Win>, width: int, height: int)
    requires Tiles(ws, width, height)
    ensures Tiles(AllTurned(ws), height, width)
    ensures AllTurned(AllTurned(ws)) == ws && (AllNonEmpty(ws) ==> AllNonEmpty(AllTurned(ws)))
  {
    var r := AllTurned(ws);
    forall x, y | 0 <= x < height && 0 <= y < width ensures Owners(r, x, y) == 1 {
      SameOwners(ws, r, y, x, x, y);
    }
    forall i | 0 <= i < |ws| ensures Within(r[i], height, width) {
      assert Within(ws[i], width, height);
    }
    forall i | 0 <= i < |ws| && NonEmpty(ws[i]) ensures NonEmpty(r[i]) {
    }
  }

  // ---- resizing ----

  /** A window whose upper or lower edge is at `y` moves it. */
  function EdgeMoved(w: Win, y: int, dy: int): Win {
    if w.minibuf then w
    else if w.y1 == y then w.(y1 := y + dy)
    else if w.y2 == y then w.(y2 := y + dy)
    else w
  }

  function EdgesMoved(ws: seq<Win>, y: int, dy: int): (r: seq<Win>)
    ensures |r| == |ws|
  {
    seq(|ws|, i requires 0 <= i < |ws| => EdgeMoved(ws[i], y, dy))
  }

  /** No window on the edge `y` gets empty by the move. */
  predicate Room(ws: seq<Win>, y: int, dy: int) {
    forall i :: 0 <= i < |ws| && !ws[i].minibuf ==>
                  (ws[i].y1 == y ==> y + dy < ws[i].y2) && (ws[i].y2 == y ==> ws[i].y1 < y + dy)
  }

  /** The cell that belonged to the windows that the cell `x`, `y1` belongs to after the edges at `y` moved. */
  lemma CellBefore(ws: seq<Win>, width: int, height: int, y: int, dy: int, x: int, y1: int) returns (y0: int)
    requires Tiles(ws, width, height) && AllNonEmpty(ws) && Room(ws, y, dy) && 0 < y < height
    requires 0 <= x < width && 0 <= y1 < height
    ensures 0 <= y0 < height
    ensures forall i :: 0 <= i < |ws| ==> (Owns(EdgeMoved(ws[i], y, dy), x, y1) <==> Owns(ws[i], x, y0))
  {
    hide Owners;
    var u := SomeOwner(ws, x, y - 1);
    var l := SomeOwner(ws, x, y);
    // an edge crosses the column exactly if the cells above and below `y` have different owners
    y0 := if u == l then y1
          else if y <= y1 < y + dy then y - 1
          else if y + dy <= y1 < y then y
          else y1;
    forall i | 0 <= i < |ws| ensures Owns(EdgeMoved(ws[i], y, dy), x, y1) <==> Owns(ws[i], x, y0) {
      SameColumn(ws, width, height, y, dy, x, y1, u, l, i);
    }
  }

  lemma SameColumn(ws: seq<Win>, width: int, height: int, y: int, dy: int, x: int, y1: int, u: nat, l: nat, i: nat)
    requires Tiles(ws, width, height) && AllNonEmpty(ws) && Room(ws, y, dy) && 0 < y < height
    requires 0 <= x < width && 0 <= y1 < height && u < |ws| && l < |ws| && i < |ws|
    requires Owns(ws[u], x, y - 1) && Owns(ws[l], x, y)
    ensures var y0 := if u == l then y1 else if y <= y1 < y + dy then y - 1 else if y + dy <= y1 < y then y else y1;
            Owns(EdgeMoved(ws[i], y, dy), x, y1) <==> Owns(ws[i], x, y0)
  {
    hide Owners, Tiles;
    var w := ws[i];
    if w.minibuf || !(w.x1 <= x < w.x2) {
    } else {
      assert NonEmpty(w);
      if Owns(w, x, y - 1) {
        OnlyOne(ws, width, height, i, u, x, y - 1);
      }
      if Owns(w, x, y) {
        OnlyOne(ws, width, height, i, l, x, y);
      }
      if Owns(ws[u], x, y) {
        OnlyOne(ws, width, height, u, l, x, y);
      }
      if Owns(ws[l], x, y - 1) {
        OnlyOne(ws, width, height, u, l, x, y - 1);
      }
      if u != l && i != u && i != l {
        // a third window in the column is not at the edge, nor in the way of it
        if 0 <= y1 < y && ws[u].y1 <= y1 && Owns(w, x, y1) {
          OnlyOne(ws, width, height, i, u, x, y1);
        }
        if y <= y1 < height && y1 < ws[l].y2 && Owns(w, x, y1) {
          OnlyOne(ws, width, height, i, l, x, y1);
        }
      }
    }
  }

  /** Below a window that ends at `y` there is another one, so the edge does not leave the screen. */
  lemma EdgeStays(ws: seq<Win>, width: int, height: int, y: int, dy: int, i: nat)
    requires Tiles(ws, width, height) && AllNonEmpty(ws) && Room(ws, y, dy) && 0 < y < height && i < |ws|
    ensures Within(EdgeMoved(ws[i], y, dy), width, height) && NonEmpty(EdgeMoved(ws[i], y, dy))
  {
    hide Owners;
    var w := ws[i];
    assert Within(w, width, height) && NonEmpty(w);
    if !w.minibuf && (w.y1 == y || w.y2 == y) {
      var u := SomeOwner(ws, w.x1, y - 1);
      var l := SomeOwner(ws, w.x1, y);
      assert Within(ws[u], width, height) && Within(ws[l], width, height);
      if w.y2 == y {
        if Owns(ws[l], w.x1, y - 1) {
          OnlyOne(ws, width, height, i, l, w.x1, y - 1);
        }
      } else if Owns(ws[u], w.x1, y) {
        OnlyOne(ws, width, height, i, u, w.x1, y);
      }
    }
  }

  /** All edges at one height move together, and the screen stays tiled. */
  lemma EdgesMovedTile(ws: seq<Win>, width: int, height: int, y: int, dy: int)
    requires Tiles(ws, width, height) && AllNonEmpty(ws) && Room(ws, y, dy) && (0 < y < height || dy == 0)
    ensures Tiles(EdgesMoved(ws, y, dy), width, height) && AllNonEmpty(EdgesMoved(ws, y, dy))
  {
    var r := EdgesMoved(ws, y, dy);
    if dy == 0 {
      assert r == ws;
    } else {
      forall x, y1 | 0 <= x < width && 0 <= y1 < height ensures Owners(r, x, y1) == 1 {
        var y0 := CellBefore(ws, width, height, y, dy, x, y1);
        SameOwners(ws, r, x, y0, x, y1);
      }
      forall i | 0 <= i < |ws| ensures Within(r[i], width, height) && NonEmpty(r[i]) {
        EdgeStays(ws, width, height, y, dy, i);
      }
    }
  }

  const MIN_WIDTH := 8

  function MinHeight(w: Win, modeLineHeight: nat): nat {
    8 + if w.modeLine then modeLineHeight else 0
  }

  /** A window that touches an edge of `s` that is to be moved keeps its minimal size. */
  predicate RoomBeside(e: Win, s: Win, dx: int, dy: int, modeLineHeight: nat) {
    && (if e.y1 == s.y2 then e.y2 - e.y1 - dy >= MinHeight(e, modeLineHeight)
        else if e.y2 == s.y2 then e.y2 - e.y1 + dy >= MinHeight(e, modeLineHeight)
        else true)
    && (if e.x1 == s.x2 then e.x2 - e.x1 - dx >= MIN_WIDTH
        else if e.x2 == s.x2 then e.x2 - e.x1 + dx >= MIN_WIDTH
        else true)
  }

  /** Window `k` may be resized: it gets no smaller than allowed, no edge of the screen would have to move,
      and the other windows have room. */
  predicate Resizable(ws: seq<Win>, k: nat, targetW: int, targetH: int, width: int, height: int, modeLineHeight: nat)
    requires k < |ws|
  {
    var s := ws[k];
    var dx, dy := targetW - (s.x2 - s.x1), targetH - (s.y2 - s.y1);
    && targetW >= MIN_WIDTH && targetH >= MinHeight(s, modeLineHeight)
    && !(s.x2 >= width && dx != 0) && !(s.y2 >= height && dy != 0)
    && forall i :: 0 <= i < |ws| && i != k && !ws[i].minibuf ==> RoomBeside(ws[i], s, dx, dy, modeLineHeight)
  }

  /** Another window after `s` was resized. */
  function Beside(e: Win, s: Win, dx: int, dy: int): Win {
    Turned(EdgeMoved(Turned(EdgeMoved(e, s.y2, dy)), s.x2, dx))
  }

  function Resized(ws: seq<Win>, k: nat, targetW: int, targetH: int): (r: seq<Win>)
    requires k < |ws|
    ensures |r| == |ws|
  {
    var s := ws[k];
    var dx, dy := targetW - (s.x2 - s.x1), targetH - (s.y2 - s.y1);
    seq(|ws|, i requires 0 <= i < |ws| =>
          if i == k then s.(x2 := s.x1 + targetW, y2 := s.y1 + targetH) else Beside(ws[i], s, dx, dy))
  }

  lemma ResizedIsTwoMoves(ws: seq<Win>, k: nat, targetW: int, targetH: int)
    requires k < |ws| && !ws[k].minibuf && NonEmpty(ws[k])
    ensures var s := ws[k]; var dx, dy := targetW - (s.x2 - s.x1), targetH - (s.y2 - s.y1);
            Resized(ws, k, targetW, targetH) == AllTurned(EdgesMoved(AllTurned(EdgesMoved(ws, s.y2, dy)), s.x2, dx))
  {
  }

  lemma ResizedTiles(ws: seq<Win>, k: nat, targetW: int, targetH: int, width: int, height: int, modeLineHeight: nat)
    requires Tiles(ws, width, height) && AllNonEmpty(ws) && k < |ws| && !ws[k].minibuf
    requires Resizable(ws, k, targetW, targetH, width, height, modeLineHeight)
    ensures Tiles(Resized(ws, k, targetW, targetH), width, height) && AllNonEmpty(Resized(ws, k, targetW, targetH))
  {
    hide Owners, Resized, EdgesMoved, AllTurned, Room;
    var s := ws[k];
    var dx, dy := targetW - (s.x2 - s.x1), targetH - (s.y2 - s.y1);
    assert NonEmpty(s) && Within(s, width, height) && s.y2 <= height && s.x2 <= width;
    RoomForHeight(ws, k, targetW, targetH, width, height, modeLineHeight);
    RoomForWidth(ws, k, targetW, targetH, width, height, modeLineHeight);
    ResizedIsTwoMoves(ws, k, targetW, targetH);
    assert (s.y2 < height || dy == 0) && (s.x2 < width || dx == 0);
    hide Resizable, AllNonEmpty, Tiles;
    EdgesMovedTile(ws, width, height, s.y2, dy);
    var a := EdgesMoved(ws, s.y2, dy);
    TurnedTiles(a, width, height);
    EdgesMovedTile(AllTurned(a), height, width, s.x2, dx);
    TurnedTiles(EdgesMoved(AllTurned(a), s.x2, dx), height, width);
  }

  /** A window that moved an edge has its minimal size in that direction. */
  predicate KeepsMinSize(before: Win, after: Win, modeLineHeight: nat) {
    && (after.x1 != before.x1 || after.x2 != before.x2 ==> after.x2 - after.x1 >= 8)
    && (after.y1 != before.y1 || after.y2 != before.y2 ==>
          after.y2 - after.y1 >= 8 + if after.modeLine then modeLineHeight else 0)
  }

  /** A resize is accepted exactly if the window would be at least 8 cells wide, and 8 high besides its mode line,
      as well as every other window on its right and lower edges, and no edge of the screen would have to move. */
  lemma ResizableMeans(ws: seq<Win>, k: nat, targetW: int, targetH: int, width: int, height: int, modeLineHeight: nat)
    requires k < |ws|
    ensures var s, r := ws[k], Resized(ws, k, targetW, targetH);
            Resizable(ws, k, targetW, targetH, width, height, modeLineHeight) <==>
              && targetW >= 8 && targetH >= 8 + (if s.modeLine then modeLineHeight else 0)
              && (s.x2 >= width ==> targetW == s.x2 - s.x1) && (s.y2 >= height ==> targetH == s.y2 - s.y1)
              && forall i :: 0 <= i < |ws| && i != k && !ws[i].minibuf ==>
                   && (ws[i].x1 == s.x2 || ws[i].x2 == s.x2 ==> r[i].x2 - r[i].x1 >= 8)
                   && (ws[i].y1 == s.y2 || ws[i].y2 == s.y2 ==>
                         r[i].y2 - r[i].y1 >= 8 + if ws[i].modeLine then modeLineHeight else 0)
  {
    var s, r := ws[k], Resized(ws, k, targetW, targetH);
    var dx, dy := targetW - (s.x2 - s.x1), targetH - (s.y2 - s.y1);
    forall i | 0 <= i < |ws| && i != k && !ws[i].minibuf
      ensures RoomBeside(ws[i], s, dx, dy, modeLineHeight) <==>
                && (ws[i].x1 == s.x2 || ws[i].x2 == s.x2 ==> r[i].x2 - r[i].x1 >= 8)
                && (ws[i].y1 == s.y2 || ws[i].y2 == s.y2 ==>
                      r[i].y2 - r[i].y1 >= 8 + if ws[i].modeLine then modeLineHeight else 0)
    {
      ResizedAt(ws, k, targetW, targetH, i);
    }
    hide RoomBeside, Resized;
  }

  /** Where the edges go: the right and the lower one of the window, and the edges of others that touch them. */
  lemma ResizedEdges(ws: seq<Win>, k: nat, targetW: int, targetH: int, i: nat)
    requires k < |ws| && i < |ws| && (i != k ==> !ws[i].minibuf && ws[i].x1 < ws[i].x2 && ws[i].y1 < ws[i].y2)
    ensures var s, w, r := ws[k], ws[i], Resized(ws, k, targetW, targetH)[i];
            var x2, y2 := s.x1 + targetW, s.y1 + targetH;
            && r == w.(x1 := r.x1, x2 := r.x2, y1 := r.y1, y2 := r.y2)
            && (i == k ==> r.x1 == w.x1 && r.y1 == w.y1 && r.x2 == x2 && r.y2 == y2)
            && (i != k ==>
                  && r.x1 == (if w.x1 == s.x2 then x2 else w.x1) && r.x2 == (if w.x2 == s.x2 then x2 else w.x2)
                  && r.y1 == (if w.y1 == s.y2 then y2 else w.y1) && r.y2 == (if w.y2 == s.y2 then y2 else w.y2))
  {
  }

  /** An accepted resize keeps the tiling, gives the window its size, and every window that it touches
      keeps its minimal size. */
  lemma ResizeKeepsTiling(ws: seq<Win>, k: nat, targetW: int, targetH: int, width: int, height: int,
                          modeLineHeight: nat)
    requires Tiles(ws, width, height) && AllNonEmpty(ws) && k < |ws| && !ws[k].minibuf
    requires Resizable(ws, k, targetW, targetH, width, height, modeLineHeight)
    ensures var r := Resized(ws, k, targetW, targetH);
            && Tiles(r, width, height) && AllNonEmpty(r)
            && r[k].x2 - r[k].x1 == targetW && r[k].y2 - r[k].y1 == targetH
            && forall i :: 0 <= i < |ws| && !ws[i].minibuf ==> KeepsMinSize(ws[i], r[i], modeLineHeight)
  {
    hide Tiles, AllNonEmpty, Resized, KeepsMinSize, Beside;
    ResizedTiles(ws, k, targetW, targetH, width, height, modeLineHeight);
    ResizedAt(ws, k, targetW, targetH, k);
    forall i | 0 <= i < |ws| && !ws[i].minibuf
      ensures KeepsMinSize(ws[i], Resized(ws, k, targetW, targetH)[i], modeLineHeight)
    {
      ResizedAt(ws, k, targetW, targetH, i);
      MinSizeBeside(ws, k, targetW, targetH, width, height, modeLineHeight, i);
    }
  }

  lemma MinSizeBeside(ws: seq<Win>, k: nat, targetW: int, targetH: int, width: int, height: int, modeLineHeight: nat,
                      i: nat)
    requires k < |ws| && i < |ws| && !ws[i].minibuf && Resizable(ws, k, targetW, targetH, width, height, modeLineHeight)
    ensures KeepsMinSize(ws[i], Resized(ws, k, targetW, targetH)[i], modeLineHeight)
  {
  }

  lemma ResizedAt(ws: seq<Win>, k: nat, targetW: int, targetH: int, i: nat)
    requires k < |ws| && i < |ws|
    ensures var s := ws[k]; var dx, dy := targetW - (s.x2 - s.x1), targetH - (s.y2 - s.y1);
            Resized(ws, k, targetW, targetH)[i]
            == if i == k then s.(x2 := s.x1 + targetW, y2 := s.y1 + targetH) else Beside(ws[i], s, dx, dy)
  {
  }

  lemma RoomForHeight(ws: seq<Win>, k: nat, targetW: int, targetH: int, width: int, height: int, modeLineHeight: nat)
    requires k < |ws| && AllNonEmpty(ws) && Resizable(ws, k, targetW, targetH, width, height, modeLineHeight)
    ensures Room(ws, ws[k].y2, targetH - (ws[k].y2 - ws[k].y1))
  {
    assert NonEmpty(ws[k]);
  }

  lemma RoomForWidth(ws: seq<Win>, k: nat, targetW: int, targetH: int, width: int, height: int, modeLineHeight: nat)
    requires k < |ws| && AllNonEmpty(ws) && Resizable(ws, k, targetW, targetH, width, height, modeLineHeight)
    ensures Room(AllTurned(EdgesMoved(ws, ws[k].y2, targetH - (ws[k].y2 - ws[k].y1))), ws[k].x2,
                 targetW - (ws[k].x2 - ws[k].x1))
  {
    assert NonEmpty(ws[k]);
  }

  /** With an empty window on the edge, a resize that is accepted can break the tiling. */
  lemma EmptyWindowBreaksResize()
    ensures var a, z, b := Win(0, 0, 40, 20, false, false, false), Win(0, 20, 40, 20, false, false, false),
            Win(0, 20, 40, 40, false, false, false);
            var ws := [a, z, b];
            && Owners(ws, 5, 15) == 1 && Resizable(ws, 0, 40, 12, 40, 40, 1)
            && Owners(Resized(ws, 0, 40, 12), 5, 15) == 2
  {
    var a, z, b := Win(0, 0, 40, 20, false, false, false), Win(0, 20, 40, 20, false, false, false),
        Win(0, 20, 40, 40, false, false, false);
    var ws := [a, z, b];
    var a1, z1, b1 := a.(y2 := 12), z.(y1 := 12), b.(y1 := 12);
    assert Resized(ws, 0, 40, 12) == [a1, z1, b1];
    ThreeOwners(a, z, b, 5, 15);
    ThreeOwners(a1, z1, b1, 5, 15);
  }

  lemma ThreeOwners(a: Win, b: Win, c: Win, x: int, y: int)
    ensures Owners([a, b, c], x, y)
         == (if Owns(a, x, y) then 1 else 0) + (if Owns(b, x, y) then 1 else 0) + if Owns(c, x, y) then 1 else 0
  {
    assert [a, b, c][1..] == [b, c] && [b, c][1..] == [c] && [c][1..] == [];
    assert Owners([c], x, y) == if Owns(c, x, y) then 1 else 0;
    assert Owners([b, c], x, y) == (if Owns(b, x, y) then 1 else 0) + Owners([c], x, y);
  }

  // ---- splitting ----

  /** The two halves of a window, the old one first. */
  function Halved(s: Win, horiz: bool): (Win, Win) {
    var x, y := (s.x2 + s.x1) / 2, (s.y2 + s.y1) / 2;
    if horiz then (s.(x2 := x, rSeparator := true), Win(x, s.y1, s.x2, s.y2, false, true, false))
    else (s.(y2 := y), Win(s.x1, y, s.x2, s.y2, false, true, s.rSeparator))
  }

  function Split(ws: seq<Win>, k: nat, horiz: bool): seq<Win>
    requires k < |ws|
  {
    [Halved(ws[k], horiz).1] + ws[k := Halved(ws[k], horiz).0]
  }

  /** The old window keeps the left or upper half, and the new one gets the other half, at most one cell more. */
  lemma HalvesAreEven(s: Win, horiz: bool)
    ensures var (a, b) := Halved(s, horiz);
            if horiz then
              && a.x1 == s.x1 && a.x2 == b.x1 && b.x2 == s.x2 && 0 <= (b.x2 - b.x1) - (a.x2 - a.x1) <= 1
              && a.y1 == b.y1 == s.y1 && a.y2 == b.y2 == s.y2 && a.rSeparator && !b.rSeparator
            else
              && a.y1 == s.y1 && a.y2 == b.y1 && b.y2 == s.y2 && 0 <= (b.y2 - b.y1) - (a.y2 - a.y1) <= 1
              && a.x1 == b.x1 == s.x1 && a.x2 == b.x2 == s.x2 && a.rSeparator == b.rSeparator == s.rSeparator
    ensures Halved(s, horiz).1.modeLine && Halved(s, horiz).0.modeLine == s.modeLine
  {
  }

  /** A split keeps the tiling; both halves have some room exactly if the window was at least two cells
      wide or high. */
  lemma SplitKeepsTiling(ws: seq<Win>, k: nat, horiz: bool, width: int, height: int)
    requires Tiles(ws, width, height) && k < |ws| && !ws[k].minibuf
    ensures Tiles(Split(ws, k, horiz), width, height)
    ensures AllNonEmpty(ws) ==>
              (AllNonEmpty(Split(ws, k, horiz)) <==> (if horiz then ws[k].x2 - ws[k].x1 else ws[k].y2 - ws[k].y1) >= 2)
  {
    var s, added, rest := Halved(ws[k], horiz).0, Halved(ws[k], horiz).1, ws[k := Halved(ws[k], horiz).0];
    var r := [added] + rest;
    assert r[1..] == rest;
    assert Within(ws[k], width, height);
    forall x, y | 0 <= x < width && 0 <= y < height ensures Owners(r, x, y) == 1 {
      OwnersUpdate(ws, k, s, x, y);
    }
    forall i | 0 <= i < |r| ensures Within(r[i], width, height) {
      if i > 0 {
        assert r[i] == rest[i - 1] && Within(ws[i - 1], width, height);
      }
    }
    if AllNonEmpty(ws) {
      assert NonEmpty(ws[k]) && r[0] == added && r[k + 1] == s;
      assert forall i :: 0 < i < |r| && i != k + 1 ==> r[i] == ws[i - 1];
    }
  }

  // ---- deleting ----

  /** How many ordinary windows there are. */
  function Ordinary(ws: seq<Win>): nat {
    if ws == [] then 0 else (if ws[0].minibuf then 0 else 1) + Ordinary(ws[1..])
  }

  /** `e` lies on one side of `s` and shares the whole side with it. */
  predicate Aligned(s: Win, e: Win) {
    !e.minibuf && ((s.x1 == e.x2 && s.y1 == e.y1 && s.y2 == e.y2) || (s.x2 == e.x1 && s.y1 == e.y1 && s.y2 == e.y2)
                   || (s.y1 == e.y2 && s.x1 == e.x1 && s.x2 == e.x2) || (s.y2 == e.y1 && s.x1 == e.x1 && s.x2 == e.x2))
  }

  /** `e` takes the place of `s` as well. */
  function Merged(s: Win, e: Win): Win
    requires Aligned(s, e)
  {
    if s.x1 == e.x2 && s.y1 == e.y1 && s.y2 == e.y2 then e.(x2 := s.x2)         // on its left
    else if s.x2 == e.x1 && s.y1 == e.y1 && s.y2 == e.y2 then e.(x1 := s.x1)    // on its right
    else if s.y1 == e.y2 && s.x1 == e.x1 && s.x2 == e.x2 then e.(y2 := s.y2)    // above it
    else e.(y1 := s.y1)                                                         // below it
  }

  /** The window that is given the place of window `k`: the first that can be. */
  predicate Takes(ws: seq<Win>, k: nat, j: nat)
    requires k < |ws|
  {
    j < |ws| && j != k && Aligned(ws[k], ws[j]) && forall i :: 0 <= i < j && i != k ==> !Aligned(ws[k], ws[i])
  }

  /** It is the first ordinary window with a side that is a whole side of window `k`. */
  lemma TakesFirst(ws: seq<Win>, k: nat, j: nat)
    requires k < |ws|
    ensures Takes(ws, k, j) <==>
              && j < |ws| && j != k && !ws[j].minibuf && OneSide(ws[k], ws[j])
              && forall i :: 0 <= i < j && i != k && !ws[i].minibuf ==> !OneSide(ws[k], ws[i])
  {
    hide OneSide, Aligned;
    forall i | 0 <= i < |ws| ensures Aligned(ws[k], ws[i]) <==> !ws[i].minibuf && OneSide(ws[k], ws[i]) {
      AlignedSide(ws[k], ws[i]);
    }
  }

  /** The vertical or the horizontal line that ends one of the two and begins the other is a whole side of both. */
  predicate OneSide(s: Win, e: Win) {
    || ((s.y1, s.y2) == (e.y1, e.y2) && (e.x2 == s.x1 || s.x2 == e.x1))
    || ((s.x1, s.x2) == (e.x1, e.x2) && (e.y2 == s.y1 || s.y2 == e.y1))
  }

  lemma AlignedSide(s: Win, e: Win)
    ensures Aligned(s, e) <==> !e.minibuf && OneSide(s, e)
  {
  }

  function Deleted(ws: seq<Win>, k: nat, j: nat): seq<Win>
    requires k < |ws| && Takes(ws, k, j)
  {
    var merged := ws[j := Merged(ws[k], ws[j])];
    merged[..k] + merged[k + 1..]
  }

  lemma DeleteKeepsTiling(ws: seq<Win>, k: nat, j: nat, width: int, height: int)
    requires Tiles(ws, width, height) && k < |ws| && !ws[k].minibuf && Takes(ws, k, j)
    ensures Tiles(Deleted(ws, k, j), width, height)
    ensures AllNonEmpty(ws) ==> AllNonEmpty(Deleted(ws, k, j))
  {
    var e := Merged(ws[k], ws[j]);
    var merged := ws[j := e];
    var r := Deleted(ws, k, j);
    assert Within(ws[k], width, height) && Within(ws[j], width, height);
    forall x, y | 0 <= x < width && 0 <= y < height ensures Owners(r, x, y) == 1 {
      OwnersUpdate(ws, j, e, x, y);
      OwnersRemove(merged, k, x, y);
      if Owns(ws[k], x, y) {
        OneIsCounted(ws, k, x, y);
      }
    }
    forall i | 0 <= i < |merged| ensures Within(merged[i], width, height) && (AllNonEmpty(ws) ==> NonEmpty(merged[i])) {
      assert Within(ws[i], width, height) && (AllNonEmpty(ws) ==> NonEmpty(ws[i]) && NonEmpty(ws[k]));
    }
  }

  // ---- inserting on the left ----

  /** What the windows are left when those on the left make room: the ones that are all under the new
      window are closed. */
  function PushedRight(ws: seq<Win>, w: int): seq<Win> {
    if ws == [] then []
    else if ws[0].minibuf then [ws[0]] + PushedRight(ws[1..], w)
    else if ws[0].x2 <= w then PushedRight(ws[1..], w)
    else [if ws[0].x1 < w then ws[0].(x1 := w) else ws[0]] + PushedRight(ws[1..], w)
  }

  lemma {:induction false} PushedOwners(ws: seq<Win>, w: int, x: int, y: int)
    ensures Owners(PushedRight(ws, w), x, y) == if x < w then 0 else Owners(ws, x, y)
  {
    if ws != [] {
      PushedOwners(ws[1..], w, x, y);
      var rest := PushedRight(ws[1..], w);
      assert forall v: Win :: ([v] + rest)[1..] == rest;
    }
  }

  lemma {:induction false} PushedInside(ws: seq<Win>, w: int, width: int, height: int)
    requires 0 <= w <= width && forall i :: 0 <= i < |ws| ==> Within(ws[i], width, height)
    ensures forall i :: 0 <= i < |PushedRight(ws, w)| ==> Within(PushedRight(ws, w)[i], width, height)
    ensures AllNonEmpty(ws) ==> AllNonEmpty(PushedRight(ws, w))
  {
    if ws != [] {
      PushedInside(ws[1..], w, width, height);
      assert Within(ws[0], width, height) && (AllNonEmpty(ws) ==> NonEmpty(ws[0]) && AllNonEmpty(ws[1..]));
    }
  }

  /** A window `h` high on the left, and the others pushed aside: the screen stays tiled exactly if the new
      window is as high as the screen. */
  lemma InsertLeftKeepsTiling(ws: seq<Win>, w: int, h: int, modeLine: bool, width: int, height: int)
    requires Tiles(ws, width, height) && 0 < w <= width && 0 <= h <= height
    ensures var r := [Win(0, 0, w, h, false, modeLine, true)] + PushedRight(ws, w);
            (Tiles(r, width, height) <==> h == height) && (AllNonEmpty(ws) && 0 < h ==> AllNonEmpty(r))
  {
    var added, rest := Win(0, 0, w, h, false, modeLine, true), PushedRight(ws, w);
    var r := [added] + rest;
    assert r[1..] == rest;
    forall x, y | 0 <= x < width && 0 <= y < height && (y < h || w <= x) ensures Owners(r, x, y) == 1 {
      PushedOwners(ws, w, x, y);
    }
    PushedInside(ws, w, width, height);
    if h < height {
      PushedOwners(ws, w, 0, h);
      assert Owners(r, 0, h) == 0;
    }
  }

  /** In full screen mode the status line is hidden and the content as high as the screen, but a window inserted
      on the left is not: on 80 columns and 25 lines the cell below it belongs to nobody. */
  lemma InsertLeftLeavesGap()
    ensures var a := Win(0, 0, 80, 25, false, true, false);
            var r := [Win(0, 0, 20, 24, false, true, true)] + PushedRight([a], 20);
            Tiles([a], 80, 25) && Owners([a], 0, 24) == 1 && Owners(r, 0, 24) == 0
  {
    var a, b := Win(0, 0, 80, 25, false, true, false), Win(0, 0, 20, 24, false, true, true);
    assert [a][1..] == [];
    assert PushedRight([a], 20) == [a.(x1 := 20)];
    forall x, y ensures Owners([a], x, y) == if Owns(a, x, y) then 1 else 0 {
      assert [a][1..] == [];
    }
    var r := [b] + PushedRight([a], 20);
    assert r[1..] == [a.(x1 := 20)] && r[1..][1..] == [];
  }

  // ---- rescaling ----

  /** An edge on a screen that is `a` cells long instead of `b`. */
  function Scale(e: nat, a: nat, b: nat): nat
    requires b > 0
  {
    (e * a) / b
  }

  lemma ScaleMonotone(d: nat, e: nat, a: nat, b: nat)
    requires b > 0 && d <= e
    ensures Scale(d, a, b) <= Scale(e, a, b)
  {
    assert d * a <= e * a by {
      ProductMonotone(d, e, a);
    }
    DivMonotone(d * a, e * a, b);
  }

  lemma ProductMonotone(d: nat, e: nat, a: nat)
    requires d <= e
    ensures d * a <= e * a
  {
    assert e * a == d * a + (e - d) * a;
  }

  lemma OneMore(q: nat, b: nat)
    ensures (q + 1) * b == q * b + b
  {
  }

  lemma QuotientIs(p: nat, b: nat, q: nat)
    requires b > 0 && q * b <= p < q * b + b
    ensures p / b == q
  {
    var r := p / b;
    assert r * b <= p < r * b + b;
    if q < r {
      OneMore(q, b);
      ProductMonotone(q + 1, r, b);
    } else if r < q {
      OneMore(r, b);
      ProductMonotone(r + 1, q, b);
    }
  }

  lemma DivMonotone(p: nat, q: nat, b: nat)
    requires b > 0 && p <= q
    ensures p / b <= q / b
  {
    var r, s := p / b, q / b;
    assert r * b <= p && q < s * b + b;
    OneMore(s, b);
    if s < r {
      ProductMonotone(s + 1, r, b);
    }
  }

  lemma ScaleEnds(a: nat, b: nat)
    requires b > 0
    ensures Scale(0, a, b) == 0 && Scale(b, a, b) == a
  {
    Commute(a, b);
    QuotientIs(b * a, b, a);
    QuotientIs(0, b, 0);
  }

  lemma Commute(a: nat, b: nat)
    ensures a * b == b * a
  {
  }

  /** Growing keeps different edges different. */
  lemma ScaleGrows(d: nat, e: nat, a: nat, b: nat)
    requires 0 < b <= a && d < e
    ensures Scale(d, a, b) < Scale(e, a, b)
  {
    ProductMonotone(d + 1, e, a);
    OneMore(d, a);
    OneQuotientMore(d * a, b);
    DivMonotone(d * a + b, e * a, b);
  }

  lemma OneQuotientMore(p: nat, b: nat)
    requires b > 0
    ensures (p + b) / b == p / b + 1
  {
    OneMore(p / b, b);
    assert (p / b) * b <= p < (p / b) * b + b;
    QuotientIs(p + b, b, p / b + 1);
  }

  /** A scaled edge stands where it did in proportion, rounded down to a whole cell. */
  lemma ScaleIs(e: nat, a: nat, b: nat)
    requires b > 0
    ensures Scale(e, a, b) * b <= e * a < (Scale(e, a, b) + 1) * b
  {
    OneMore(e * a / b, b);
  }

  /** Each edge of the ordinary windows is at the same part of the new size as it was of the old size, rounded
      down to a whole cell. */
  ghost predicate InProportion(ws: seq<Win>, width: int, height: int, ws1: seq<Win>, width1: int, height1: int) {
    && |ws1| == |ws|
    && forall i :: 0 <= i < |ws| && !ws[i].minibuf ==>
         var w, w1 := ws[i], ws1[i];
         && w1.x1 * width <= w.x1 * width1 < (w1.x1 + 1) * width
         && w1.x2 * width <= w.x2 * width1 < (w1.x2 + 1) * width
         && w1.y1 * height <= w.y1 * height1 < (w1.y1 + 1) * height
         && w1.y2 * height <= w.y2 * height1 < (w1.y2 + 1) * height
         && w1 == w.(x1 := w1.x1, x2 := w1.x2, y1 := w1.y1, y2 := w1.y2)
  }

  lemma RescaledInProportion(ws: seq<Win>, width: nat, height: nat, width1: nat, height1: nat, mini: Win)
    requires 0 < width && 0 < height && forall i :: 0 <= i < |ws| ==> Within(ws[i], width, height)
    ensures InProportion(ws, width, height, Rescaled(ws, width, height, width1, height1, mini), width1, height1)
  {
    hide Scale;
    forall i | 0 <= i < |ws| && !ws[i].minibuf
      ensures var w, w1 := ws[i], Rescaled(ws, width, height, width1, height1, mini)[i];
              && w1.x1 * width <= w.x1 * width1 < (w1.x1 + 1) * width
              && w1.x2 * width <= w.x2 * width1 < (w1.x2 + 1) * width
              && w1.y1 * height <= w.y1 * height1 < (w1.y1 + 1) * height
              && w1.y2 * height <= w.y2 * height1 < (w1.y2 + 1) * height
    {
      var w := ws[i];
      assert Within(w, width, height);
      ScaleIs(w.x1, width1, width);
      ScaleIs(w.x2, width1, width);
      ScaleIs(w.y1, height1, height);
      ScaleIs(w.y2, height1, height);
    }
  }

  /** Two windows side by side, on a screen twice as wide and twice as high. */
  lemma DoubledScreen(mini: Win)
    ensures var left, right := Win(0, 0, 40, 24, false, true, true), Win(40, 0, 80, 24, false, true, false);
            Rescaled([left, right], 80, 24, 160, 48, mini)
            == [left.(x2 := 80, y2 := 48), right.(x1 := 80, x2 := 160, y2 := 48)]
  {
  }

  /** On a screen of the same size everything stays in proportion where it is. */
  lemma SameInProportion(ws: seq<Win>, width: nat, height: nat)
    requires 0 < width && 0 < height
    ensures InProportion(ws, width, height, ws, width, height)
  {
    forall e: int, b: nat | 0 < b ensures e * b < (e + 1) * b {
      assert (e + 1) * b == e * b + b;
    }
  }

  /** The last cell that is scaled to `x1` or before it; an edge is scaled to `x1` or before it exactly if
      it is at that cell or before it. */
  lemma {:induction false} CellScaledTo(x1: nat, a: nat, b: nat, n: nat) returns (x: nat)
    requires b > 0 && 0 < n <= b && Scale(n, a, b) > x1
    ensures x < n && Scale(x, a, b) <= x1
    ensures forall e: nat :: Scale(e, a, b) <= x1 <==> e <= x
    decreases n
  {
    hide Scale;
    if Scale(n - 1, a, b) <= x1 {
      x := n - 1;
      forall e: nat ensures Scale(e, a, b) <= x1 <==> e <= x {
        if e <= x {
          ScaleMonotone(e, x, a, b);
        } else {
          ScaleMonotone(n, e, a, b);
        }
      }
    } else {
      if n == 1 {
        ScaleEnds(a, b);
        assert false;
      }
      x := CellScaledTo(x1, a, b, n - 1);
    }
  }

  function Scaled(w: Win, width1: nat, width: nat, height1: nat, height: nat): Win
    requires 0 < width && 0 < height && 0 <= w.x1 && 0 <= w.x2 && 0 <= w.y1 && 0 <= w.y2
  {
    w.(x1 := Scale(w.x1, width1, width), x2 := Scale(w.x2, width1, width),
       y1 := Scale(w.y1, height1, height), y2 := Scale(w.y2, height1, height))
  }

  function Placed(w: Win, mini: Win): Win {
    w.(x1 := mini.x1, y1 := mini.y1, x2 := mini.x2, y2 := mini.y2)
  }

  /** Only the edges change. */
  lemma PlacedIs(w: Win, mini: Win)
    ensures Placed(w, mini) == Win(mini.x1, mini.y1, mini.x2, mini.y2, w.minibuf, w.modeLine, w.rSeparator)
  {
  }

  /** The first layout: an ordinary window gets the whole screen. */
  function AllWhole(ws: seq<Win>, width: int, height: int, mini: Win): (r: seq<Win>)
    ensures |r| == |ws|
  {
    var whole := Win(0, 0, width, height, false, false, false);
    seq(|ws|, i requires 0 <= i < |ws| => Placed(ws[i], if ws[i].minibuf then mini else whole))
  }

  /** The layout on a screen of another size; the minibuffer is put where it belongs. */
  function Rescaled(ws: seq<Win>, width: nat, height: nat, width1: nat, height1: nat, mini: Win): (r: seq<Win>)
    requires 0 < width && 0 < height && forall i :: 0 <= i < |ws| ==> Within(ws[i], width, height)
    ensures |r| == |ws|
  {
    seq(|ws|, i requires 0 <= i < |ws| =>
          if ws[i].minibuf then Placed(ws[i], mini)
          else
            assert Within(ws[i], width, height);
            Scaled(ws[i], width1, width, height1, height))
  }

  /** Rounding opens no gap and no overlap; on a screen that is no smaller no window gets empty. */
  lemma RescaleKeepsTiling(ws: seq<Win>, width: nat, height: nat, width1: nat, height1: nat, mini: Win)
    requires 0 < width && 0 < height && Tiles(ws, width, height)
    ensures Tiles(Rescaled(ws, width, height, width1, height1, mini), width1, height1)
    ensures AllNonEmpty(ws) && width <= width1 && height <= height1 ==>
              AllNonEmpty(Rescaled(ws, width, height, width1, height1, mini))
  {
    hide Scale, Owners;
    var r := Rescaled(ws, width, height, width1, height1, mini);
    ScaleEnds(width1, width);
    ScaleEnds(height1, height);
    forall x1, y1 | 0 <= x1 < width1 && 0 <= y1 < height1 ensures Owners(r, x1, y1) == 1 {
      var x := CellScaledTo(x1, width1, width, width);
      var y := CellScaledTo(y1, height1, height, height);
      forall i | 0 <= i < |ws| ensures Owns(r[i], x1, y1) <==> Owns(ws[i], x, y) {
        assert Within(ws[i], width, height);
      }
      SameOwners(ws, r, x, y, x1, y1);
    }
    forall i | 0 <= i < |ws| ensures Within(r[i], width1, height1) {
      ScaledInside(ws[i], width, height, width1, height1);
    }
    if AllNonEmpty(ws) && width <= width1 && height <= height1 {
      forall i | 0 <= i < |ws| ensures NonEmpty(r[i]) {
        assert NonEmpty(ws[i]) && Within(ws[i], width, height);
        if !ws[i].minibuf {
          ScaleGrows(ws[i].x1, ws[i].x2, width1, width);
          ScaleGrows(ws[i].y1, ws[i].y2, height1, height);
        }
      }
    }
  }

  lemma ScaledInside(w: Win, width: nat, height: nat, width1: nat, height1: nat)
    requires 0 < width && 0 < height && Within(w, width, height)
    ensures !w.minibuf ==> Within(Scaled(w, width1, width, height1, height), width1, height1)
  {
    hide Scale;
    if !w.minibuf {
      ScaleEnds(width1, width);
      ScaleEnds(height1, height);
      ScaleMonotone(w.x1, w.x2, width1, width);
      ScaleMonotone(w.x2, width, width1, width);
      ScaleMonotone(w.y1, w.y2, height1, height);
      ScaleMonotone(w.y2, height, height1, height);
    }
  }

  /** The first layout is a tiling exactly if there is one ordinary window. */
  lemma WholeTiles(ws: seq<Win>, width: nat, height: nat, mini: Win)
    requires 0 < width && 0 < height
    ensures Tiles(AllWhole(ws, width, height, mini), width, height) <==> Ordinary(ws) == 1
  {
    var r := AllWhole(ws, width, height, mini);
    forall x, y | 0 <= x < width && 0 <= y < height ensures Owners(r, x, y) == Ordinary(ws) {
      WholeOwners(ws, width, height, mini, x, y);
    }
    assert Owners(r, 0, 0) == Ordinary(ws);
  }

  lemma {:induction false} WholeOwners(ws: seq<Win>, width: nat, height: nat, mini: Win, x: int, y: int)
    requires 0 <= x < width && 0 <= y < height
    ensures Owners(AllWhole(ws, width, height, mini), x, y) == Ordinary(ws)
  {
    if ws != [] {
      assert AllWhole(ws, width, height, mini)[1..] == AllWhole(ws[1..], width, height, mini);
      WholeOwners(ws[1..], width, height, mini, x, y);
    }
  }
}
